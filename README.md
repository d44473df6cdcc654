# Discord.py bot template: paginator, eval helpers and JSON store

This project is a Dafny model of the core of a Discord bot template written in Python. It has three parts:

- **The paginated embed** (`Paginator`, modules/paginator.py). The object:
  - holds a list of text entries;
  - cuts the entries into pages of `length` entries, each with the line separator appended (`parse_pages`);
  - renders one page into an embed, with the title, colour and thumbnail fixed or chosen per page, a description built from `prefix + entry + suffix` and a `Page n of N` footer (`start`, `update`);
  - moves the current page with four buttons, first, previous, next and last, and has a fifth button that deletes the message.

  The class `Paging.Paginator` keeps the Python object's fields. Its methods update them in place. Calls on the chat client (send, edit, delete, acknowledge) are appended to a ghost log of effects. The module `PagingSpec` holds the pure functions these methods are proved against:
  - `Paginate`: the page split;
  - `RenderPage`: the embed of one page;
  - `Step` and `Run`: the navigation.

  Lemmas about those functions state the properties that the class's clients rely on.
- **The Heart cog's pure helpers** (cogs/heart.py), in module `Heart`:
  - `clean_code`, which strips a code fence from eval input;
  - the comprehension that cuts eval output into 2000-character pages, and how the paginator built from it shows each page;
  - `cog_exists`, over a directory listing passed in as a sequence;
  - the `.py` filter and strip of `load all` (but not the load call after them, see below).
- **The JSON store** (modules/jsonhandler.py), in module `JsonHandler`. The `data/` directory is a map from file name to the dictionary stored in that file. The module covers `validate_name`, `read_file`, `fetch_data`, `overwrite_file` and `append_data`.

Python's string and list semantics live in module `PyText`:
- negative indexing (`PyIdx`);
- `s[:-k]`;
- `split` and `join`;
- `startswith` and `endswith`;
- `str()` of an integer.

Raised exceptions are values of `Result`/`Outcome` (module `Wrappers`). Each one is named after the Python exception.

### Where the code does not do what its comments say

The model follows the code in each of these places:

- **`previous` on page 1 does not stop there.** The guard is `current_page - 1 < 0`, so page 1 goes to page 0. `update` then indexes the page list with Python index `-1`: it shows the **last** page under the footer "Page 0 of N". `PagingSpec.PreviousSinks` and `PagingSpec.PreviousFromFirstShowsLast` state this.
- **The early returns of `previous` and `next` do not acknowledge the click.** Nothing is logged for them, not even `Defer`. A re-render that raises also leaves the click unacknowledged, but the page number has already moved.
- **`start` renders `init_page` but leaves `current_page` at 1.** The first button click after it therefore counts from page 1.
- **No entries means no first page.** `start` indexes an empty page list and raises IndexError. `Start` returns `Fail(IndexError)` in this case, and `RenderPage` returns `Err(IndexError)`.
- **Per-page lists are not checked against the page count.** A title, colour or thumbnail list that is too short raises IndexError when it is used. A negative index into one reads from its end.
- **`load all` stops at the first `.py` file.** The loop calls `self.load_extension` on the cog, which has no such method (the single-cog path calls `self.client.load_extension`). The AttributeError is not one of the exceptions the loop catches, so it ends the command before anything is loaded and before the reply is sent. `Heart.CogNames` models only the names the filter and strip yield.
- **`author_restrict` and `timeout` are stored but never used.** They are fields of `Options` and nothing reads them.

## Model

| member | source | states |
|---|---|---|
| PagingSpec.Paginate | modules/paginator.py:53-68 | the split of the entries into runs of `length`, each entry with the separator appended; no pages exactly when there are no entries, and every page holds 1 to `length` entries |
| PagingSpec.CeilDiv | modules/paginator.py:51 | `math.ceil(n / d)` is the least `q` with `q * d >= n` |
| PagingSpec.PaginateCount | modules/paginator.py:51-68 | the split has exactly `ceil(len(entries) / length)` pages |
| PagingSpec.PaginateFlatten | modules/paginator.py:61-67 | the pages, concatenated, are the entries in their original order, each followed by the line separator |
| PagingSpec.PaginateShape | modules/paginator.py:61-68 | every page but the last holds exactly `length` entries, and the last holds 1 to `length` |
| PagingSpec.PaginateAt | modules/paginator.py:61-68 | page `i` holds entries `i*length` up to `(i+1)*length`, or up to the end |
| PagingSpec.PaginateSingles | modules/paginator.py:61-68 | with `length == 1`, page `k` holds entry `k` alone |
| PagingSpec.DescriptionAppend | modules/paginator.py:147-148 | the description of two runs of entries is the first run's text followed by the second's |
| PagingSpec.DescriptionLength | modules/paginator.py:194-195 | the description is as long as the entries plus one prefix and one suffix per entry |
| PagingSpec.DescriptionSingle | modules/paginator.py:147-148 | a one-entry page renders as `prefix + entry + suffix` |
| PagingSpec.FooterIdentifiesPage | modules/paginator.py:197 | two equal footers name the same page number and the same page count |
| PagingSpec.Pick | modules/paginator.py:128-136 | a fixed setting is used as it is; a per-page list gives its element at Python index `i`, and fails exactly outside `-len <= i < len` |
| PagingSpec.Truthy | modules/paginator.py:157 | a thumbnail setting is false exactly when it is None, `""` or `[]` |
| PagingSpec.PickThumbnail | modules/paginator.py:157-161 | no thumbnail when the setting is false; otherwise the picked one, or IndexError when a list has no element at that index |
| PagingSpec.RenderPage | modules/paginator.py:128-161 | a failed render is an IndexError; a rendered page shows the page list's entries at Python index `page-1`; footer and buttons come together, always on `update` and on `start` only with more than one page, and the footer reads `Page {page} of {total}` |
| PagingSpec.RenderShowsItsPage | modules/paginator.py:171-197 | for any settings, a render succeeds exactly when title, colour, thumbnail and page can all be picked at index `page-1`, and it shows those; a page number in range shows exactly its own entries |
| PagingSpec.RenderFixedFailsOnlyOutside | modules/paginator.py:171-197 | with title, colour and thumbnail each given once (no list), a render fails exactly outside Python's index range of the page list |
| PagingSpec.RenderedEntries | modules/paginator.py:144-148 | a rendered page `i+1` shows the entries `i*length` up to `(i+1)*length`, each with prefix, separator and suffix; with title, colour and thumbnail each given once it always renders |
| PagingSpec.Step | modules/paginator.py:84-106 | previous returns early exactly below page 1, next exactly at or past the number of pages; no click goes below 0 and next never passes the number of pages |
| PagingSpec.Run | modules/paginator.py:84-106 | no sequence of clicks takes the page number below 0 |
| PagingSpec.RunInRange | modules/paginator.py:84-106 | when the page count equals the number of pages, every page reached is between 0 and that count, and the page list can be indexed there |
| PagingSpec.PreviousSinks | modules/paginator.py:89-94 | `k` clicks on previous lower the page by `k` and stop at 0, not at 1 |
| PagingSpec.NextClimbs | modules/paginator.py:96-101 | `k` clicks on next raise the page by `k` and stop at the number of pages |
| PagingSpec.NextAtEndStays | modules/paginator.py:96-101 | from the last page, or after `clear`, next never moves |
| PagingSpec.PreviousFromFirstShowsLast | modules/paginator.py:89-94 | previous from page 1 goes to page 0; when that page renders it shows the last page under "Page 0 of N", with the last title and the last colour of per-page lists; with title, colour and thumbnail each given once it always renders |
| Paging.BuildDescription | modules/paginator.py:147-148 | the loop builds exactly the page's `prefix + entry + suffix` text |
| Paging.Paginator.constructor | modules/paginator.py:31-51 | the settings are stored; no pages yet; page 1; `total_pages == ceil(len(entries) / length)`; nothing sent |
| Paging.Create | modules/paginator.py:28-29 | ValueError("Length cannot be less than 1") exactly when `length < 1`, otherwise a fresh paginator as the constructor describes it |
| Paging.Paginator.FillPage | modules/paginator.py:64-67 | one pass of the inner loop moves the next 1 to `length` entries, with the separator, into the page being filled, and stops early only when the entries run out |
| Paging.Paginator.ParsePages | modules/paginator.py:53-68 | the entries list is emptied, and `pages` is the split, padded with empty pages up to `total_pages`; nothing else changes |
| Paging.Paginator.Start | modules/paginator.py:127-167 | an IndexError on title or colour comes before the split; otherwise the split is done and page `init_page` is sent, or the IndexError is returned; `current_page` is not changed |
| Paging.Paginator.Update | modules/paginator.py:170-199 | the sent message is edited to show the current page, with the footer; otherwise the IndexError, or AttributeError when nothing was sent |
| Paging.Paginator.FirstClicked | modules/paginator.py:84-87 | the page becomes 1, it is re-rendered, and the click is acknowledged only if the re-render succeeded |
| Paging.Paginator.PreviousClicked | modules/paginator.py:89-94 | at page 0 the click returns with no effect; otherwise the page goes down by one, including from 1 to 0 |
| Paging.Paginator.NextClicked | modules/paginator.py:96-101 | past the page list the click returns with no effect; otherwise the page goes up by one |
| Paging.Paginator.LastClicked | modules/paginator.py:103-106 | the page becomes `total_pages` and it is re-rendered |
| Paging.Paginator.Delete | modules/paginator.py:202-203 | the sent message is removed, or AttributeError when nothing was sent |
| Paging.Paginator.DeleteClicked | modules/paginator.py:80-82 | delete, then acknowledge, unless the delete raised |
| Paging.Paginator.ClosePage | modules/paginator.py:205-206 | the same effects as delete |
| Paging.Paginator.Clear | modules/paginator.py:208-209 | the page list becomes empty and nothing else changes |
| PyText.JoinSplit | cogs/heart.py:23 | joining the pieces of a split with the separator gives the string back |
| PyText.IntStrRoundTrip | modules/paginator.py:152 | the decimal text of a page number reads back as that number |
| Heart.CleanCode | cogs/heart.py:21-25 | unfenced code is returned unchanged, and the result is never longer than the input |
| Heart.CleanCodeCases | cogs/heart.py:21-25 | unfenced code is kept; fenced code becomes what follows its first newline less the last three characters, or `""` with no newline; never longer |
| Heart.CleanCodeUnwraps | cogs/heart.py:21-25 | a fence line, the code and a closing fence come back as the code |
| Heart.EvalChunks | cogs/heart.py:103 | `ceil(len / 2000)` chunks, each of 1 to 2000 characters |
| Heart.EvalChunksJoin | cogs/heart.py:103 | the chunks, concatenated, give the eval output back exactly |
| Heart.EvalChunksSizes | cogs/heart.py:103 | `ceil(len / 2000)` chunks; every chunk but the last has 2000 characters and the last 1 to 2000; no chunk for empty output |
| Heart.EvalPageShowsChunk | cogs/heart.py:99-108 | one page per chunk; page `p` shows chunk `p-1` alone in a code block, with the footer |
| Heart.EvalStartHasPage | cogs/heart.py:88 | successful eval output is never empty, so `start` always finds its first page |
| Heart.CogExists | cogs/heart.py:29-34 | true exactly when the listing contains `<extension>.py` |
| Heart.StripPyRestores | cogs/heart.py:122-123 | removing `.py` and adding it back gives the file name |
| Heart.CogNames | cogs/heart.py:121-123 | the names the filter and strip yield: never more names than files, and one name per file when every file ends in `.py` |
| Heart.CogNamesMatchFiles | cogs/heart.py:121-123 | the filter and strip yield a name exactly when `<name>.py` is in the listing |
| JsonHandler.ValidateName | modules/jsonhandler.py:4-8 | the result always ends with `.json` |
| JsonHandler.ValidateNameCases | modules/jsonhandler.py:4-8 | the name is unchanged exactly when it already ends with `.json` (case-sensitive), and otherwise gets `.json` appended |
| JsonHandler.ValidateNameIdempotent | modules/jsonhandler.py:4-8 | validating twice is validating once |
| JsonHandler.ValidateNameSameFile | modules/jsonhandler.py:4-8 | `f` and `f + ".json"` name the same file exactly when `f` does not end with `.json` |
| JsonHandler.ReadFile | modules/jsonhandler.py:12-15 | the dictionary stored under the validated name, or FileNotFoundError when there is no such file |
| JsonHandler.FetchData | modules/jsonhandler.py:26-27 | the stored value when the key is present, None when it is not, an error when the file is missing |
| JsonHandler.Merge | modules/jsonhandler.py:34 | the dictionary union of the file and `data` has the keys of both, `data`'s value on every key of `data`, and the old value on keys only the file has |
| JsonHandler.MergeIdempotent | modules/jsonhandler.py:34 | merging the same data a second time changes nothing |
| JsonHandler.DataDir.OverwriteFile | modules/jsonhandler.py:19-22 | the validated file now holds exactly the data; every other file is unchanged |
| JsonHandler.DataDir.AppendData | modules/jsonhandler.py:32-35 | an existing file gets the merge written back; a missing file raises FileNotFoundError and nothing is written |
| JsonHandler.ReadAfterOverwrite | modules/jsonhandler.py:12-22 | a read under any name that validates to the written file returns what was written |
| JsonHandler.OverwriteKeepsOthers | modules/jsonhandler.py:12-22 | writing one file leaves every other file's contents as they were |
| JsonHandler.FetchAfterAppend | modules/jsonhandler.py:26-35 | after an append, keys of the data give the data's value, keys only in the old file keep the old value, and no other key appears |

## Left out

- The chat client (sending, editing and deleting messages, acknowledging interactions) is a ghost log of effects. The handle of the sent message is a parameter of `Start`. Discord's own errors are not modelled, for example NotFound when a message is deleted twice.
- The context object, `nav`'s `View` and `Button` objects, and the check of who clicked are left out. So are the button timeout and `author_restrict`, which the code never reads.
- Async dispatch is not modelled. Each callback runs to completion, and two callbacks never interleave.
- Paging.Paginator.ParsePages: `pages` is a sequence value that the method reassigns. The Python list and the caller's `entries` list, which the paginator pops from in place (aliasing), are not modelled as shared heap objects.
- PagingSpec.CeilDiv: `math.ceil(len / length)` divides in floating point. The model divides exactly, which agrees for any list that fits in memory.
- `update` always builds the view with `nav()` and hands it to the edit. The embed's `hasNav` flag records that buttons go with the message; the view object itself is not modelled.
- Heart: `eval` runs code with `exec`, captures stdout and formats tracebacks. None of this is modelled. The output text is a parameter (`SuccessText`, or any string for an error).
- Heart: `eval` passes `fetch_data`'s colour straight to the paginator. A colour that is missing or not an integer (None) would raise in `start`. The model takes the colour as an integer.
- Heart: `load`, `unload`, `reload` and `sync` call into the bot framework. Only the listing filter and the name strip of `load all` are modelled. The failing `self.load_extension` call that follows them (cogs/heart.py:125) is not.
- JsonHandler: JSON encoding and decoding and the file system are left out. A file is the dictionary it decodes to, with values of an abstract type `V`. A file that does not parse, or that holds a non-dictionary, is not modelled.
- JsonHandler.FetchData: a key stored with the JSON value `null` reads as `Some(null)`, where Python's `get` returns `None` for it as well.
- bot.py, cogs/misc.py and the help command are not part of this model.
