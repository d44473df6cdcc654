/**
 * The `Paginator` object of modules/paginator.py: it owns the entries, cuts
 * them into pages in place, sends the first page, and edits that one message
 * as the navigation buttons are clicked. Calls on the chat client are
 * recorded in a ghost log of effects.
 */
module Paging {
  import opened Wrappers
  import opened PagingSpec

  /** Builds a page's text entry by entry, as the `for` loops of `start` and `update` do. */
  method BuildDescription(prefix: string, page: seq<string>, suffix: string) returns (d: string)
    ensures d == Description(prefix, page, suffix)
  {
    d := "";
    for k := 0 to |page|
      invariant d == Description(prefix, page[..k], suffix)
    {
      assert page[..k + 1][..k] == page[..k];
      d := d + prefix + page[k] + suffix;
    }
    assert page[..|page|] == page;
  }

  /** A page list that starts with `ps` and has only empty pages after it is `ps` padded. */
  lemma PaddedFrom(pages: seq<seq<string>>, count: nat, ps: seq<seq<string>>)
    requires count <= |pages| && pages[..count] == ps
    requires forall t :: count <= t < |pages| ==> pages[t] == []
    ensures pages == Padded(ps, |pages|)
  {
  }

  /** The state of `parse_pages` after `k` entries went into the first `count` pages. */
  ghost predicate SplitSoFar(orig: seq<string>, k: nat, count: nat, pages: seq<seq<string>>, len: nat, sep: string, total: nat)
    requires len >= 1
  {
    k <= |orig| && (k < |orig| ==> Aligned(orig[..k], len)) &&
    |pages| == total && count <= total &&
    pages[..count] == Paginate(orig[..k], len, sep) &&
    forall t :: count <= t < total ==> pages[t] == []
  }

  /** Filling page `count` with the next run of entries keeps the split state. */
  lemma SplitStep(orig: seq<string>, k0: nat, k: nat, count: nat, before: seq<seq<string>>, after: seq<seq<string>>,
                  len: nat, sep: string, total: nat)
    requires len >= 1 && SplitSoFar(orig, k0, count, before, len, sep, total)
    requires k0 < k <= |orig| && k - k0 <= len && (k - k0 == len || k == |orig|)
    requires count == |Paginate(orig[..k0], len, sep)| < total
    requires after == before[count := Suffixed(orig[k0..k], sep)]
    ensures SplitSoFar(orig, k, count + 1, after, len, sep, total)
  {
    PageClosed(orig, k0, k, len, sep);
    assert after[..count + 1] == before[..count] + [Suffixed(orig[k0..k], sep)];
  }

  /** Once every entry is in, the pages are the split padded to the page count. */
  lemma SplitDone(orig: seq<string>, k: nat, count: nat, pages: seq<seq<string>>, len: nat, sep: string, total: nat)
    requires len >= 1 && SplitSoFar(orig, k, count, pages, len, sep, total) && orig[k..] == []
    ensures pages == Padded(Paginate(orig, len, sep), total)
  {
    assert orig[..k] == orig;
    PaddedFrom(pages, count, Paginate(orig, len, sep));
  }

  class Paginator {
    const opts: Options
    var entries: seq<string>
    var pages: seq<seq<string>>
    var currentPage: int
    var totalPages: nat
    /** The sent message (`self.current`), None until `start` has sent it. */
    var current: Option<MessageId>
    /** The calls made on the chat client, oldest first. */
    ghost var log: seq<Effect>

    /** The page length is positive, the page count still covers the unsplit entries, and no click takes the page below 0. */
    ghost predicate Valid()
      reads this
    {
      opts.length >= 1 && CeilDiv(|entries|, opts.length) <= totalPages && currentPage >= 0
    }

    /** The body of `__init__` once the length check has passed. */
    constructor (opts: Options, entries: seq<string>)
      requires opts.length >= 1
      ensures Valid()
      ensures this.opts == opts && this.entries == entries && pages == []
      ensures currentPage == 1 && totalPages == CeilDiv(|entries|, opts.length)
      ensures current == None && log == []
    {
      this.opts := opts;
      this.entries := entries;
      current := None;
      currentPage := 1;
      pages := [];
      totalPages := CeilDiv(|entries|, opts.length);
      log := [];
    }

    /**
     * Moves every entry, with the line separator appended, out of `entries`
     * and into `pages`, `length` at a time; pages beyond the split stay empty.
     */
    method ParsePages()
      requires Valid()
      modifies this
      ensures Valid()
      ensures entries == []
      ensures pages == Padded(Paginate(old(entries), opts.length, opts.linesep), totalPages)
      ensures currentPage == old(currentPage) && totalPages == old(totalPages)
      ensures current == old(current) && log == old(log)
    {
      ghost var orig := entries;
      var len, sep := opts.length, opts.linesep;
      PaginateCount(orig, len, sep);
      pages := seq(totalPages, _ => []);
      var count := 0;
      ghost var k := 0;
      while |entries| > 0
        invariant k <= |orig| && entries == orig[k..] && SplitSoFar(orig, k, count, pages, len, sep, totalPages)
        modifies this`entries, this`pages
        decreases |entries|
      {
        ghost var k0 := k;
        NextPageFits(orig, k, len, sep, totalPages);
        ghost var before := pages;
        k := FillPage(count, orig, k0);
        SplitStep(orig, k0, k, count, before, pages, len, sep, totalPages);
        count := count + 1;
      }
      SplitDone(orig, k, count, pages, len, sep, totalPages);
      assert Paginate(entries, len, sep) == [];
      PaginateCount(entries, len, sep);
    }

    /** One pass of `parse_pages`' inner loop: up to `length` entries move, in order, onto the end of page `count`. */
    method FillPage(count: nat, ghost orig: seq<string>, ghost k0: nat) returns (ghost k: nat)
      requires opts.length >= 1
      requires k0 < |orig| && entries == orig[k0..] && count < |pages| && pages[count] == []
      modifies this`entries, this`pages
      ensures k0 < k <= |orig| && k - k0 <= opts.length && entries == orig[k..]
      ensures k - k0 == opts.length || entries == []
      ensures pages == old(pages)[count := Suffixed(orig[k0..k], opts.linesep)]
    {
      var sep := opts.linesep;
      k := k0;
      assert Suffixed(orig[k0..k0], sep) == [];
      assert pages == pages[count := []];
      for j := 0 to opts.length
        invariant k0 <= k <= |orig| && entries == orig[k..]
        invariant k - k0 == j || entries == []
        invariant k - k0 <= j && (j > 0 ==> k > k0)
        invariant pages == old(pages)[count := Suffixed(orig[k0..k], sep)]
      {
        if |entries| > 0 {
          assert Suffixed(orig[k0..k + 1], sep) == Suffixed(orig[k0..k], sep) + [entries[0] + sep];
          pages := pages[count := pages[count] + [entries[0] + sep]];
          entries := entries[1..];
          k := k + 1;
        }
      }
    }

    /**
     * `start`: chooses title and colour for `initPage`, splits the pages,
     * renders `initPage` and sends it; footer and buttons only with more than
     * one page. The current page is left as it was.
     */
    method Start(handle: MessageId) returns (r: Outcome<Error>)
      requires Valid()
      modifies this
      ensures Valid()
      ensures currentPage == old(currentPage) && totalPages == old(totalPages)
      ensures var i := opts.initPage - 1;
        if Pick(opts.title, i).None? || Pick(opts.colour, i).None? then
          r == Fail(IndexError) && entries == old(entries) && pages == old(pages) &&
          current == old(current) && log == old(log)
        else
          entries == [] && pages == Padded(Paginate(old(entries), opts.length, opts.linesep), totalPages) &&
          match RenderPage(opts, pages, opts.initPage, totalPages, Initial)
          case Err(e) => r == Fail(e) && current == old(current) && log == old(log)
          case Ok(embed) => r == Pass && current == Some(handle) && log == old(log) + [Send(opts.message, embed, opts.reply)]
    {
      var i := opts.initPage - 1;
      var title := Pick(opts.title, i);
      var colour := Pick(opts.colour, i);
      if title.None? || colour.None? {
        return Fail(IndexError);
      }
      ParsePages();
      var page := PyText.PyIdx(pages, i);
      if page.None? {
        return Fail(IndexError);
      }
      var description := BuildDescription(opts.prefix, page.value, opts.suffix);
      var footer := if totalPages > 1 then Some(Footer(opts.initPage, totalPages)) else None;
      var thumbnail := PickThumbnail(opts.thumbnail, i);
      if thumbnail.Err? {
        return Fail(IndexError);
      }
      var embed := Embed(title.value, colour.value, description, footer, thumbnail.value, totalPages > 1);
      log := log + [Send(opts.message, embed, opts.reply)];
      current := Some(handle);
      r := Pass;
    }

    /** `update`: renders the current page, footer always, and edits the sent message with it. */
    method Update() returns (r: Outcome<Error>)
      requires Valid()
      modifies this`log
      ensures match UpdateEffect(opts, pages, currentPage, totalPages, current)
        case Err(e) => r == Fail(e) && log == old(log)
        case Ok(edit) => r == Pass && log == old(log) + [edit]
    {
      var i := currentPage - 1;
      var title := Pick(opts.title, i);
      var colour := Pick(opts.colour, i);
      if title.None? || colour.None? {
        return Fail(IndexError);
      }
      var thumbnail := PickThumbnail(opts.thumbnail, i);
      if thumbnail.Err? {
        return Fail(IndexError);
      }
      var page := PyText.PyIdx(pages, i);
      if page.None? {
        return Fail(IndexError);
      }
      var description := BuildDescription(opts.prefix, page.value, opts.suffix);
      var embed := Embed(title.value, colour.value, description, Some(Footer(currentPage, totalPages)), thumbnail.value, true);
      if current.None? {
        return Fail(AttributeError);
      }
      log := log + [Edit(current.value, opts.message, embed)];
      r := Pass;
    }

    /** After a callback for `a` clicked on page `before`: the page it landed on, what it returned, what it sent. */
    ghost predicate Clicked(a: Action, before: int, logBefore: seq<Effect>, r: Outcome<Error>)
      reads this
    {
      var m := Step(a, before, |pages|, totalPages);
      currentPage == Land(m, before) &&
      r == CallbackOutcome(m, opts, pages, totalPages, current) &&
      log == logBefore + CallbackEffects(m, opts, pages, totalPages, current)
    }

    /** `first_callback`. */
    method FirstClicked() returns (r: Outcome<Error>)
      requires Valid()
      modifies this
      ensures Valid() && Clicked(First, old(currentPage), old(log), r)
      ensures entries == old(entries) && pages == old(pages) && totalPages == old(totalPages) && current == old(current)
    {
      currentPage := 1;
      r := Update();
      if r.Pass? {
        log := log + [Defer];
      }
    }

    /** `previous_callback`: returns at once, unacknowledged, only when the page is already 0. */
    method PreviousClicked() returns (r: Outcome<Error>)
      requires Valid()
      modifies this
      ensures Valid() && Clicked(Previous, old(currentPage), old(log), r)
      ensures entries == old(entries) && pages == old(pages) && totalPages == old(totalPages) && current == old(current)
    {
      if currentPage - 1 < 0 {
        return Pass;
      }
      currentPage := currentPage - 1;
      r := Update();
      if r.Pass? {
        log := log + [Defer];
      }
    }

    /** `next_callback`: returns at once, unacknowledged, when there is no further page in `pages`. */
    method NextClicked() returns (r: Outcome<Error>)
      requires Valid()
      modifies this
      ensures Valid() && Clicked(Next, old(currentPage), old(log), r)
      ensures entries == old(entries) && pages == old(pages) && totalPages == old(totalPages) && current == old(current)
    {
      if currentPage + 1 > |pages| {
        return Pass;
      }
      currentPage := currentPage + 1;
      r := Update();
      if r.Pass? {
        log := log + [Defer];
      }
    }

    /** `last_callback`. */
    method LastClicked() returns (r: Outcome<Error>)
      requires Valid()
      modifies this
      ensures Valid() && Clicked(Last, old(currentPage), old(log), r)
      ensures entries == old(entries) && pages == old(pages) && totalPages == old(totalPages) && current == old(current)
    {
      currentPage := totalPages;
      r := Update();
      if r.Pass? {
        log := log + [Defer];
      }
    }

    /** `delete`: removes the sent message. */
    method Delete() returns (r: Outcome<Error>)
      requires Valid()
      modifies this`log
      ensures current.None? ==> r == Fail(AttributeError) && log == old(log)
      ensures current.Some? ==> r == Pass && log == old(log) + [Remove(current.value)]
    {
      if current.None? {
        return Fail(AttributeError);
      }
      log := log + [Remove(current.value)];
      r := Pass;
    }

    /** `delete_callback`: deletes the message, then acknowledges the click. */
    method DeleteClicked() returns (r: Outcome<Error>)
      requires Valid()
      modifies this`log
      ensures current.None? ==> r == Fail(AttributeError) && log == old(log)
      ensures current.Some? ==> r == Pass && log == old(log) + [Remove(current.value), Defer]
    {
      r := Delete();
      if r.Pass? {
        log := log + [Defer];
      }
    }

    /** `close_page`: the same as `delete`. */
    method ClosePage() returns (r: Outcome<Error>)
      requires Valid()
      modifies this`log
      ensures current.None? ==> r == Fail(AttributeError) && log == old(log)
      ensures current.Some? ==> r == Pass && log == old(log) + [Remove(current.value)]
    {
      r := Delete();
    }

    /** `clear`: forgets the pages; entries, page numbers and the sent message are untouched. */
    method Clear()
      requires Valid()
      modifies this`pages
      ensures Valid() && pages == []
    {
      pages := [];
    }
  }

  /** `Paginator(...)`: raises ValueError for a page length below 1, otherwise a fresh paginator on page 1. */
  method Create(opts: Options, entries: seq<string>) returns (r: Result<Paginator, Error>)
    ensures r.Err? <==> opts.length < 1
    ensures r.Err? ==> r.error == ValueError(LengthMessage)
    ensures r.Ok? ==>
      fresh(r.value) && r.value.Valid() && r.value.opts == opts &&
      r.value.entries == entries && r.value.pages == [] && r.value.currentPage == 1 &&
      r.value.totalPages == CeilDiv(|entries|, opts.length) && r.value.current == None && r.value.log == []
  {
    if opts.length < 1 {
      return Err(ValueError(LengthMessage));
    }
    var p := new Paginator(opts, entries);
    r := Ok(p);
  }
}
