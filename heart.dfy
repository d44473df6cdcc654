/**
 * The pure parts of the Heart cog (cogs/heart.py): stripping a code fence
 * from eval input, cutting eval output into 2000-character pages, and
 * looking cog files up in the cogs directory listing, which is passed in as
 * a sequence of file names.
 */
module Heart {
  import opened Wrappers
  import opened PyText
  import opened PagingSpec

  const Fence: string := "```"

  /** The largest piece of eval output shown on one page. */
  const ChunkSize: nat := 2000

  predicate Fenced(code: string) {
    StartsWith(code, Fence) && EndsWith(code, Fence)
  }

  /** `clean_code`: a fenced block loses its first line and its last three characters. */
  function CleanCode(code: string): (r: string)
    ensures !Fenced(code) ==> r == code
    ensures |r| <= |code|
  {
    if Fenced(code) then
      JoinSplitTail(code, '\n');
      DropLast(Join("\n", Split(code, '\n')[1..]), 3)
    else code
  }

  /** Unfenced code is kept as it is; fenced code keeps what follows the first newline, less the last three characters. */
  lemma CleanCodeCases(code: string)
    ensures !Fenced(code) ==> CleanCode(code) == code
    ensures Fenced(code) ==> CleanCode(code) == DropLast(AfterFirst(code, '\n'), 3)
    ensures Fenced(code) && '\n' !in code ==> CleanCode(code) == ""
    ensures |CleanCode(code)| <= |code|
  {
    JoinSplitTail(code, '\n');
  }

  /** The first `c` of `s` is at `j` when `s[j]` is `c` and no `c` comes before. */
  lemma {:induction false} IndexOfAt(s: string, c: char, j: nat)
    requires j < |s| && s[j] == c && c !in s[..j]
    ensures IndexOf(s, c) == j
    decreases j
  {
    if j > 0 {
      assert s[..j][0] == s[0];
      assert s[1..][..j - 1] == s[..j][1..];
      IndexOfAt(s[1..], c, j - 1);
    }
  }

  /** A block written as a fence line, the code and a closing fence comes back as the code. */
  lemma CleanCodeUnwraps(lang: string, body: string)
    requires '\n' !in lang
    ensures CleanCode(Fence + lang + "\n" + body + Fence) == body
  {
    var code := Fence + lang + "\n" + body + Fence;
    var j := |Fence + lang|;
    assert code[..|Fence|] == Fence;
    assert code[|code| - |Fence|..] == Fence;
    assert code[..j] == Fence + lang;
    assert code[j] == '\n';
    IndexOfAt(code, '\n', j);
    assert code[j + 1..] == body + Fence;
    CleanCodeCases(code);
  }

  /** `[result[i: i + 2000] for i in range(0, len(result), 2000)]`. */
  function EvalChunks(result: string): (chunks: seq<string>)
    ensures |chunks| == CeilDiv(|result|, ChunkSize)
    ensures forall k :: 0 <= k < |chunks| ==> 1 <= |chunks[k]| <= ChunkSize
  {
    seq(CeilDiv(|result|, ChunkSize), k requires 0 <= k < CeilDiv(|result|, ChunkSize) =>
      result[k * ChunkSize .. if k * ChunkSize + ChunkSize <= |result| then k * ChunkSize + ChunkSize else |result|])
  }

  /** Chunk `k` is the slice the comprehension takes for it. */
  lemma EvalChunkAt(result: string, k: nat)
    requires k < |EvalChunks(result)|
    ensures var lo := k * ChunkSize;
      lo < |result| &&
      EvalChunks(result)[k] == result[lo .. if lo + ChunkSize <= |result| then lo + ChunkSize else |result|]
  {
  }

  /** Chunk `k + 1` of the output is chunk `k` of the output less its first 2000 characters. */
  lemma EvalChunkShift(result: string, k: nat)
    requires |result| > ChunkSize && k + 1 < |EvalChunks(result)| && k < |EvalChunks(result[ChunkSize..])|
    ensures EvalChunks(result)[k + 1] == EvalChunks(result[ChunkSize..])[k]
  {
    var rest := result[ChunkSize..];
    var lo := k * ChunkSize;
    var hi := if lo + ChunkSize <= |rest| then lo + ChunkSize else |rest|;
    EvalChunkAt(result, k + 1);
    EvalChunkAt(rest, k);
    assert (k + 1) * ChunkSize == lo + ChunkSize;
    assert EvalChunks(rest)[k] == rest[lo..hi];
    assert EvalChunks(result)[k + 1] == result[lo + ChunkSize..hi + ChunkSize];
    SliceOfSlice(result, ChunkSize, lo, hi);
  }

  /** After the first full chunk, the chunks are those of the rest of the output. */
  lemma EvalChunksStep(result: string)
    requires |result| > ChunkSize
    ensures EvalChunks(result) == [result[..ChunkSize]] + EvalChunks(result[ChunkSize..])
  {
    CeilDivStep(|result|, ChunkSize);
    var cs, rest := EvalChunks(result), EvalChunks(result[ChunkSize..]);
    assert |cs| == 1 + |rest|;
    forall k | 0 <= k < |rest|
      ensures cs[k + 1] == rest[k]
    {
      EvalChunkShift(result, k);
    }
    EvalChunkAt(result, 0);
    assert cs == [result[..ChunkSize]] + rest;
  }

  /** The chunks put back together are the output, exactly. */
  lemma {:induction false} EvalChunksJoin(result: string)
    ensures Flatten(EvalChunks(result)) == result
    decreases |result|
  {
    if |result| > ChunkSize {
      EvalChunksStep(result);
      EvalChunksJoin(result[ChunkSize..]);
      assert result[..ChunkSize] + result[ChunkSize..] == result;
    } else if result != [] {
      assert |EvalChunks(result)| == 1;
      assert EvalChunks(result)[0] == result[0..|result|] == result;
      assert EvalChunks(result) == [result];
      assert Flatten([result]) == result + Flatten<char>([]);
    } else {
      assert EvalChunks(result) == [];
    }
  }

  /** Every chunk but the last is 2000 characters long, the last 1 to 2000; empty output gives no chunk. */
  lemma EvalChunksSizes(result: string)
    ensures var cs := EvalChunks(result);
      |cs| == CeilDiv(|result|, ChunkSize) &&
      (cs == [] <==> result == []) &&
      (forall k :: 0 <= k < |cs| - 1 ==> |cs[k]| == ChunkSize) &&
      (cs != [] ==> 1 <= |cs[|cs| - 1]| <= ChunkSize)
  {
    var cs := EvalChunks(result);
    forall k | 0 <= k < |cs| - 1
      ensures |cs[k]| == ChunkSize
    {
      assert k * ChunkSize + ChunkSize <= (|cs| - 1) * ChunkSize;
    }
    if cs != [] {
      var last := |cs| - 1;
      assert last * ChunkSize < |result|;
      assert |cs[last]| >= 1;
    }
  }

  /** The keyword arguments eval builds its paginator with. */
  function EvalOptions(title: string, colour: int): Options {
    DefaultOptions().(title := Fixed(title), colour := Fixed(colour), timeout := 100, length := 1,
                      prefix := Fence + "\n", suffix := "\n" + Fence)
  }

  /** The eval result text on success: what was printed, then `-- ` and the returned value. */
  function SuccessText(printed: string, returned: string): string {
    printed + "\n-- " + returned
  }

  /**
   * One page per chunk, and page `p` shows chunk `p - 1` alone inside a code
   * block; footer and buttons appear, on `update`, for every page.
   */
  lemma EvalPageShowsChunk(title: string, colour: int, result: string, p: int)
    requires 1 <= p <= |EvalChunks(result)|
    ensures var opts := EvalOptions(title, colour);
      var chunks := EvalChunks(result);
      var pages := Paginate(chunks, opts.length, opts.linesep);
      |pages| == |chunks| &&
      RenderPage(opts, pages, p, |chunks|, Refresh) ==
        Ok(Embed(title, colour, Fence + "\n" + chunks[p - 1] + "\n" + "\n" + Fence, Some(Footer(p, |chunks|)), None, true))
  {
    var opts := EvalOptions(title, colour);
    var chunks := EvalChunks(result);
    PaginateSingles(chunks, "\n");
    var pages := Paginate(chunks, opts.length, opts.linesep);
    assert pages[p - 1] == [chunks[p - 1] + "\n"];
    assert PyIdx(pages, p - 1) == Some([chunks[p - 1] + "\n"]);
    DescriptionSingle(Fence + "\n", chunks[p - 1] + "\n", "\n" + Fence);
    assert Description(opts.prefix, pages[p - 1], opts.suffix) == Fence + "\n" + chunks[p - 1] + "\n" + "\n" + Fence;
  }

  /** Eval output is never empty, so its paginator always has a first page to start on. */
  lemma EvalStartHasPage(title: string, colour: int, printed: string, returned: string)
    ensures var opts := EvalOptions(title, colour);
      var chunks := EvalChunks(SuccessText(printed, returned));
      var pages := Paginate(chunks, opts.length, opts.linesep);
      chunks != [] && RenderPage(opts, pages, opts.initPage, |chunks|, Initial).Ok?
  {
    var result := SuccessText(printed, returned);
    EvalChunksSizes(result);
    EvalPageShowsChunk(title, colour, result, 1);
  }

  /** `cog_exists`: scans the listing of the cogs directory for `<extension>.py`. */
  method CogExists(listing: seq<string>, extension: string) returns (found: bool)
    ensures found <==> extension + ".py" in listing
  {
    for k := 0 to |listing|
      invariant extension + ".py" !in listing[..k]
    {
      if listing[k] == extension + ".py" {
        return true;
      }
    }
    assert listing[..|listing|] == listing;
    return false;
  }

  /** The names the filter and strip of `load all` yield: every `.py` file of the listing, in order, without `.py`. */
  function CogNames(listing: seq<string>): (names: seq<string>)
    ensures |names| <= |listing|
    ensures (forall k :: 0 <= k < |listing| ==> EndsWith(listing[k], ".py")) ==> |names| == |listing|
    decreases |listing|
  {
    if listing == [] then []
    else (if EndsWith(listing[0], ".py") then [DropLast(listing[0], 3)] else []) + CogNames(listing[1..])
  }

  /** Stripping `.py` from a `.py` file name and adding it back gives the name. */
  lemma StripPyRestores(file: string)
    requires EndsWith(file, ".py")
    ensures DropLast(file, 3) + ".py" == file
  {
    assert file == file[..|file| - 3] + file[|file| - 3..];
  }

  /** The filter and strip of `load all` yield a name exactly for each `.py` file of the listing, the name `cog_exists` looks up. */
  lemma {:induction false} CogNamesMatchFiles(listing: seq<string>)
    ensures forall n :: n in CogNames(listing) ==> n + ".py" in listing
    ensures forall f :: f in listing && EndsWith(f, ".py") ==> DropLast(f, 3) in CogNames(listing)
    decreases |listing|
  {
    if listing != [] {
      CogNamesMatchFiles(listing[1..]);
      if EndsWith(listing[0], ".py") {
        StripPyRestores(listing[0]);
      }
      assert listing == [listing[0]] + listing[1..];
    }
  }
}
