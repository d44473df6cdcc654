/**
 * Pure specification of the paginated embed (modules/paginator.py): how the
 * entries are cut into pages, how one page is rendered into an embed, and how
 * the four navigation buttons move the current page.
 */
module PagingSpec {
  import opened Wrappers
  import opened PyText

  /** The exceptions the paginator raises, named after Python's. */
  datatype Error =
    | ValueError(reason: string)  // constructed with a page length below 1
    | IndexError                  // a list indexed out of range
    | AttributeError              // `self.current` is still None: nothing was sent yet

  const LengthMessage: string := "Length cannot be less than 1"

  /** A setting given either once for every page or as a list with one value per page. */
  datatype Variant<T> = Fixed(value: T) | PerPage(values: seq<T>)

  /** The constructor's keyword arguments (the context object is left out). */
  datatype Options = Options(
    title: Variant<string>,
    colour: Variant<int>,
    length: int,
    authorRestrict: bool,
    timeout: int,
    prefix: string,
    suffix: string,
    initPage: int,
    reply: bool,
    linesep: string,
    message: string,
    thumbnail: Option<Variant<string>>)

  /** The keyword defaults of `Paginator.__init__`. */
  function DefaultOptions(): Options {
    Options(Fixed(""), Fixed(0), 1, true, 30, "", "", 1, true, "\n", "", None)
  }

  /** The handle of a sent message, as returned by the chat client. */
  type MessageId = nat

  /** The rendered page; `hasNav` says whether the navigation buttons go with it. */
  datatype Embed = Embed(
    title: string,
    colour: int,
    description: string,
    footer: Option<string>,
    thumbnail: Option<string>,
    hasNav: bool)

  /** Calls the paginator makes on the chat client. */
  datatype Effect =
    | Send(content: string, embed: Embed, asReply: bool)
    | Edit(message: MessageId, content: string, embed: Embed)
    | Remove(message: MessageId)
    | Defer  // the acknowledgement of a button click

  // ---------------------------------------------------------------------
  // Page count and page splitting

  lemma MulSucc(n: nat, c: nat)
    ensures (n + 1) * c == n * c + c
  {
  }

  /** `math.ceil(n / d)`: the least number of pages of `d` entries that hold `n` entries. */
  function CeilDiv(n: nat, d: nat): (q: nat)
    requires d >= 1
    ensures q * d >= n
    ensures q == 0 || (q - 1) * d < n
    decreases n
  {
    if n == 0 then 0
    else if n <= d then 1
    else
      var q := CeilDiv(n - d, d);
      MulSucc(q, d);
      q + 1
  }

  /** Each entry followed by the line separator, as `parse_pages` stores it. */
  function Suffixed(es: seq<string>, sep: string): seq<string> {
    seq(|es|, k requires 0 <= k < |es| => es[k] + sep)
  }

  /** The pages: consecutive runs of `length` entries, the last one holding the remainder. */
  function Paginate(es: seq<string>, length: nat, sep: string): (ps: seq<seq<string>>)
    requires length >= 1
    ensures ps == [] <==> es == []
    ensures forall k :: 0 <= k < |ps| ==> 1 <= |ps[k]| <= length
    decreases |es|
  {
    if es == [] then []
    else if |es| <= length then [Suffixed(es, sep)]
    else [Suffixed(es[..length], sep)] + Paginate(es[length..], length, sep)
  }

  /** All pages of `ps` one after another. */
  function Flatten<T>(ps: seq<seq<T>>): seq<T>
    decreases |ps|
  {
    if ps == [] then [] else ps[0] + Flatten(ps[1..])
  }

  /** `ps` followed by empty pages up to `n` pages in all. */
  function Padded(ps: seq<seq<string>>, n: nat): seq<seq<string>> {
    ps + seq(if |ps| <= n then n - |ps| else 0, _ => [])
  }

  /** `es` is a whole number of full pages. */
  ghost predicate Aligned(es: seq<string>, length: nat)
    requires length >= 1
    decreases |es|
  {
    es == [] || (|es| >= length && Aligned(es[length..], length))
  }

  lemma CeilDivStep(n: nat, d: nat)
    requires d >= 1 && n > d
    ensures CeilDiv(n, d) == 1 + CeilDiv(n - d, d)
  {
  }

  /** There are `ceil(|es| / length)` pages. */
  lemma {:induction false} PaginateCount(es: seq<string>, length: nat, sep: string)
    requires length >= 1
    ensures |Paginate(es, length, sep)| == CeilDiv(|es|, length)
    decreases |es|
  {
    if |es| > length {
      PaginateCount(es[length..], length, sep);
      CeilDivStep(|es|, length);
    }
  }

  /** The pages, put back together, are the entries in their original order, each with its separator. */
  lemma {:induction false} PaginateFlatten(es: seq<string>, length: nat, sep: string)
    requires length >= 1
    ensures Flatten(Paginate(es, length, sep)) == Suffixed(es, sep)
    decreases |es|
  {
    if es != [] && |es| > length {
      PaginateFlatten(es[length..], length, sep);
      assert Suffixed(es, sep) == Suffixed(es[..length], sep) + Suffixed(es[length..], sep);
    } else if es != [] {
      assert Flatten([Suffixed(es, sep)]) == Suffixed(es, sep) + Flatten([]);
    }
  }

  /** Every page but the last holds exactly `length` entries; the last holds between 1 and `length`. */
  lemma {:induction false} PaginateShape(es: seq<string>, length: nat, sep: string)
    requires length >= 1
    ensures var ps := Paginate(es, length, sep);
      (forall k :: 0 <= k < |ps| - 1 ==> |ps[k]| == length) &&
      (ps != [] ==> 1 <= |ps[|ps| - 1]| <= length)
    decreases |es|
  {
    if |es| > length {
      PaginateShape(es[length..], length, sep);
    }
  }

  /** Page `i` holds entries `i * length` up to `(i + 1) * length` (or to the end). */
  lemma {:induction false} PaginateAt(es: seq<string>, length: nat, sep: string, i: nat)
    requires length >= 1
    requires i < |Paginate(es, length, sep)|
    ensures i * length < |es|
    ensures Paginate(es, length, sep)[i] ==
      Suffixed(es[i * length .. if (i + 1) * length <= |es| then (i + 1) * length else |es|], sep)
    decreases i
  {
    if i > 0 {
      var rest := es[length..];
      assert Paginate(es, length, sep)[i] == Paginate(rest, length, sep)[i - 1];
      PaginateAt(rest, length, sep, i - 1);
      MulSucc(i - 1, length);
      MulSucc(i, length);
      var lo := (i - 1) * length;
      var hiRest := if i * length <= |rest| then i * length else |rest|;
      SliceOfSlice(es, length, lo, hiRest);
      var hi := if (i + 1) * length <= |es| then (i + 1) * length else |es|;
      assert length + lo == i * length && length + hiRest == hi;
      assert rest[lo..hiRest] == es[i * length..hi];
    } else if |es| > length {
      assert Paginate(es, length, sep)[0] == Suffixed(es[..length], sep);
    } else {
      assert Paginate(es, length, sep)[0] == Suffixed(es, sep);
      assert es[0..|es|] == es;
    }
  }

  /** Cutting after a whole number of full pages cuts the page list there too. */
  lemma {:induction false} PaginateAppend(a: seq<string>, b: seq<string>, length: nat, sep: string)
    requires length >= 1 && Aligned(a, length)
    ensures Paginate(a + b, length, sep) == Paginate(a, length, sep) + Paginate(b, length, sep)
    decreases |a|
  {
    if a != [] && b != [] {
      PaginateAppend(a[length..], b, length, sep);
      assert (a + b)[..length] == a[..length];
      assert (a + b)[length..] == a[length..] + b;
      if |a| == length {
        assert a[..length] == a;
        assert a[length..] == [];
      }
    } else if b == [] {
      assert a + b == a;
    } else {
      assert a + b == b;
    }
  }

  lemma {:induction false} AlignedAppend(a: seq<string>, b: seq<string>, length: nat)
    requires length >= 1 && Aligned(a, length) && |b| == length
    ensures Aligned(a + b, length)
    decreases |a|
  {
    if a == [] {
      assert a + b == b;
      assert b[length..] == [];
    } else {
      AlignedAppend(a[length..], b, length);
      assert (a + b)[length..] == a[length..] + b;
    }
  }

  /** While entries remain past a whole number of full pages, another page fits in the page count. */
  lemma NextPageFits(es: seq<string>, k: nat, length: nat, sep: string, total: nat)
    requires length >= 1 && k < |es| && Aligned(es[..k], length) && CeilDiv(|es|, length) <= total
    ensures |Paginate(es[..k], length, sep)| < total
  {
    assert es[..k] + es[k..] == es;
    PaginateAppend(es[..k], es[k..], length, sep);
    PaginateCount(es, length, sep);
  }

  /** Closing a page of 1 to `length` entries after whole pages adds exactly that page. */
  lemma PageClosed(es: seq<string>, k0: nat, k: nat, length: nat, sep: string)
    requires length >= 1 && k0 < k <= |es| && k - k0 <= length && Aligned(es[..k0], length)
    ensures Paginate(es[..k], length, sep) == Paginate(es[..k0], length, sep) + [Suffixed(es[k0..k], sep)]
    ensures k - k0 == length ==> Aligned(es[..k], length)
  {
    assert es[..k] == es[..k0] + es[k0..k];
    PaginateAppend(es[..k0], es[k0..k], length, sep);
    if k - k0 == length {
      AlignedAppend(es[..k0], es[k0..k], length);
    }
  }

  /** With one entry per page, page `k` is entry `k` alone. */
  lemma {:induction false} PaginateSingles(es: seq<string>, sep: string)
    ensures Paginate(es, 1, sep) == seq(|es|, k requires 0 <= k < |es| => [es[k] + sep])
    decreases |es|
  {
    if |es| > 1 {
      PaginateSingles(es[1..], sep);
      assert Suffixed(es[..1], sep) == [es[0] + sep];
    } else if |es| == 1 {
      assert Suffixed(es, sep) == [es[0] + sep];
    }
  }

  // ---------------------------------------------------------------------
  // Rendering

  /** The embed text of one page: `prefix + entry + suffix` for each entry, in order. */
  function Description(prefix: string, page: seq<string>, suffix: string): string
    decreases |page|
  {
    if page == [] then ""
    else Description(prefix, page[..|page| - 1], suffix) + prefix + page[|page| - 1] + suffix
  }

  /** The text of two runs of entries is the text of the first followed by that of the second. */
  lemma {:induction false} DescriptionAppend(prefix: string, a: seq<string>, b: seq<string>, suffix: string)
    ensures Description(prefix, a + b, suffix) == Description(prefix, a, suffix) + Description(prefix, b, suffix)
    decreases |b|
  {
    if b != [] {
      var b' := b[..|b| - 1];
      assert (a + b)[..|a + b| - 1] == a + b';
      DescriptionAppend(prefix, a, b', suffix);
    } else {
      assert a + b == a;
    }
  }

  /** Each entry contributes its own text plus the prefix and suffix around it. */
  lemma {:induction false} DescriptionLength(prefix: string, page: seq<string>, suffix: string)
    ensures |Description(prefix, page, suffix)| == |page| * (|prefix| + |suffix|) + |Flatten(page)|
    decreases |page|
  {
    if page != [] {
      var init, last := page[..|page| - 1], page[|page| - 1];
      var c := |prefix| + |suffix|;
      DescriptionLength(prefix, init, suffix);
      FlattenSnoc(init, last);
      assert init + [last] == page;
      MulSucc(|init|, c);
      assert |Description(prefix, page, suffix)| == |Description(prefix, init, suffix)| + c + |last|;
    }
  }

  lemma {:induction false} FlattenSnoc<T>(ps: seq<seq<T>>, p: seq<T>)
    ensures Flatten(ps + [p]) == Flatten(ps) + p
    decreases |ps|
  {
    if ps == [] {
      assert Flatten([p]) == p + Flatten<T>([]);
    } else {
      FlattenSnoc(ps[1..], p);
      assert (ps + [p])[1..] == ps[1..] + [p];
    }
  }

  /** The text of a page with a single entry. */
  lemma DescriptionSingle(prefix: string, entry: string, suffix: string)
    ensures Description(prefix, [entry], suffix) == prefix + entry + suffix
  {
    var page := [entry];
    assert page[..|page| - 1] == [];
    assert page[|page| - 1] == entry;
  }

  /** The selected value of a setting: the fixed one, or the list element at Python index `i`. */
  function Pick<T>(v: Variant<T>, i: int): (r: Option<T>)
    ensures v.Fixed? ==> r == Some(v.value)
    ensures v.PerPage? ==> (r.Some? <==> -|v.values| <= i < |v.values|)
    ensures v.PerPage? && 0 <= i < |v.values| ==> r == Some(v.values[i])
    ensures v.PerPage? && -|v.values| <= i < 0 ==> r == Some(v.values[|v.values| + i])
  {
    match v
    case Fixed(x) => Some(x)
    case PerPage(xs) => PyIdx(xs, i)
  }

  /** `if self.thumbnail:` is false for None, for "" and for []. */
  predicate Truthy(t: Option<Variant<string>>): (b: bool)
    ensures !b <==> t == None || t == Some(Fixed("")) || t == Some(PerPage([]))
  {
    match t
    case None => false
    case Some(Fixed(s)) => s != ""
    case Some(PerPage(xs)) => xs != []
  }

  /** The thumbnail set on the embed, if any, or the IndexError raised while choosing it. */
  function PickThumbnail(t: Option<Variant<string>>, i: int): (r: Result<Option<string>, Error>)
    ensures !Truthy(t) ==> r == Ok(None)
    ensures Truthy(t) ==> (r.Ok? <==> Pick(t.value, i).Some?)
    ensures Truthy(t) && r.Ok? ==> r.value == Some(Pick(t.value, i).value)
    ensures r.Err? ==> r.error == IndexError
  {
    if !Truthy(t) then Ok(None)
    else match Pick(t.value, i)
      case Some(url) => Ok(Some(url))
      case None => Err(IndexError)
  }

  /** The client calls of one button callback: the edit and then the acknowledgement, or nothing at all when it returned early or raised. */
  function CallbackEffects(m: Move, opts: Options, pages: seq<seq<string>>, total: nat, current: Option<MessageId>): seq<Effect> {
    match m
    case Stay => []
    case MoveTo(p) =>
      match UpdateEffect(opts, pages, p, total, current)
      case Ok(edit) => [edit, Defer]
      case Err(_) => []
  }

  /** What one button callback returns: nothing, or the exception its re-render raised. */
  function CallbackOutcome(m: Move, opts: Options, pages: seq<seq<string>>, total: nat, current: Option<MessageId>): Outcome<Error> {
    match m
    case Stay => Pass
    case MoveTo(p) =>
      match UpdateEffect(opts, pages, p, total, current)
      case Ok(_) => Pass
      case Err(e) => Fail(e)
  }

  /** The footer text `Page {page} of {total}`. */
  function Footer(page: int, total: int): string {
    "Page " + IntStr(page) + " of " + IntStr(total)
  }

  /** `start` shows the footer and buttons only with more than one page; `update` always does. */
  datatype Mode = Initial | Refresh

  /** The embed for page number `page` (1-based, indexed as Python does), or the IndexError. */
  function RenderPage(opts: Options, pages: seq<seq<string>>, page: int, total: nat, mode: Mode): (r: Result<Embed, Error>)
    ensures r.Err? ==> r.error == IndexError
    ensures r.Ok? ==> (PyIdx(pages, page - 1).Some? &&
                       r.value.description == Description(opts.prefix, PyIdx(pages, page - 1).value, opts.suffix))
    ensures r.Ok? ==> r.value.hasNav == (mode == Refresh || total > 1)
    ensures r.Ok? ==> ((r.value.footer.Some? <==> r.value.hasNav) &&
                       (r.value.footer.Some? ==> r.value.footer.value == Footer(page, total)))
  {
    var i := page - 1;
    var title := Pick(opts.title, i);
    var colour := Pick(opts.colour, i);
    var thumbnail := PickThumbnail(opts.thumbnail, i);
    var entries := PyIdx(pages, i);
    if title.None? || colour.None? || thumbnail.Err? || entries.None? then Err(IndexError)
    else
      var shown := mode == Refresh || total > 1;
      Ok(Embed(title.value, colour.value, Description(opts.prefix, entries.value, opts.suffix),
               if shown then Some(Footer(page, total)) else None, thumbnail.value, shown))
  }

  /** What `update` does on the client: edit the live message, or the exception it raises first. */
  function UpdateEffect(opts: Options, pages: seq<seq<string>>, page: int, total: nat, current: Option<MessageId>): Result<Effect, Error> {
    match RenderPage(opts, pages, page, total, Refresh)
    case Err(e) => Err(e)
    case Ok(embed) => if current.None? then Err(AttributeError) else Ok(Edit(current.value, opts.message, embed))
  }

  /** Text without spaces followed by " of " splits at the same point in two equal strings. */
  lemma SameSplitPoint(a: string, b: string, a': string, b': string)
    requires ' ' !in a && ' ' !in a' && a + " of " + b == a' + " of " + b'
    ensures |a| == |a'|
  {
    var s := a + " of " + b;
    assert s[|a|] == ' ';
    assert s[|a'|] == (a' + " of " + b')[|a'|] == ' ';
  }

  /** Two footer texts with space-free numbers are equal only when both numbers are. */
  lemma FooterParts(a: string, b: string, a': string, b': string)
    requires ' ' !in a && ' ' !in a'
    requires "Page " + a + " of " + b == "Page " + a' + " of " + b'
    ensures a == a' && b == b'
  {
    var s, s' := a + " of " + b, a' + " of " + b';
    assert s == ("Page " + a + " of " + b)[5..];
    assert s' == ("Page " + a' + " of " + b')[5..];
    SameSplitPoint(a, b, a', b');
    assert a == s[..|a|] && a' == s'[..|a'|];
    assert b == s[|a| + 4..] && b' == s'[|a'| + 4..];
  }

  /** The footer names exactly one page number and one page count. */
  lemma FooterIdentifiesPage(page: int, total: int, page': int, total': int)
    requires Footer(page, total) == Footer(page', total')
    ensures page == page' && total == total'
  {
    FooterParts(IntStr(page), IntStr(total), IntStr(page'), IntStr(total'));
    IntStrInjective(page, page');
    IntStrInjective(total, total');
  }

  /**
   * For any settings, a render succeeds exactly when title, colour,
   * thumbnail and page can all be picked at Python index `p - 1`, and then
   * shows the picked title, colour and thumbnail, and page `p - 1`'s entries
   * when `p` is a page number in range.
   */
  lemma RenderShowsItsPage(opts: Options, pages: seq<seq<string>>, p: int, total: nat, mode: Mode)
    ensures var r := RenderPage(opts, pages, p, total, mode);
      var i := p - 1;
      (r.Ok? <==> Pick(opts.title, i).Some? && Pick(opts.colour, i).Some? &&
                  PickThumbnail(opts.thumbnail, i).Ok? && PyIdx(pages, i).Some?) &&
      (r.Ok? ==> r.value.title == Pick(opts.title, i).value && r.value.colour == Pick(opts.colour, i).value &&
                 r.value.thumbnail == PickThumbnail(opts.thumbnail, i).value) &&
      (r.Ok? && 1 <= p <= |pages| ==> r.value.description == Description(opts.prefix, pages[i], opts.suffix))
  {
  }

  /** With title, colour and thumbnail each given once, a render fails only outside Python's index range of the page list. */
  lemma RenderFixedFailsOnlyOutside(opts: Options, pages: seq<seq<string>>, p: int, total: nat, mode: Mode)
    requires opts.title.Fixed? && opts.colour.Fixed? && !(opts.thumbnail.Some? && opts.thumbnail.value.PerPage?)
    ensures RenderPage(opts, pages, p, total, mode).Ok? <==> 1 - |pages| <= p <= |pages|
  {
    RenderShowsItsPage(opts, pages, p, total, mode);
  }

  /**
   * Page `i + 1` of split entries, when it renders, shows entries `i * length`
   * up to `(i + 1) * length` (or to the end), each as prefix, entry,
   * separator, suffix; with settings given once it always renders.
   */
  lemma RenderedEntries(opts: Options, es: seq<string>, i: nat, mode: Mode)
    requires opts.length >= 1 && i < CeilDiv(|es|, opts.length)
    ensures i * opts.length < |es|
    ensures var hi := if (i + 1) * opts.length <= |es| then (i + 1) * opts.length else |es|;
      var r := RenderPage(opts, Paginate(es, opts.length, opts.linesep), i + 1, CeilDiv(|es|, opts.length), mode);
      (r.Ok? ==> r.value.description == Description(opts.prefix, Suffixed(es[i * opts.length..hi], opts.linesep), opts.suffix)) &&
      (opts.title.Fixed? && opts.colour.Fixed? && !(opts.thumbnail.Some? && opts.thumbnail.value.PerPage?) ==> r.Ok?)
  {
    var ps := Paginate(es, opts.length, opts.linesep);
    PaginateCount(es, opts.length, opts.linesep);
    PaginateAt(es, opts.length, opts.linesep, i);
    RenderShowsItsPage(opts, ps, i + 1, CeilDiv(|es|, opts.length), mode);
  }

  // ---------------------------------------------------------------------
  // Navigation

  /** The four page-changing buttons. */
  datatype Action = First | Previous | Next | Last

  /** A callback either returns before doing anything, or moves to a page and re-renders. */
  datatype Move = Stay | MoveTo(page: int)

  function Land(m: Move, current: int): int {
    if m.Stay? then current else m.page
  }

  /** The guard and the assignment of each callback in `nav`. */
  function Step(a: Action, current: int, pageCount: nat, total: nat): (m: Move)
    ensures current >= 0 ==> Land(m, current) >= 0
    ensures a == Previous ==> (m.Stay? <==> current < 1)
    ensures a == Next ==> (m.Stay? <==> current >= pageCount)
    ensures a == Next && current >= 0 ==> Land(m, current) <= pageCount || m.Stay?
  {
    match a
    case First => MoveTo(1)
    case Previous => if current - 1 < 0 then Stay else MoveTo(current - 1)
    case Next => if current + 1 > pageCount then Stay else MoveTo(current + 1)
    case Last => MoveTo(total)
  }

  /** The current page after clicking `actions` in order (a failing re-render does not undo a move). */
  function Run(actions: seq<Action>, current: int, pageCount: nat, total: nat): (p: int)
    ensures current >= 0 ==> p >= 0
    decreases |actions|
  {
    if actions == [] then current
    else Run(actions[1..], Land(Step(actions[0], current, pageCount, total), current), pageCount, total)
  }

  function Repeat(a: Action, k: nat): seq<Action> {
    seq(k, _ => a)
  }

  /**
   * While the page count equals the number of pages and is at least one, every
   * page number reached is between 0 and that count, so the page list is always
   * indexable (0 reads the last page through Python index -1).
   */
  lemma {:induction false} RunInRange(actions: seq<Action>, current: int, pages: seq<seq<string>>)
    requires 1 <= |pages| && 0 <= current <= |pages|
    ensures var p := Run(actions, current, |pages|, |pages|);
      0 <= p <= |pages| && PyIdx(pages, p - 1).Some?
    decreases |actions|
  {
    if actions != [] {
      RunInRange(actions[1..], Land(Step(actions[0], current, |pages|, |pages|), current), pages);
    }
  }

  /** Repeated `previous` goes down one page per click and stops at 0, never at 1. */
  lemma {:induction false} PreviousSinks(current: int, pageCount: nat, total: nat, k: nat)
    requires current >= 0
    ensures Run(Repeat(Previous, k), current, pageCount, total) == if k <= current then current - k else 0
    decreases k
  {
    if k > 0 {
      assert Repeat(Previous, k)[1..] == Repeat(Previous, k - 1);
      PreviousSinks(Land(Step(Previous, current, pageCount, total), current), pageCount, total, k - 1);
    }
  }

  /** Repeated `next` goes up one page per click and stops at the number of pages. */
  lemma {:induction false} NextClimbs(current: int, pageCount: nat, total: nat, k: nat)
    requires current <= pageCount
    ensures Run(Repeat(Next, k), current, pageCount, total) ==
      if current + k <= pageCount then current + k else pageCount
    decreases k
  {
    if k > 0 {
      assert Repeat(Next, k)[1..] == Repeat(Next, k - 1);
      NextClimbs(Land(Step(Next, current, pageCount, total), current), pageCount, total, k - 1);
    }
  }

  /** From the last page, or once the pages were cleared, `next` never moves. */
  lemma {:induction false} NextAtEndStays(current: int, pageCount: nat, total: nat, k: nat)
    requires current >= pageCount
    ensures Run(Repeat(Next, k), current, pageCount, total) == current
    decreases k
  {
    if k > 0 {
      assert Repeat(Next, k)[1..] == Repeat(Next, k - 1);
      NextAtEndStays(current, pageCount, total, k - 1);
    }
  }

  /**
   * `previous` on page 1 moves to page 0, which renders the last page (Python
   * index -1) under the footer "Page 0 of N", with the last title and colour
   * of per-page lists; with settings given once the render always succeeds.
   */
  lemma PreviousFromFirstShowsLast(opts: Options, pages: seq<seq<string>>, total: nat)
    requires pages != []
    ensures Step(Previous, 1, |pages|, total) == MoveTo(0)
    ensures var r := RenderPage(opts, pages, 0, total, Refresh);
      (r.Ok? ==> r.value.description == Description(opts.prefix, pages[|pages| - 1], opts.suffix) &&
                 r.value.footer == Some(Footer(0, total))) &&
      (opts.title.PerPage? && opts.title.values != [] && r.Ok? ==>
         r.value.title == opts.title.values[|opts.title.values| - 1]) &&
      (opts.colour.PerPage? && opts.colour.values != [] && r.Ok? ==>
         r.value.colour == opts.colour.values[|opts.colour.values| - 1]) &&
      (opts.title.Fixed? && opts.colour.Fixed? && !(opts.thumbnail.Some? && opts.thumbnail.value.PerPage?) ==> r.Ok?)
  {
  }
}
