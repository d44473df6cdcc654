/**
 * The pieces of Python's string and list semantics that the bot relies on:
 * negative indexing, `startswith`/`endswith`, `s[:-k]`, `split`/`join` on a
 * one-character separator, and `str()` of an integer.
 */
module PyText {
  import opened Wrappers

  predicate StartsWith(s: string, p: string) {
    |p| <= |s| && s[..|p|] == p
  }

  predicate EndsWith(s: string, p: string) {
    |p| <= |s| && s[|s| - |p|..] == p
  }

  lemma EndsWithAppended(s: string, p: string)
    ensures EndsWith(s + p, p)
  {
    assert (s + p)[|s + p| - |p|..] == p;
  }

  /** Python's `s[i]`: a negative index counts from the end; `None` stands for an IndexError. */
  function PyIdx<T>(s: seq<T>, i: int): Option<T> {
    if 0 <= i < |s| then Some(s[i])
    else if -|s| <= i < 0 then Some(s[|s| + i])
    else None
  }

  /** A slice of a suffix is a slice of the whole sequence, shifted. */
  lemma SliceOfSlice<T>(s: seq<T>, a: nat, lo: nat, hi: nat)
    requires a <= |s| && lo <= hi <= |s| - a
    ensures s[a..][lo..hi] == s[a + lo..a + hi]
  {
    forall t | 0 <= t < hi - lo
      ensures s[a..][lo..hi][t] == s[a + lo..a + hi][t]
    {
    }
  }

  /** Python's `s[:-k]` for `k >= 1`: too short a sequence slices to empty. */
  function DropLast<T>(s: seq<T>, k: nat): seq<T> {
    if |s| >= k then s[..|s| - k] else []
  }

  /** Position of the first `c` in `s`. */
  function IndexOf(s: string, c: char): (i: nat)
    requires c in s
    ensures i < |s| && s[i] == c && c !in s[..i]
  {
    if s[0] == c then 0
    else
      var j := IndexOf(s[1..], c);
      assert s[..j + 1] == [s[0]] + s[1..][..j];
      j + 1
  }

  /** Python's `s.split(c)` for a one-character separator. */
  function Split(s: string, c: char): (parts: seq<string>)
    ensures |parts| >= 1
    decreases |s|
  {
    if c !in s then [s]
    else
      var i := IndexOf(s, c);
      [s[..i]] + Split(s[i + 1..], c)
  }

  /** Python's `sep.join(parts)`. */
  function Join(sep: string, parts: seq<string>): string
    decreases |parts|
  {
    if |parts| == 0 then ""
    else if |parts| == 1 then parts[0]
    else parts[0] + sep + Join(sep, parts[1..])
  }

  /** Everything after the first `c` of `s`, or `""` when `s` has none. */
  function AfterFirst(s: string, c: char): string {
    if c in s then s[IndexOf(s, c) + 1..] else ""
  }

  /** Joining the pieces of a split with the same separator gives the string back. */
  lemma {:induction false} JoinSplit(s: string, c: char)
    ensures Join([c], Split(s, c)) == s
    decreases |s|
  {
    if c in s {
      var i := IndexOf(s, c);
      var rest := Split(s[i + 1..], c);
      JoinSplit(s[i + 1..], c);
      assert Split(s, c) == [s[..i]] + rest;
      assert ([s[..i]] + rest)[1..] == rest;
      forall t | 0 <= t < |s|
        ensures (s[..i] + [c] + s[i + 1..])[t] == s[t]
      {
      }
      assert s == s[..i] + [c] + s[i + 1..];
    }
  }

  /** Dropping the first piece of a split and joining the rest keeps what follows the first separator. */
  lemma JoinSplitTail(s: string, c: char)
    ensures Join([c], Split(s, c)[1..]) == AfterFirst(s, c)
  {
    if c in s {
      var i := IndexOf(s, c);
      JoinSplit(s[i + 1..], c);
      assert Split(s, c)[1..] == Split(s[i + 1..], c);
    }
  }

  // ---------------------------------------------------------------------
  // str() of an integer, and reading it back

  function DigitChar(d: nat): (ch: char)
    requires d < 10
    ensures '0' <= ch <= '9'
  {
    ('0' as int + d) as char
  }

  function DigitValue(ch: char): nat {
    if '0' <= ch <= '9' then ch as int - '0' as int else 0
  }

  predicate IsDigits(s: string) {
    forall k :: 0 <= k < |s| ==> '0' <= s[k] <= '9'
  }

  /** Python's `str(n)` for `n >= 0`: decimal digits, no leading zero. */
  function NatStr(n: nat): (s: string)
    ensures |s| >= 1 && IsDigits(s)
    decreases n
  {
    if n < 10 then [DigitChar(n)] else NatStr(n / 10) + [DigitChar(n % 10)]
  }

  /** Python's `str(i)` (and an f-string field) for any integer. */
  function IntStr(i: int): (s: string)
    ensures |s| >= 1 && ' ' !in s
  {
    if i < 0 then "-" + NatStr(-i) else NatStr(i)
  }

  function ParseNat(s: string): nat
    decreases |s|
  {
    if s == [] then 0 else ParseNat(s[..|s| - 1]) * 10 + DigitValue(s[|s| - 1])
  }

  function ParseInt(s: string): int {
    if |s| > 0 && s[0] == '-' then -(ParseNat(s[1..]) as int) else ParseNat(s)
  }

  lemma {:induction false} NatStrRoundTrip(n: nat)
    ensures ParseNat(NatStr(n)) == n
    decreases n
  {
    if n >= 10 {
      var s := NatStr(n);
      NatStrRoundTrip(n / 10);
      assert s[..|s| - 1] == NatStr(n / 10);
    }
  }

  /** The decimal text of an integer reads back as that integer. */
  lemma IntStrRoundTrip(i: int)
    ensures ParseInt(IntStr(i)) == i
  {
    if i < 0 {
      NatStrRoundTrip(-i);
      assert IntStr(i)[1..] == NatStr(-i);
    } else {
      NatStrRoundTrip(i);
    }
  }

  /** Two integers with the same decimal text are equal. */
  lemma IntStrInjective(i: int, j: int)
    requires IntStr(i) == IntStr(j)
    ensures i == j
  {
    IntStrRoundTrip(i);
    IntStrRoundTrip(j);
  }
}
