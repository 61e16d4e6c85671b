/**
 * String operations shared by the Python back end and the TypeScript front end:
 * stripping characters of a class from both ends, splitting on a separator
 * character, and writing a natural number in decimal.
 */
module Strings {

  /** Every character of `s` is in the class `p`. */
  predicate All(s: string, p: char -> bool)
  {
    forall i :: 0 <= i < |s| ==> p(s[i])
  }

  /** No character of `s` is in the class `p`. */
  predicate NoneOf(s: string, p: char -> bool)
  {
    forall i :: 0 <= i < |s| ==> !p(s[i])
  }

  /** Number of leading characters of `w` that are in `drop`. */
  function LeadingCount(w: string, drop: char -> bool): (k: nat)
    ensures k <= |w|
    ensures forall i :: 0 <= i < k ==> drop(w[i])
    ensures k < |w| ==> !drop(w[k])
  {
    if w == [] || !drop(w[0]) then 0 else 1 + LeadingCount(w[1..], drop)
  }

  /** Number of trailing characters of `w` that are in `drop`. */
  function TrailingCount(w: string, drop: char -> bool): (k: nat)
    ensures k <= |w|
    ensures forall i :: |w| - k <= i < |w| ==> drop(w[i])
    ensures k < |w| ==> !drop(w[|w| - 1 - k])
  {
    if w == [] || !drop(w[|w| - 1]) then 0 else 1 + TrailingCount(w[..|w| - 1], drop)
  }

  /**
   * The slice `w[i..j]` that stripping keeps: first the leading run of
   * `drop` characters goes, then the trailing run of what is left.
   */
  function StripBounds(w: string, drop: char -> bool): (b: (nat, nat))
    ensures b.0 <= b.1 <= |w|
    ensures forall k :: 0 <= k < b.0 ==> drop(w[k])
    ensures forall k :: b.1 <= k < |w| ==> drop(w[k])
    ensures b.0 < b.1 ==> !drop(w[b.0]) && !drop(w[b.1 - 1])
  {
    var i := LeadingCount(w, drop);
    var rest := w[i..];
    var t := TrailingCount(rest, drop);
    assert forall k :: i + |rest| - t <= k < |w| ==> w[k] == rest[k - i];
    (i, i + |rest| - t)
  }

  /**
   * `w` without its leading and trailing characters of class `drop`
   * (Python's `str.strip(chars)`, JavaScript's `String.prototype.trim`).
   */
  function StripBy(w: string, drop: char -> bool): (r: string)
    ensures |r| <= |w|
    ensures r == [] || (!drop(r[0]) && !drop(r[|r| - 1]))
    ensures r == [] <==> All(w, drop)
    ensures forall c :: c in r ==> c in w
  {
    var b := StripBounds(w, drop);
    w[b.0..b.1]
  }

  /** Stripping a string that is already stripped changes nothing. */
  lemma StripKeepsStripped(w: string, drop: char -> bool)
    requires w != [] && !drop(w[0]) && !drop(w[|w| - 1])
    ensures StripBy(w, drop) == w
  {
    var rest := w[LeadingCount(w, drop)..];
    assert rest == w;
    assert TrailingCount(rest, drop) == 0;
  }

  /** Stripping removes any padding of `drop` characters around a stripped core. */
  lemma {:induction false} StripRemovesPadding(pre: string, w: string, post: string, drop: char -> bool)
    requires All(pre, drop) && All(post, drop)
    requires w != [] && !drop(w[0]) && !drop(w[|w| - 1])
    ensures StripBy(pre + w + post, drop) == w
  {
    var s := pre + w + post;
    LeadingOfPadded(pre, w + post, drop);
    assert s == pre + (w + post);
    assert LeadingCount(s, drop) == |pre|;
    var rest := s[|pre|..];
    assert rest == w + post;
    TrailingOfPadded(w, post, drop);
    assert s[|pre|..|pre| + |w|] == w;
  }

  lemma {:induction false} LeadingOfPadded(pre: string, t: string, drop: char -> bool)
    requires All(pre, drop) && t != [] && !drop(t[0])
    ensures LeadingCount(pre + t, drop) == |pre|
  {
    if pre != [] {
      assert (pre + t)[1..] == pre[1..] + t;
      LeadingOfPadded(pre[1..], t, drop);
    } else {
      assert pre + t == t;
    }
  }

  lemma {:induction false} TrailingOfPadded(w: string, post: string, drop: char -> bool)
    requires All(post, drop) && w != [] && !drop(w[|w| - 1])
    ensures TrailingCount(w + post, drop) == |post|
  {
    if post != [] {
      var s := w + post;
      assert s[..|s| - 1] == w + post[..|post| - 1];
      TrailingOfPadded(w, post[..|post| - 1], drop);
    } else {
      assert w + post == w;
    }
  }

  /** Index of the first `sep` in `s`, or `|s|` when there is none. */
  function IndexOfChar(s: string, sep: char): (k: nat)
    ensures k <= |s|
    ensures forall i :: 0 <= i < k ==> s[i] != sep
    ensures k < |s| ==> s[k] == sep
  {
    if s == [] || s[0] == sep then 0 else 1 + IndexOfChar(s[1..], sep)
  }

  /**
   * JavaScript's `s.split(sep)` for a one-character separator: the pieces
   * between separators, so the empty string gives one empty piece.
   */
  function SplitOn(s: string, sep: char): (r: seq<string>)
    ensures |r| >= 1
    ensures forall i :: 0 <= i < |r| ==> sep !in r[i]
    decreases |s|
  {
    var k := IndexOfChar(s, sep);
    if k == |s| then [s] else [s[..k]] + SplitOn(s[k + 1..], sep)
  }

  /** `pieces` joined with `sep` between consecutive pieces. */
  function JoinWith(pieces: seq<string>, sep: string): string
  {
    if pieces == [] then ""
    else if |pieces| == 1 then pieces[0]
    else pieces[0] + sep + JoinWith(pieces[1..], sep)
  }

  /** Splitting undoes joining: the pieces come back, in order. */
  lemma {:induction false} SplitOnJoin(s: string, sep: char)
    ensures JoinWith(SplitOn(s, sep), [sep]) == s
    decreases |s|
  {
    var k := IndexOfChar(s, sep);
    if k < |s| {
      var rest := SplitOn(s[k + 1..], sep);
      SplitOnJoin(s[k + 1..], sep);
      var pieces := [s[..k]] + rest;
      assert SplitOn(s, sep) == pieces;
      assert pieces[1..] == rest;
      assert JoinWith(pieces, [sep]) == s[..k] + [sep] + JoinWith(rest, [sep]);
      assert s == s[..k] + [sep] + s[k + 1..];
    }
  }

  /** Joining undoes splitting: separator-free pieces come back, in order. */
  lemma {:induction false} JoinThenSplitOn(pieces: seq<string>, sep: char)
    requires |pieces| >= 1
    requires forall i :: 0 <= i < |pieces| ==> sep !in pieces[i]
    ensures SplitOn(JoinWith(pieces, [sep]), sep) == pieces
  {
    if |pieces| == 1 {
      SplitOnNone(pieces[0], sep);
    } else {
      JoinThenSplitOn(pieces[1..], sep);
      SplitOnFirst(pieces[0], JoinWith(pieces[1..], [sep]), sep);
      assert [pieces[0]] + pieces[1..] == pieces;
    }
  }

  /** Splitting at a separator that follows a separator-free prefix. */
  lemma SplitOnFirst(a: string, b: string, sep: char)
    requires sep !in a
    ensures SplitOn(a + [sep] + b, sep) == [a] + SplitOn(b, sep)
  {
    var s := a + [sep] + b;
    assert s[|a|] == sep;
    assert forall i :: 0 <= i < |a| ==> s[i] == a[i];
    var k := IndexOfChar(s, sep);
    assert k == |a|;
    assert s[..k] == a && s[k + 1..] == b;
  }

  /** A string without a separator is one piece. */
  lemma SplitOnNone(a: string, sep: char)
    requires sep !in a
    ensures SplitOn(a, sep) == [a]
  {
    var k := IndexOfChar(a, sep);
  }

  function DigitChar(d: nat): (c: char)
    requires d < 10
    ensures '0' <= c <= '9'
  {
    (48 + d) as char
  }

  /** The decimal numeral of `n`, as Python's `str` writes an `int`. */
  function NatToString(n: nat): (r: string)
    ensures r != []
    ensures forall i :: 0 <= i < |r| ==> '0' <= r[i] <= '9'
  {
    if n < 10 then [DigitChar(n)] else NatToString(n / 10) + [DigitChar(n % 10)]
  }

  /** The value of a decimal numeral. */
  function DecimalValue(s: string): nat
    requires forall i :: 0 <= i < |s| ==> '0' <= s[i] <= '9'
  {
    if s == [] then 0 else 10 * DecimalValue(s[..|s| - 1]) + (s[|s| - 1] as int - 48)
  }

  /** Reading the numeral back gives the number that was written. */
  lemma {:induction false} NatToStringRoundTrip(n: nat)
    ensures DecimalValue(NatToString(n)) == n
  {
    if n >= 10 {
      NatToStringRoundTrip(n / 10);
      var s := NatToString(n);
      assert s[..|s| - 1] == NatToString(n / 10);
    }
  }
}
