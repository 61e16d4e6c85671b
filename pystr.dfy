/**
 * The Python `str` operations the back end relies on, over ASCII: the
 * whitespace that `str.split()` and the regular-expression class `\s` know,
 * `str.lower()`, `string.punctuation`, the digit class `\d`, and
 * `str.split()` / `' '.join(...)`.
 */
module PyStr {
  import opened Strings

  /** ASCII whitespace as `str.isspace` sees it (space, \t \n \v \f \r, and \x1c to \x1f). */
  predicate IsSpace(c: char)
  {
    c == ' ' || ('\t' <= c <= '\r') || ('\U{1C}' <= c <= '\U{1F}')
  }

  predicate IsUpper(c: char)
  {
    'A' <= c <= 'Z'
  }

  predicate IsDigit(c: char)
  {
    '0' <= c <= '9'
  }

  /** The 32 characters of `string.punctuation`: !"#$%&'()*+,-./:;<=>?@[\]^_`{|}~ */
  predicate IsPunctuation(c: char)
  {
    ('!' <= c <= '/') || (':' <= c <= '@') || ('[' <= c <= '`') || ('{' <= c <= '~')
  }

  /** `str.lower()` on one ASCII character. */
  function ToLower(c: char): (d: char)
    ensures !IsUpper(d)
    ensures IsUpper(c) ==> d as int == c as int + 32
    ensures !IsUpper(c) ==> d == c
  {
    if IsUpper(c) then (c as int + 32) as char else c
  }

  /** `str.lower()`: every upper-case letter replaced by its lower-case form, all else kept. */
  function Lower(s: string): (r: string)
    ensures |r| == |s|
    ensures forall i :: 0 <= i < |s| ==> r[i] == ToLower(s[i])
  {
    if s == [] then [] else [ToLower(s[0])] + Lower(s[1..])
  }

  /** A piece that `str.split()` can return: non-empty, without whitespace. */
  predicate IsToken(w: string)
  {
    w != [] && NoneOf(w, IsSpace)
  }

  /** Index of the first whitespace character of `s`, or `|s|`. */
  function TokenEnd(s: string): (k: nat)
    ensures k <= |s|
    ensures forall i :: 0 <= i < k ==> !IsSpace(s[i])
    ensures k < |s| ==> IsSpace(s[k])
  {
    if s == [] || IsSpace(s[0]) then 0 else 1 + TokenEnd(s[1..])
  }

  /** `str.split()` with no argument: the maximal runs of non-whitespace, in order. */
  function Split(s: string): (r: seq<string>)
    ensures forall i :: 0 <= i < |r| ==> IsToken(r[i])
    ensures forall i, c :: 0 <= i < |r| && c in r[i] ==> c in s
    decreases |s|
  {
    if s == [] then []
    else if IsSpace(s[0]) then
      assert forall c :: c in s[1..] ==> c in s;
      Split(s[1..])
    else
      var k := TokenEnd(s);
      assert forall c :: c in s[..k] || c in s[k..] ==> c in s;
      var r := [s[..k]] + Split(s[k..]);
      assert forall i :: 1 <= i < |r| ==> r[i] == Split(s[k..])[i - 1];
      r
  }

  /** The whitespace-free prefix of `w + t` is `w` when `t` starts with whitespace or is empty. */
  lemma {:induction false} TokenEndAppend(w: string, t: string)
    requires NoneOf(w, IsSpace)
    requires t == [] || IsSpace(t[0])
    ensures TokenEnd(w + t) == |w|
  {
    if w != [] {
      assert (w + t)[1..] == w[1..] + t;
      TokenEndAppend(w[1..], t);
    } else {
      assert w + t == t;
    }
  }

  /** `' '.join(ws).split() == ws` for whitespace-free, non-empty pieces. */
  lemma {:induction false} SplitJoinSpace(ws: seq<string>)
    requires forall i :: 0 <= i < |ws| ==> IsToken(ws[i])
    ensures Split(JoinWith(ws, " ")) == ws
  {
    if |ws| == 1 {
      TokenEndAppend(ws[0], "");
      assert ws[0] + "" == ws[0];
      assert ws[0][|ws[0]|..] == [];
    } else if |ws| > 1 {
      var rest := JoinWith(ws[1..], " ");
      var s := ws[0] + " " + rest;
      assert s == ws[0] + (" " + rest);
      TokenEndAppend(ws[0], " " + rest);
      assert s[..|ws[0]|] == ws[0];
      assert s[|ws[0]|..] == " " + rest;
      assert (" " + rest)[1..] == rest;
      SplitJoinSpace(ws[1..]);
    }
  }

  /**
   * Whitespace collapsed to single spaces: every whitespace character is a
   * space with a non-whitespace character on each side.
   */
  predicate SingleSpaced(s: string)
  {
    forall i :: 0 <= i < |s| && IsSpace(s[i]) ==>
      s[i] == ' ' && 0 < i < |s| - 1 && !IsSpace(s[i - 1]) && !IsSpace(s[i + 1])
  }

  lemma {:induction false} JoinSpaceSingleSpaced(ws: seq<string>)
    requires forall i :: 0 <= i < |ws| ==> IsToken(ws[i])
    ensures SingleSpaced(JoinWith(ws, " "))
  {
    if |ws| > 1 {
      var rest := JoinWith(ws[1..], " ");
      JoinSpaceSingleSpaced(ws[1..]);
      JoinTokensBorders(ws[1..]);
      var s := ws[0] + " " + rest;
      var n := |ws[0]|;
      assert forall k :: 0 <= k < n ==> s[k] == ws[0][k];
      forall i | 0 <= i < |s| && IsSpace(s[i])
        ensures s[i] == ' ' && 0 < i < |s| - 1 && !IsSpace(s[i - 1]) && !IsSpace(s[i + 1])
      {
        if i > n {
          assert s[i] == rest[i - n - 1];
          if i > n + 1 {
            assert s[i - 1] == rest[i - n - 2];
          }
          assert s[i + 1] == rest[i - n];
        }
      }
    }
  }

  /** A join of tokens starts and ends with a non-whitespace character. */
  lemma {:induction false} JoinTokensBorders(ws: seq<string>)
    requires forall i :: 0 <= i < |ws| ==> IsToken(ws[i])
    ensures ws != [] ==> JoinWith(ws, " ") != []
    ensures ws != [] ==> !IsSpace(JoinWith(ws, " ")[0]) && !IsSpace(JoinWith(ws, " ")[|JoinWith(ws, " ")| - 1])
  {
    if |ws| > 1 {
      JoinTokensBorders(ws[1..]);
      var rest := JoinWith(ws[1..], " ");
      var s := ws[0] + " " + rest;
      assert s[0] == ws[0][0];
      assert s[|s| - 1] == rest[|rest| - 1];
    }
  }

  /** Lower-casing keeps every character's whitespace class. */
  lemma LowerKeepsSpaces(s: string)
    ensures forall i :: 0 <= i < |s| ==> (IsSpace(Lower(s)[i]) <==> IsSpace(s[i]))
  {
  }

  /** A string without whitespace splits into itself. */
  lemma SplitSingle(s: string)
    requires IsToken(s)
    ensures Split(s) == [s]
  {
    TokenEndAppend(s, "");
    assert s + "" == s;
  }

  /** Leading whitespace, however much, is skipped. */
  lemma {:induction false} SplitSkipsSpace(p: string, s: string)
    requires All(p, IsSpace)
    ensures Split(p + s) == Split(s)
  {
    if p == [] {
      assert p + s == s;
    } else {
      assert (p + s)[0] == p[0];
      assert (p + s)[1..] == p[1..] + s;
      SplitSkipsSpace(p[1..], s);
    }
  }

  /** A token followed by a whitespace character is the first piece; the rest is split on. */
  lemma SplitToken(w: string, c: char, s: string)
    requires IsToken(w) && IsSpace(c)
    ensures Split(w + [c] + s) == [w] + Split(s)
  {
    var t := w + [c] + s;
    assert t == w + ([c] + s);
    TokenEndAppend(w, [c] + s);
    assert t[0] == w[0];
    assert t[..|w|] == w;
    assert t[|w|..] == [c] + s;
    assert ([c] + s)[1..] == s;
  }

  /** Two tokens with any non-empty run of whitespace between them split into those two. */
  lemma SplitGap(w1: string, gap: string, w2: string)
    requires IsToken(w1) && IsToken(w2)
    requires gap != [] && All(gap, IsSpace)
    ensures Split(w1 + gap + w2) == [w1, w2]
  {
    assert w1 + gap + w2 == w1 + [gap[0]] + (gap[1..] + w2);
    SplitToken(w1, gap[0], gap[1..] + w2);
    SplitSkipsSpace(gap[1..], w2);
    SplitSingle(w2);
  }

  /** Text made only of whitespace has no pieces. */
  lemma SplitBlank(p: string)
    requires All(p, IsSpace)
    ensures Split(p) == []
  {
    SplitSkipsSpace(p, "");
    assert p + "" == p;
  }
}
