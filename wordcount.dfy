/**
 * `clean_and_count_words` of the Flask back end (app.py:28-64): normalise
 * the page text, delete URL-like runs and digits, split into words, strip
 * punctuation from the ends of each word, drop empty words and stop words,
 * then count (`collections.Counter`), keep the most common entries and
 * compute the statistics.
 */
module WordCount {
  import opened Options
  import opened Strings
  import opened PyStr

  type Entry = (string, nat)

  // ---------------------------------------------------------------------
  // Cleaning the text (app.py:34-46)
  // ---------------------------------------------------------------------

  function LowerAll(ws: seq<string>): (r: seq<string>)
    ensures |r| == |ws| && forall i :: 0 <= i < |ws| ==> r[i] == Lower(ws[i])
  {
    seq(|ws|, i requires 0 <= i < |ws| => Lower(ws[i]))
  }

  /** `' '.join(text.split()).lower()` (app.py:34). */
  function Normalise(text: string): (r: string)
    ensures SingleSpaced(r)
    ensures NoneOf(r, IsUpper)
  {
    var j := JoinWith(Split(text), " ");
    JoinSpaceSingleSpaced(Split(text));
    LowerKeepsSpaces(j);
    Lower(j)
  }

  lemma {:induction false} LowerJoin(ws: seq<string>)
    ensures Lower(JoinWith(ws, " ")) == JoinWith(LowerAll(ws), " ")
  {
    if |ws| > 1 {
      LowerJoin(ws[1..]);
      assert LowerAll(ws)[1..] == LowerAll(ws[1..]);
      LowerAppend(ws[0] + " ", JoinWith(ws[1..], " "));
      LowerAppend(ws[0], " ");
    }
  }

  lemma LowerAppend(a: string, b: string)
    ensures Lower(a + b) == Lower(a) + Lower(b)
  {
  }

  /** The words of the normalised text are the words of the input, lower-cased, in order. */
  lemma NormalisedWords(text: string)
    ensures Split(Normalise(text)) == LowerAll(Split(text))
  {
    var ws := Split(text);
    LowerJoin(ws);
    forall i | 0 <= i < |ws| ensures IsToken(LowerAll(ws)[i]) {
      LowerKeepsSpaces(ws[i]);
    }
    SplitJoinSpace(LowerAll(ws));
  }

  /** Where `http\S+` or `www\S+` matches at the start of `s`. */
  predicate UrlAt(s: string)
  {
    || (|s| > 4 && s[0] == 'h' && s[1] == 't' && s[2] == 't' && s[3] == 'p' && !IsSpace(s[4]))
    || (|s| > 3 && s[0] == 'w' && s[1] == 'w' && s[2] == 'w' && !IsSpace(s[3]))
  }

  /** No position of `s` starts a match of `http\S+|www\S+`. */
  predicate NoUrl(s: string)
  {
    forall i :: 0 <= i < |s| ==> !UrlAt(s[i..])
  }

  /**
   * `re.sub(r'http\S+|www\S+', '', s)` (app.py:37). The scan goes left to
   * right; a match runs greedily to the next whitespace character, and
   * otherwise one character is kept and the scan moves on.
   */
  function StripUrls(s: string): (r: string)
    ensures |r| <= |s|
    ensures forall c :: c in r ==> c in s
    decreases |s|
  {
    if s == [] then []
    else if UrlAt(s) then
      assert s[0] == 'h' || s[0] == 'w';
      var e := TokenEnd(s);
      assert forall c :: c in s[e..] ==> c in s;
      StripUrls(s[e..])
    else
      assert forall c :: c in s[1..] ==> c in s;
      [s[0]] + StripUrls(s[1..])
  }

  /** Text starting with whitespace keeps that character in front. */
  lemma StripUrlsSpaceFirst(t: string)
    requires t != [] && IsSpace(t[0])
    ensures StripUrls(t) != [] && StripUrls(t)[0] == t[0]
  {
  }

  /** A whitespace-free prefix of the result is also a prefix of the input. */
  lemma {:induction false} StripUrlsPrefix(t: string, k: nat)
    requires k <= |StripUrls(t)|
    requires forall i :: 0 <= i < k ==> !IsSpace(StripUrls(t)[i])
    ensures k <= |t| && t[..k] == StripUrls(t)[..k]
    decreases |t|
  {
    var r := StripUrls(t);
    if t == [] {
    } else if UrlAt(t) {
      var e := TokenEnd(t);
      assert r == StripUrls(t[e..]);
      assert k == 0 by {
        if e < |t| {
          StripUrlsSpaceFirst(t[e..]);
        }
      }
    } else if k > 0 {
      assert r == [t[0]] + StripUrls(t[1..]);
      assert forall i :: 0 <= i < k - 1 ==> StripUrls(t[1..])[i] == r[i + 1];
      StripUrlsPrefix(t[1..], k - 1);
      assert t[..k] == [t[0]] + t[1..][..k - 1];
    }
  }

  /** A match in front of a kept character was already a match before the removal. */
  lemma UrlAtCons(c: char, t: string)
    requires UrlAt([c] + StripUrls(t))
    ensures UrlAt([c] + t)
  {
    var r := StripUrls(t);
    var u := [c] + r;
    var n := if |u| > 4 && u[0] == 'h' && u[1] == 't' && u[2] == 't' && u[3] == 'p' && !IsSpace(u[4])
             then 4 else 3;
    assert forall i :: 0 <= i < n ==> r[i] == u[i + 1];
    StripUrlsPrefix(t, n);
    assert forall i :: 0 <= i < n ==> t[i] == t[..n][i];
    assert forall i :: 0 <= i <= n ==> ([c] + t)[i] == u[i];
  }

  /** After URL removal no `http` or `www` followed by a non-whitespace character is left. */
  lemma {:induction false} StripUrlsRemovesAll(s: string)
    ensures NoUrl(StripUrls(s))
    decreases |s|
  {
    if s == [] {
    } else if UrlAt(s) {
      assert s[0] == 'h' || s[0] == 'w';
      StripUrlsRemovesAll(s[TokenEnd(s)..]);
    } else {
      var r' := StripUrls(s[1..]);
      var r := [s[0]] + r';
      StripUrlsRemovesAll(s[1..]);
      assert s == [s[0]] + s[1..];
      if UrlAt(r) {
        UrlAtCons(s[0], s[1..]);
      }
      assert !UrlAt(r[0..]);
      forall i | 1 <= i < |r| ensures !UrlAt(r[i..]) {
        assert r[i..] == r'[i - 1..];
      }
    }
  }

  /** A match never runs across whitespace: what follows a whitespace character cannot start it earlier. */
  lemma UrlAtBeforeSpace(a: string, c: char, b: string)
    requires IsSpace(c)
    ensures UrlAt(a + [c] + b) <==> UrlAt(a)
  {
    var s := a + [c] + b;
    assert forall i :: 0 <= i < |a| ==> s[i] == a[i];
    assert s[|a|] == c;
  }

  lemma {:induction false} TokenEndBeforeSpace(a: string, c: char, b: string)
    requires IsSpace(c)
    ensures TokenEnd(a + [c] + b) == TokenEnd(a)
  {
    if a == [] {
      assert a + [c] + b == [c] + b;
    } else if !IsSpace(a[0]) {
      assert (a + [c] + b)[0] == a[0];
      assert (a + [c] + b)[1..] == a[1..] + [c] + b;
      TokenEndBeforeSpace(a[1..], c, b);
    } else {
      assert (a + [c] + b)[0] == a[0];
    }
  }

  /**
   * URL removal works word by word: a whitespace character is kept, and the
   * text on each side of it is treated on its own.
   */
  lemma {:induction false} StripUrlsSpace(a: string, c: char, b: string)
    requires IsSpace(c)
    ensures StripUrls(a + [c] + b) == StripUrls(a) + [c] + StripUrls(b)
    decreases |a|
  {
    var s := a + [c] + b;
    UrlAtBeforeSpace(a, c, b);
    if a == [] {
      assert s == [c] + b;
      assert s[1..] == b;
    } else if UrlAt(a) {
      assert a[0] == 'h' || a[0] == 'w';
      TokenEndBeforeSpace(a, c, b);
      var e := TokenEnd(a);
      assert s[e..] == a[e..] + [c] + b;
      StripUrlsSpace(a[e..], c, b);
    } else {
      assert s[0] == a[0];
      assert s[1..] == a[1..] + [c] + b;
      StripUrlsSpace(a[1..], c, b);
      assert [a[0]] + (StripUrls(a[1..]) + [c] + StripUrls(b))
          == ([a[0]] + StripUrls(a[1..])) + [c] + StripUrls(b);
    }
  }

  /** Where the first match in `w` starts, or `|w|` when there is none. */
  function FirstUrl(w: string): (k: nat)
    ensures k <= |w|
    ensures forall i :: 0 <= i < k ==> !UrlAt(w[i..])
    ensures k < |w| ==> UrlAt(w[k..])
  {
    if w == [] then 0
    else if UrlAt(w) then 0
    else
      var k := 1 + FirstUrl(w[1..]);
      assert forall i :: 1 <= i < k ==> w[i..] == w[1..][i - 1..];
      assert k < |w| ==> w[k..] == w[1..][k - 1..];
      k
  }

  /** In a word without whitespace, the first match removes the rest of the word. */
  lemma {:induction false} StripUrlsWord(w: string)
    requires NoneOf(w, IsSpace)
    ensures StripUrls(w) == w[..FirstUrl(w)]
  {
    if w == [] {
    } else if UrlAt(w) {
      TokenEndAppend(w, "");
      assert w + "" == w;
      assert w[|w|..] == [];
    } else {
      StripUrlsWord(w[1..]);
      assert w[..FirstUrl(w)] == [w[0]] + w[1..][..FirstUrl(w[1..])];
    }
  }

  /** `re.sub(r'\d+', '', s)` (app.py:40): every digit deleted, everything else kept in order. */
  function RemoveDigits(s: string): (r: string)
    ensures NoneOf(r, IsDigit)
    ensures forall c :: c in r ==> c in s
  {
    if s == [] then []
    else
      assert forall c :: c in s[1..] ==> c in s;
      (if IsDigit(s[0]) then [] else [s[0]]) + RemoveDigits(s[1..])
  }

  /** Digit removal keeps every other character, as often as it occurs. */
  lemma {:induction false} RemoveDigitsKeepsOthers(s: string, c: char)
    requires !IsDigit(c)
    ensures multiset(RemoveDigits(s))[c] == multiset(s)[c]
  {
    if s != [] {
      RemoveDigitsKeepsOthers(s[1..], c);
      assert s == [s[0]] + s[1..];
    }
  }

  lemma {:induction false} RemoveDigitsAppend(a: string, b: string)
    ensures RemoveDigits(a + b) == RemoveDigits(a) + RemoveDigits(b)
  {
    if a != [] {
      assert (a + b)[1..] == a[1..] + b;
      RemoveDigitsAppend(a[1..], b);
    } else {
      assert a + b == b;
    }
  }

  lemma {:induction false} RemoveDigitsKeepsDigitFree(s: string)
    requires NoneOf(s, IsDigit)
    ensures RemoveDigits(s) == s
  {
    if s != [] {
      RemoveDigitsKeepsDigitFree(s[1..]);
      assert [s[0]] + s[1..] == s;
    }
  }

  function StripPunctuation(w: string): (r: string)
    ensures r == [] || (!IsPunctuation(r[0]) && !IsPunctuation(r[|r| - 1]))
    ensures r == [] <==> All(w, IsPunctuation)
    ensures forall c :: c in r ==> c in w
  {
    StripBy(w, IsPunctuation)
  }

  /** `[word.strip(string.punctuation) for word in ws]` (app.py:43). */
  function StripAll(ws: seq<string>): (r: seq<string>)
    ensures |r| == |ws| && forall i :: 0 <= i < |ws| ==> r[i] == StripPunctuation(ws[i])
  {
    seq(|ws|, i requires 0 <= i < |ws| => StripPunctuation(ws[i]))
  }

  /** `[word for word in ws if word and word not in stop_words]` (app.py:46). */
  function KeepWords(ws: seq<string>, stopWords: set<string>): (r: seq<string>)
    ensures forall i :: 0 <= i < |r| ==> r[i] != "" && r[i] !in stopWords && r[i] in ws
    ensures forall w {:trigger multiset(r)[w]} ::
              multiset(r)[w] == if w != "" && w !in stopWords then multiset(ws)[w] else 0
  {
    if ws == [] then []
    else
      assert ws == [ws[0]] + ws[1..];
      (if ws[0] != "" && ws[0] !in stopWords then [ws[0]] else []) + KeepWords(ws[1..], stopWords)
  }

  /** The filter keeps the words' order: it works word by word. */
  lemma {:induction false} KeepWordsAppend(a: seq<string>, b: seq<string>, stopWords: set<string>)
    ensures KeepWords(a + b, stopWords) == KeepWords(a, stopWords) + KeepWords(b, stopWords)
  {
    if a == [] {
      assert a + b == b;
    } else {
      var head := if a[0] != "" && a[0] !in stopWords then [a[0]] else [];
      calc {
        KeepWords(a + b, stopWords);
        { KeepWordsCons(a + b, stopWords); assert (a + b)[0] == a[0] && (a + b)[1..] == a[1..] + b; }
        head + KeepWords(a[1..] + b, stopWords);
        { KeepWordsAppend(a[1..], b, stopWords); }
        head + (KeepWords(a[1..], stopWords) + KeepWords(b, stopWords));
        (head + KeepWords(a[1..], stopWords)) + KeepWords(b, stopWords);
        { KeepWordsCons(a, stopWords); }
        KeepWords(a, stopWords) + KeepWords(b, stopWords);
      }
    }
  }

  lemma KeepWordsCons(ws: seq<string>, stopWords: set<string>)
    requires ws != []
    ensures KeepWords(ws, stopWords)
         == (if ws[0] != "" && ws[0] !in stopWords then [ws[0]] else []) + KeepWords(ws[1..], stopWords)
  {
  }

  /** The text that is split into words: lines 34, 37 and 40 applied in turn. */
  function CleanText(text: string): (r: string)
    ensures NoneOf(r, IsUpper) && NoneOf(r, IsDigit)
  {
    var t := StripUrls(Normalise(text));
    assert NoneOf(t, IsUpper) by {
      forall i | 0 <= i < |t| ensures !IsUpper(t[i]) {
        assert t[i] in t;
      }
    }
    var r := RemoveDigits(t);
    assert NoneOf(r, IsUpper) by {
      forall i | 0 <= i < |r| ensures !IsUpper(r[i]) {
        assert r[i] in r;
      }
    }
    r
  }

  /** A word that can be counted. */
  predicate IsCountable(w: string, stopWords: set<string>)
  {
    && w != ""
    && NoneOf(w, IsSpace)
    && NoneOf(w, IsUpper)
    && NoneOf(w, IsDigit)
    && !IsPunctuation(w[0]) && !IsPunctuation(w[|w| - 1])
    && w !in stopWords
  }

  /** Every character of a word cut from `t` is a non-whitespace character of `t`. */
  lemma StrippedTokenChars(t: string, k: nat, c: char)
    requires k < |Split(t)|
    requires c in StripAll(Split(t))[k]
    ensures c in t && !IsSpace(c)
  {
    var token := Split(t)[k];
    assert c in token;
    var m :| 0 <= m < |token| && token[m] == c;
  }

  /** The filtered word list `words` of app.py:46. */
  function CleanWords(text: string, stopWords: set<string>): (r: seq<string>)
    ensures forall i :: 0 <= i < |r| ==> IsCountable(r[i], stopWords)
  {
    var t := CleanText(text);
    var stripped := StripAll(Split(t));
    var r := KeepWords(stripped, stopWords);
    forall i | 0 <= i < |r| ensures IsCountable(r[i], stopWords) {
      var w := r[i];
      var k :| 0 <= k < |stripped| && stripped[k] == w;
      forall j | 0 <= j < |w|
        ensures !IsSpace(w[j]) && !IsUpper(w[j]) && !IsDigit(w[j])
      {
        StrippedTokenChars(t, k, w[j]);
        var m :| 0 <= m < |t| && t[m] == w[j];
      }
    }
    r
  }

  // ---------------------------------------------------------------------
  // Counting (app.py:49, 57)
  // ---------------------------------------------------------------------

  /** Index of the first occurrence of `w` in `ws`, or `|ws|`. */
  function IndexOf(ws: seq<string>, w: string): (k: nat)
    ensures k <= |ws|
    ensures k < |ws| <==> w in ws
    ensures k < |ws| ==> ws[k] == w
    ensures forall i :: 0 <= i < k ==> ws[i] != w
  {
    if ws == [] then 0 else if ws[0] == w then 0 else 1 + IndexOf(ws[1..], w)
  }

  /** The distinct words in order of first occurrence: the key order of a `Counter`. */
  function Distinct(ws: seq<string>): (d: seq<string>)
    ensures |d| <= |ws|
    ensures forall i, j :: 0 <= i < j < |d| ==> d[i] != d[j]
    ensures forall w :: w in d <==> w in ws
  {
    if ws == [] then []
    else
      var p := ws[..|ws| - 1];
      var x := ws[|ws| - 1];
      assert ws == p + [x];
      var d := Distinct(p);
      if x in d then d else d + [x]
  }

  lemma IndexOfPrefix(p: seq<string>, x: string, w: string)
    requires w in p
    ensures IndexOf(p + [x], w) == IndexOf(p, w)
  {
    var k := IndexOf(p, w);
    assert (p + [x])[k] == w;
    assert forall i :: 0 <= i < k ==> (p + [x])[i] == p[i];
  }

  /** Distinct words are ordered by their first occurrence in the list. */
  lemma {:induction false} DistinctFirstOccurrence(ws: seq<string>)
    ensures forall i, j :: 0 <= i < j < |Distinct(ws)| ==>
      IndexOf(ws, Distinct(ws)[i]) < IndexOf(ws, Distinct(ws)[j])
  {
    if ws != [] {
      var p := ws[..|ws| - 1];
      var x := ws[|ws| - 1];
      assert ws == p + [x];
      DistinctFirstOccurrence(p);
      DistinctSnoc(p, x);
    }
  }

  /** Appending a word keeps the first-occurrence order of the distinct words. */
  lemma DistinctSnoc(p: seq<string>, x: string)
    requires forall i, j :: 0 <= i < j < |Distinct(p)| ==>
      IndexOf(p, Distinct(p)[i]) < IndexOf(p, Distinct(p)[j])
    ensures forall i, j :: 0 <= i < j < |Distinct(p + [x])| ==>
      IndexOf(p + [x], Distinct(p + [x])[i]) < IndexOf(p + [x], Distinct(p + [x])[j])
  {
    var ws := p + [x];
    assert ws[..|ws| - 1] == p && ws[|ws| - 1] == x;
    var d' := Distinct(p);
    forall y | y in d' ensures IndexOf(ws, y) == IndexOf(p, y) {
      IndexOfPrefix(p, x, y);
    }
    if x !in d' {
      var d := d' + [x];
      assert Distinct(ws) == d;
      assert IndexOf(ws, x) == |p| by {
        assert forall i :: 0 <= i < |p| ==> ws[i] == p[i];
      }
      forall i, j | 0 <= i < j < |d| ensures IndexOf(ws, d[i]) < IndexOf(ws, d[j]) {
        assert d[i] == d'[i];
        if j < |d'| {
          assert d[j] == d'[j];
        }
      }
    }
  }

  /** `Counter(ws)`: each distinct word with its number of occurrences, in first-occurrence order. */
  function Entries(ws: seq<string>): (e: seq<Entry>)
    ensures |e| == |Distinct(ws)|
    ensures forall i :: 0 <= i < |e| ==> e[i] == (Distinct(ws)[i], multiset(ws)[Distinct(ws)[i]])
  {
    var d := Distinct(ws);
    seq(|d|, i requires 0 <= i < |d| => (d[i], multiset(ws)[d[i]]))
  }

  /** Places `x` after every entry whose count is at least `x`'s. */
  function InsertByCount(t: seq<Entry>, x: Entry): (r: seq<Entry>)
    ensures |r| == |t| + 1
    ensures multiset(r) == multiset(t) + multiset{x}
  {
    if t == [] then [x]
    else if t[0].1 >= x.1 then
      assert t == [t[0]] + t[1..];
      [t[0]] + InsertByCount(t[1..], x)
    else [x] + t
  }

  /**
   * A stable sort by decreasing count, which is what
   * `most_common` does to a `Counter`'s entries.
   */
  function SortByCount(s: seq<Entry>): (r: seq<Entry>)
    ensures |r| == |s|
    ensures multiset(r) == multiset(s)
  {
    if s == [] then []
    else
      assert s == s[..|s| - 1] + [s[|s| - 1]];
      InsertByCount(SortByCount(s[..|s| - 1]), s[|s| - 1])
  }

  /** `a` comes before `b`: a higher count, or the same count and an earlier key. */
  predicate Precedes(a: Entry, b: Entry, key: string -> int)
  {
    a.1 > b.1 || (a.1 == b.1 && key(a.0) < key(b.0))
  }

  /** `r` is in the strict order of decreasing count, then increasing key. */
  predicate RankedBy(r: seq<Entry>, key: string -> int)
  {
    forall i, j :: 0 <= i < j < |r| ==> Precedes(r[i], r[j], key)
  }

  lemma {:induction false} InsertRanked(t: seq<Entry>, x: Entry, key: string -> int)
    requires RankedBy(t, key)
    requires forall i :: 0 <= i < |t| ==> key(t[i].0) < key(x.0)
    ensures RankedBy(InsertByCount(t, x), key)
  {
    if t != [] {
      if t[0].1 >= x.1 {
        InsertRanked(t[1..], x, key);
        InsertRankedAfter(t, x, key);
      } else {
        InsertRankedBefore(t, x, key);
      }
    }
  }

  /** `x` goes after the first entry, which precedes everything that follows. */
  lemma InsertRankedAfter(t: seq<Entry>, x: Entry, key: string -> int)
    requires t != [] && t[0].1 >= x.1
    requires RankedBy(t, key) && RankedBy(InsertByCount(t[1..], x), key)
    requires forall i :: 0 <= i < |t| ==> key(t[i].0) < key(x.0)
    ensures RankedBy(InsertByCount(t, x), key)
  {
    var r' := InsertByCount(t[1..], x);
    var r := [t[0]] + r';
    assert InsertByCount(t, x) == r;
    forall i, j | 0 <= i < j < |r| ensures Precedes(r[i], r[j], key) {
      var y := r'[j - 1];
      if i > 0 {
        assert r[i] == r'[i - 1];
      } else {
        assert y in multiset(r');
        if y != x {
          assert y in multiset(t[1..]);
          var k :| 0 <= k < |t[1..]| && t[1..][k] == y;
          assert t[k + 1] == y;
        }
      }
    }
  }

  /** `x` goes in front when its count is larger than the first entry's. */
  lemma InsertRankedBefore(t: seq<Entry>, x: Entry, key: string -> int)
    requires t != [] && t[0].1 < x.1
    requires RankedBy(t, key)
    ensures RankedBy(InsertByCount(t, x), key)
  {
    var r := [x] + t;
    assert InsertByCount(t, x) == r;
    forall i, j | 0 <= i < j < |r| ensures Precedes(r[i], r[j], key) {
      assert r[j] == t[j - 1];
      if i > 0 {
        assert r[i] == t[i - 1];
      } else if j > 1 {
        assert Precedes(t[0], t[j - 1], key);
      }
    }
  }

  /** Sorting a list whose keys increase gives the (count, key) order. */
  lemma {:induction false} SortRanked(s: seq<Entry>, key: string -> int)
    requires forall i, j :: 0 <= i < j < |s| ==> key(s[i].0) < key(s[j].0)
    ensures RankedBy(SortByCount(s), key)
  {
    if s != [] {
      var p := s[..|s| - 1];
      var x := s[|s| - 1];
      SortRanked(p, key);
      var t := SortByCount(p);
      forall i | 0 <= i < |t| ensures key(t[i].0) < key(x.0) {
        assert t[i] in multiset(p);
        var k :| 0 <= k < |p| && p[k] == t[i];
      }
      InsertRanked(t, x, key);
    }
  }

  /** How many entries `most_common(n)` returns out of `size`; `None` stands for `n = None`. */
  function KeptCount(numResults: Option<int>, size: nat): (m: nat)
    ensures m <= size
    ensures numResults.None? ==> m == size
    ensures numResults.Some? ==> m == if numResults.value <= 0 then 0
                                      else if numResults.value < size then numResults.value
                                      else size
  {
    match numResults
    case None => size
    case Some(n) => if n <= 0 then 0 else if n < size then n else size
  }

  /** `dict(Counter(ws).most_common(numResults))`, as its ordered list of entries. */
  function MostCommon(ws: seq<string>, numResults: Option<int>): seq<Entry>
  {
    var sorted := SortByCount(Entries(ws));
    sorted[..KeptCount(numResults, |sorted|)]
  }

  // ---------------------------------------------------------------------
  // Statistics and the result (app.py:52-64)
  // ---------------------------------------------------------------------

  function SumLengths(ws: seq<string>): nat
  {
    if ws == [] then 0 else |ws[0]| + SumLengths(ws[1..])
  }

  function ElementSet(ws: seq<string>): set<string>
  {
    set w | w in ws
  }

  /**
   * The statistics block; the average is the exact quotient (app.py:54
   * computes it in floating point and app.py:61 rounds it to two places).
   */
  datatype Statistics = Statistics(totalWords: nat, uniqueWords: nat, avgWordLength: real)

  datatype Analysis = Analysis(wordFrequency: seq<Entry>, statistics: Statistics, language: string)

  /** `sum / count if count > 0 else 0`, exactly. */
  function Average(sum: nat, count: nat): real
  {
    if count > 0 then sum as real / count as real else 0.0
  }

  function StatisticsOf(words: seq<string>): Statistics
  {
    var total := |words|;
    Statistics(total, |ElementSet(words)|,
               Average(SumLengths(words), total))
  }

  /**
   * `clean_and_count_words(text, stop_words, num_results)`; the language
   * that `clean_and_count_words` detects at app.py:30 is passed in.
   */
  function CleanAndCountWords(text: string, stopWords: set<string>, numResults: Option<int>,
                              language: string): Analysis
  {
    var words := CleanWords(text, stopWords);
    Analysis(MostCommon(words, numResults), StatisticsOf(words), language)
  }

  // ---------------------------------------------------------------------
  // What the result promises
  // ---------------------------------------------------------------------

  lemma {:induction false} DistinctCard(ws: seq<string>)
    ensures |Distinct(ws)| == |ElementSet(ws)|
  {
    if ws != [] {
      var p := ws[..|ws| - 1];
      var x := ws[|ws| - 1];
      assert ws == p + [x];
      DistinctCard(p);
      assert ElementSet(ws) == ElementSet(p) + {x};
      if x !in p {
        assert x !in ElementSet(p);
        assert |ElementSet(p) + {x}| == |ElementSet(p)| + 1;
      } else {
        assert ElementSet(ws) == ElementSet(p);
      }
    }
  }

  /** The ranking of the counted entries: the order `most_common` returns them in. */
  lemma SortedEntriesRanked(ws: seq<string>)
    ensures RankedBy(SortByCount(Entries(ws)), w => IndexOf(ws, w))
  {
    var e := Entries(ws);
    var key := (w: string) => IndexOf(ws, w);
    DistinctFirstOccurrence(ws);
    assert forall i, j :: 0 <= i < j < |e| ==> key(e[i].0) < key(e[j].0);
    SortRanked(e, key);
  }

  /** Each sorted entry is a word of the list paired with its number of occurrences. */
  lemma SortedEntriesCounts(ws: seq<string>)
    ensures forall i :: 0 <= i < |SortByCount(Entries(ws))| ==>
      SortByCount(Entries(ws))[i].0 in ws &&
      SortByCount(Entries(ws))[i].1 == multiset(ws)[SortByCount(Entries(ws))[i].0]
  {
    var e := Entries(ws);
    var sorted := SortByCount(e);
    forall i | 0 <= i < |sorted|
      ensures sorted[i].0 in ws && sorted[i].1 == multiset(ws)[sorted[i].0]
    {
      assert sorted[i] in multiset(e);
      var k :| 0 <= k < |e| && e[k] == sorted[i];
      assert Distinct(ws)[k] in Distinct(ws);
    }
  }

  /**
   * Every kept entry is a distinct word of the list with its exact number of
   * occurrences, which is at least 1 (app.py:49, 57).
   */
  lemma MostCommonCounts(ws: seq<string>, numResults: Option<int>)
    ensures var f := MostCommon(ws, numResults);
      && (forall i :: 0 <= i < |f| ==> f[i].0 in ws && f[i].1 == multiset(ws)[f[i].0] && f[i].1 >= 1)
      && (forall i, j :: 0 <= i < j < |f| ==> f[i].0 != f[j].0)
  {
    SortedEntriesCounts(ws);
    SortedEntriesRanked(ws);
  }

  /**
   * The kept entries are in decreasing order of count, and entries with the
   * same count are in order of the word's first occurrence (app.py:57).
   */
  lemma MostCommonOrder(ws: seq<string>, numResults: Option<int>)
    ensures var f := MostCommon(ws, numResults);
      forall i, j :: 0 <= i < j < |f| ==>
        f[i].1 > f[j].1 || (f[i].1 == f[j].1 && IndexOf(ws, f[i].0) < IndexOf(ws, f[j].0))
  {
    SortedEntriesRanked(ws);
    var sorted := SortByCount(Entries(ws));
    var f := MostCommon(ws, numResults);
    forall i, j | 0 <= i < j < |f|
      ensures f[i].1 > f[j].1 || (f[i].1 == f[j].1 && IndexOf(ws, f[i].0) < IndexOf(ws, f[j].0))
    {
      assert Precedes(sorted[i], sorted[j], w => IndexOf(ws, w));
    }
  }

  /**
   * `numResults` bounds the number of entries, and when the list has no more
   * distinct words than that, every distinct word is kept (app.py:53, 57).
   */
  lemma MostCommonSize(ws: seq<string>, numResults: Option<int>)
    ensures var f := MostCommon(ws, numResults);
      && |f| <= |ElementSet(ws)|
      && (numResults.Some? ==> |f| <= if numResults.value < 0 then 0 else numResults.value)
      && (numResults.None? || numResults.value >= |ElementSet(ws)| ==> |f| == |ElementSet(ws)|)
      && (numResults.Some? && 0 <= numResults.value <= |ElementSet(ws)| ==> |f| == numResults.value)
  {
    DistinctCard(ws);
  }

  /**
   * A word left out of the result either occurs less often than a kept word,
   * or as often and first occurs after it: at the cut, ties go to the word
   * seen first (app.py:57).
   */
  lemma OmittedWord(ws: seq<string>, numResults: Option<int>, w: string, i: nat)
    requires w in ws
    requires forall j :: 0 <= j < |MostCommon(ws, numResults)| ==> MostCommon(ws, numResults)[j].0 != w
    requires i < |MostCommon(ws, numResults)|
    ensures var f := MostCommon(ws, numResults);
      multiset(ws)[w] < f[i].1 || (multiset(ws)[w] == f[i].1 && IndexOf(ws, f[i].0) < IndexOf(ws, w))
  {
    var e := Entries(ws);
    var sorted := SortByCount(e);
    var m := |MostCommon(ws, numResults)|;
    assert forall j :: 0 <= j < m ==> sorted[j].0 != w by {
      forall j | 0 <= j < m ensures sorted[j].0 != w {
        assert MostCommon(ws, numResults)[j] == sorted[j];
      }
    }
    var k := IndexOf(Distinct(ws), w);
    assert e[k] == (w, multiset(ws)[w]);
    assert e[k] in multiset(sorted);
    var p :| 0 <= p < |sorted| && sorted[p] == e[k];
    assert p >= m;
    SortedEntriesRanked(ws);
    assert Precedes(sorted[i], sorted[p], x => IndexOf(ws, x));
    assert MostCommon(ws, numResults)[i] == sorted[i];
  }

  /**
   * Every word left out of the result occurs less often than every kept word,
   * or as often and first occurs after it (app.py:57).
   */
  lemma MostCommonOmitted(ws: seq<string>, numResults: Option<int>)
    ensures var f := MostCommon(ws, numResults);
      var kept := set j | 0 <= j < |f| :: f[j].0;
      forall w, i :: w in ws && w !in kept && 0 <= i < |f| ==>
        multiset(ws)[w] < f[i].1 || (multiset(ws)[w] == f[i].1 && IndexOf(ws, f[i].0) < IndexOf(ws, w))
  {
    var f := MostCommon(ws, numResults);
    var kept := set j | 0 <= j < |f| :: f[j].0;
    forall w, i | w in ws && w !in kept && 0 <= i < |f|
      ensures multiset(ws)[w] < f[i].1 || (multiset(ws)[w] == f[i].1 && IndexOf(ws, f[i].0) < IndexOf(ws, w))
    {
      assert forall j :: 0 <= j < |f| ==> f[j].0 in kept;
      OmittedWord(ws, numResults, w, i);
    }
  }

  lemma {:induction false} SumLengthsAtLeast(ws: seq<string>)
    requires forall i :: 0 <= i < |ws| ==> ws[i] != ""
    ensures SumLengths(ws) >= |ws|
  {
    if ws != [] {
      SumLengthsAtLeast(ws[1..]);
    }
  }

  /**
   * `total_words` is the number of words, `unique_words` the number of
   * distinct ones and so no larger, and the average length is 0 when there
   * are no words and otherwise the total length over the count (see
   * `AverageTimesCount`), at least 1 since no word is empty (app.py:52-54).
   */
  lemma StatisticsFacts(words: seq<string>)
    requires forall i :: 0 <= i < |words| ==> words[i] != ""
    ensures StatisticsOf(words).totalWords == |words|
    ensures StatisticsOf(words).uniqueWords == |Distinct(words)| <= |words|
    ensures |words| == 0 ==> StatisticsOf(words).avgWordLength == 0.0
    ensures StatisticsOf(words).avgWordLength == Average(SumLengths(words), |words|)
    ensures |words| > 0 ==> StatisticsOf(words).avgWordLength >= 1.0
  {
    DistinctCard(words);
    AverageLength(words);
  }

  lemma AverageLength(words: seq<string>)
    requires forall i :: 0 <= i < |words| ==> words[i] != ""
    ensures |words| > 0 ==> StatisticsOf(words).avgWordLength >= 1.0
  {
    var sum, total := SumLengths(words), |words|;
    SumLengthsAtLeast(words);
    if total > 0 {
      AverageTimesCount(sum, total);
    }
  }

  /** The average times the count gives back the sum, and it is at least 1 when the sum is at least the count. */
  lemma AverageTimesCount(sum: nat, count: nat)
    requires count > 0
    ensures Average(sum, count) * count as real == sum as real
    ensures sum >= count ==> Average(sum, count) >= 1.0
  {
  }

  /** The statistics of an analysis are those of its filtered word list, whose words are all non-empty. */
  lemma AnalysisStatistics(text: string, stopWords: set<string>, numResults: Option<int>, language: string)
    ensures var words := CleanWords(text, stopWords);
      && (forall i :: 0 <= i < |words| ==> words[i] != "")
      && CleanAndCountWords(text, stopWords, numResults, language).statistics == StatisticsOf(words)
  {
  }

  /**
   * Every reported word is a countable word (non-empty, lower-case, without
   * whitespace, digits or end punctuation, not a stop word) reported with its
   * number of occurrences in the filtered list (app.py:43-57).
   */
  lemma AnalysisEntries(text: string, stopWords: set<string>, numResults: Option<int>, language: string)
    ensures var words := CleanWords(text, stopWords);
      var f := CleanAndCountWords(text, stopWords, numResults, language).wordFrequency;
      forall i :: 0 <= i < |f| ==>
        IsCountable(f[i].0, stopWords) && f[i].1 == multiset(words)[f[i].0] && f[i].1 >= 1
  {
    var words := CleanWords(text, stopWords);
    var f := MostCommon(words, numResults);
    assert f == CleanAndCountWords(text, stopWords, numResults, language).wordFrequency;
    MostCommonCounts(words, numResults);
    forall i | 0 <= i < |f| ensures IsCountable(f[i].0, stopWords) {
      CleanWordCountable(text, stopWords, f[i].0);
    }
  }

  lemma CleanWordCountable(text: string, stopWords: set<string>, w: string)
    requires w in CleanWords(text, stopWords)
    ensures IsCountable(w, stopWords)
  {
    var words := CleanWords(text, stopWords);
    var k :| 0 <= k < |words| && words[k] == w;
  }

  // ---------------------------------------------------------------------
  // Stop words are compared with lower-cased words
  // ---------------------------------------------------------------------

  lemma {:induction false} KeepWordsIgnores(ws: seq<string>, stopWords: set<string>, s: string)
    requires forall i :: 0 <= i < |ws| ==> ws[i] != s
    ensures KeepWords(ws, stopWords + {s}) == KeepWords(ws, stopWords)
  {
    if ws != [] {
      KeepWordsIgnores(ws[1..], stopWords, s);
    }
  }

  /**
   * A stop word with an upper-case letter never matches anything: words are
   * lower-cased (app.py:34) and stop words are not (app.py:93, 118, 46).
   */
  lemma CapitalisedStopWordIgnored(text: string, stopWords: set<string>, s: string)
    requires !NoneOf(s, IsUpper)
    ensures CleanWords(text, stopWords + {s}) == CleanWords(text, stopWords)
  {
    var t := CleanText(text);
    var stripped := StripAll(Split(t));
    forall k | 0 <= k < |stripped| ensures stripped[k] != s {
      forall j | 0 <= j < |stripped[k]| ensures !IsUpper(stripped[k][j]) {
        StrippedTokenChars(t, k, stripped[k][j]);
        var m :| 0 <= m < |t| && t[m] == stripped[k][j];
      }
    }
    KeepWordsIgnores(stripped, stopWords, s);
  }

  // ---------------------------------------------------------------------
  // URL removal runs before digit removal
  // ---------------------------------------------------------------------

  lemma {:induction false} StripUrlsUnchanged(s: string)
    requires NoUrl(s)
    ensures StripUrls(s) == s
  {
    if s != [] {
      assert s[0..] == s;
      assert NoUrl(s[1..]) by {
        forall i | 0 <= i < |s[1..]| ensures !UrlAt(s[1..][i..]) {
          assert s[1..][i..] == s[i + 1..];
        }
      }
      StripUrlsUnchanged(s[1..]);
    }
  }

  lemma RemoveDigitsSplice(a: string, b: string, c: string)
    requires RemoveDigits(a) == a && RemoveDigits(b) == [] && RemoveDigits(c) == c
    ensures RemoveDigits(a + (b + c)) == a + c
  {
    RemoveDigitsAppend(b, c);
    assert RemoveDigits(b + c) == c;
    RemoveDigitsAppend(a, b + c);
  }

  lemma DigitClosesUrl()
    ensures RemoveDigits("ht1tp://x") == "http://x"
  {
    var a, b, c := "ht", "1", "tp://x";
    assert RemoveDigits(b) == [];
    RemoveDigitsKeepsDigitFree(a);
    RemoveDigitsKeepsDigitFree(c);
    RemoveDigitsSplice(a, b, c);
    HiddenUrlPieces();
    ClosedUrlPieces();
  }

  lemma HiddenUrlPieces()
    ensures "ht" + ("1" + "tp://x") == "ht1tp://x"
  {
  }

  lemma ClosedUrlPieces()
    ensures "ht" + "tp://x" == "http://x"
  {
  }

  /** A lower-case word without whitespace is its own normal form. */
  lemma NormaliseWord(s: string)
    requires IsToken(s) && NoneOf(s, IsUpper)
    ensures Normalise(s) == s
  {
    SplitSingle(s);
    assert JoinWith([s], " ") == s;
    assert Lower(s) == s;
  }

  /** The cleaned text of a single word is the word once its digits are gone. */
  lemma CleanTextOfWord(s: string)
    requires IsToken(s) && NoneOf(s, IsUpper) && NoUrl(s)
    ensures CleanText(s) == RemoveDigits(s)
  {
    NormaliseWord(s);
    StripUrlsUnchanged(s);
  }

  /** A text that cleans to one countable word yields just that word. */
  lemma CleanWordsOfWord(text: string, t: string, stopWords: set<string>)
    requires CleanText(text) == t && IsToken(t)
    requires !IsPunctuation(t[0]) && !IsPunctuation(t[|t| - 1]) && t !in stopWords
    ensures CleanWords(text, stopWords) == [t]
  {
    SplitSingle(t);
    StripKeepsStripped(t, IsPunctuation);
    assert StripAll([t]) == [t];
    KeepWordsCons([t], stopWords);
    assert [t][1..] == [];
  }

  lemma HiddenUrlShape()
    ensures IsToken("ht1tp://x") && NoneOf("ht1tp://x", IsUpper) && NoUrl("ht1tp://x")
  {
    var s := "ht1tp://x";
    forall i | 0 <= i < |s| ensures !UrlAt(s[i..]) {
    }
  }

  lemma ClosedUrlShape()
    ensures IsToken("http://x") && UrlAt("http://x")
    ensures !IsPunctuation("http://x"[0]) && !IsPunctuation("http://x"[7])
  {
  }

  /**
   * Digits go after URLs (app.py:37, 40), so a digit inside `http` hides a
   * URL from the first substitution and the second one then closes the gap:
   * "ht1tp://x" is counted as the word "http://x".
   */
  lemma DigitInsideUrlIsCounted()
    ensures CleanWords("ht1tp://x", {}) == ["http://x"]
    ensures UrlAt("http://x")
  {
    var s, t := "ht1tp://x", "http://x";
    HiddenUrlShape();
    ClosedUrlShape();
    CleanTextOfWord(s);
    DigitClosesUrl();
    assert CleanText(s) == t;
    CleanWordsOfWord(s, t, {});
  }
}
