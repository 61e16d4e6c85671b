/**
 * The state logic of the `WordFrequencyAnalyzer` React component
 * (frontend/app/components/WordFrequencyAnalyzer.tsx): the custom stop-word
 * list it sends, the `loading`/`error`/`results` transitions of submitting
 * the form, the CSV export and the rows of the table and the chart. The
 * network call is abstracted as its outcome.
 */
module Frontend {
  import opened Options
  import opened Strings
  import opened WordCount
  import opened Backend

  // ---------------------------------------------------------------------
  // The stop-word field (line 47)
  // ---------------------------------------------------------------------

  /** ECMAScript white space and line terminators, which `String.prototype.trim` removes. */
  predicate IsJsSpace(c: char)
  {
    || c == ' ' || ('\t' <= c <= '\r') || c == '\U{A0}' || c == '\U{1680}'
    || ('\U{2000}' <= c <= '\U{200A}') || c == '\U{2028}' || c == '\U{2029}' || c == '\U{202F}'
    || c == '\U{205F}' || c == '\U{3000}' || c == '\U{FEFF}'
  }

  /** `word.trim()`. */
  function Trim(w: string): (r: string)
    ensures r == [] || (!IsJsSpace(r[0]) && !IsJsSpace(r[|r| - 1]))
    ensures r == [] <==> All(w, IsJsSpace)
    ensures forall c :: c in r ==> c in w
  {
    StripBy(w, IsJsSpace)
  }

  function TrimAll(ws: seq<string>): (r: seq<string>)
    ensures |r| == |ws| && forall i :: 0 <= i < |ws| ==> r[i] == Trim(ws[i])
  {
    seq(|ws|, i requires 0 <= i < |ws| => Trim(ws[i]))
  }

  /** `.filter(Boolean)` on strings: the non-empty ones, in order. */
  function NonEmpty(ws: seq<string>): (r: seq<string>)
    ensures |r| <= |ws|
    ensures forall i :: 0 <= i < |r| ==> r[i] != "" && r[i] in ws
    ensures forall w :: w in ws && w != "" ==> w in r
    ensures forall w {:trigger multiset(r)[w]} :: multiset(r)[w] == if w != "" then multiset(ws)[w] else 0
  {
    if ws == [] then []
    else
      assert ws == [ws[0]] + ws[1..];
      (if ws[0] == "" then [] else [ws[0]]) + NonEmpty(ws[1..])
  }

  /** The filter keeps order: it works piece by piece. */
  lemma {:induction false} NonEmptyAppend(a: seq<string>, b: seq<string>)
    ensures NonEmpty(a + b) == NonEmpty(a) + NonEmpty(b)
  {
    if a == [] {
      assert a + b == b;
    } else {
      assert (a + b)[0] == a[0];
      assert (a + b)[1..] == a[1..] + b;
      NonEmptyAppend(a[1..], b);
    }
  }

  /** A stop word as the user may type it: non-empty, trimmed, without a comma. */
  predicate Typed(w: string)
  {
    w != "" && !IsJsSpace(w[0]) && !IsJsSpace(w[|w| - 1]) && ',' !in w
  }

  /**
   * `customStopWords.split(',').map(word => word.trim()).filter(Boolean)`:
   * every word sent is non-empty, trimmed and free of commas.
   */
  function SplitStopWords(input: string): (r: seq<string>)
    ensures forall i :: 0 <= i < |r| ==> Typed(r[i])
  {
    var pieces := SplitOn(input, ',');
    var r := NonEmpty(TrimAll(pieces));
    forall i | 0 <= i < |r| ensures Typed(r[i]) {
      TrimmedPieceTyped(pieces, r[i]);
    }
    r
  }

  /** A non-empty trimmed piece that had no comma is a typed word. */
  lemma TrimmedPieceTyped(pieces: seq<string>, w: string)
    requires forall i :: 0 <= i < |pieces| ==> ',' !in pieces[i]
    requires w in TrimAll(pieces) && w != ""
    ensures Typed(w)
  {
    var k :| 0 <= k < |pieces| && Trim(pieces[k]) == w;
    assert ',' !in pieces[k];
  }

  /** Every character of a word sent was typed in the field. */
  lemma SplitStopWordsChars(input: string, i: nat, c: char)
    requires i < |SplitStopWords(input)| && c in SplitStopWords(input)[i]
    ensures c in input
  {
    var pieces := SplitOn(input, ',');
    var k :| 0 <= k < |pieces| && Trim(pieces[k]) == SplitStopWords(input)[i];
    SplitOnJoin(input, ',');
    PieceChars(pieces, k, c);
  }

  /** A character of one piece is a character of the joined string. */
  lemma {:induction false} PieceChars(pieces: seq<string>, k: nat, c: char)
    requires k < |pieces| && c in pieces[k]
    ensures c in JoinWith(pieces, ",")
  {
    if k > 0 {
      PieceChars(pieces[1..], k - 1, c);
    }
  }

  lemma {:induction false} NonEmptyKeeps(ws: seq<string>)
    requires forall i :: 0 <= i < |ws| ==> ws[i] != ""
    ensures NonEmpty(ws) == ws
  {
    if ws != [] {
      NonEmptyKeeps(ws[1..]);
    }
  }

  /**
   * Typed words, each with any white space around it, separated by commas,
   * come back as the words themselves in the order typed.
   */
  lemma SplitStopWordsOfPadded(padded: seq<string>, words: seq<string>)
    requires |padded| == |words| >= 1
    requires forall i :: 0 <= i < |words| ==> Typed(words[i])
    requires forall i :: 0 <= i < |words| ==> ',' !in padded[i] && Trim(padded[i]) == words[i]
    ensures SplitStopWords(JoinWith(padded, ",")) == words
  {
    JoinThenSplitOn(padded, ',');
    assert TrimAll(padded) == words;
    NonEmptyKeeps(words);
  }

  /**
   * Any comma-free pieces joined by commas come back trimmed, with the blank
   * ones dropped and the others in order.
   */
  lemma SplitStopWordsOfPieces(pieces: seq<string>)
    requires |pieces| >= 1
    requires forall i :: 0 <= i < |pieces| ==> ',' !in pieces[i]
    ensures SplitStopWords(JoinWith(pieces, ",")) == NonEmpty(TrimAll(pieces))
  {
    JoinThenSplitOn(pieces, ',');
  }

  /** A blank entry and a trailing comma are dropped: `w1,,w2,` sends `[w1, w2]`. */
  lemma SplitStopWordsSkipsBlanks(w1: string, w2: string)
    requires Typed(w1) && Typed(w2)
    ensures SplitStopWords(w1 + ",," + w2 + ",") == [w1, w2]
  {
    BlanksJoin(w1, w2);
    SplitStopWordsOfPieces([w1, "", w2, ""]);
    TrimBlanks(w1, w2);
    KeepTyped(w1, w2);
  }

  lemma BlanksJoin(w1: string, w2: string)
    ensures JoinWith([w1, "", w2, ""], ",") == w1 + ",," + w2 + ","
  {
    var pieces := [w1, "", w2, ""];
    assert pieces[1..][1..][1..] == [""];
    assert pieces[1..][1..] == [w2, ""];
    assert pieces[1..] == ["", w2, ""];
    var tail := w2 + "," + "";
    assert JoinWith([w2, ""], ",") == tail;
    assert JoinWith(["", w2, ""], ",") == "" + "," + tail;
    assert JoinWith(pieces, ",") == w1 + "," + ("" + "," + tail);
    assert "" + "," + tail == "," + w2 + ",";
    assert w1 + "," + ("," + w2 + ",") == w1 + ",," + w2 + ",";
  }

  lemma TrimBlanks(w1: string, w2: string)
    requires Typed(w1) && Typed(w2)
    ensures TrimAll([w1, "", w2, ""]) == [w1, "", w2, ""]
  {
    StripKeepsStripped(w1, IsJsSpace);
    StripKeepsStripped(w2, IsJsSpace);
    assert All("", IsJsSpace);
  }

  lemma KeepTyped(w1: string, w2: string)
    requires w1 != "" && w2 != ""
    ensures NonEmpty([w1, "", w2, ""]) == [w1, w2]
  {
    NonEmptyAppend([w1, ""], [w2, ""]);
    var u := [w1, ""];
    assert u[1..] == [""] && u[1..][1..] == [];
    var v := [w2, ""];
    assert v[1..] == [""] && v[1..][1..] == [];
    assert [w1, ""] + [w2, ""] == [w1, "", w2, ""];
  }

  /** Padding of white space on both sides of a typed word is trimmed away. */
  lemma TrimPadding(pre: string, w: string, post: string)
    requires All(pre, IsJsSpace) && All(post, IsJsSpace) && Typed(w)
    ensures Trim(pre + w + post) == w
  {
    StripRemovesPadding(pre, w, post, IsJsSpace);
  }

  /** An empty field sends no stop words. */
  lemma SplitStopWordsEmpty()
    ensures SplitStopWords("") == []
  {
    SplitOnNone("", ',');
    assert All("", IsJsSpace);
  }

  /** Two typed words with a comma and a space between them are sent as those two words. */
  lemma SplitStopWordsPair(w1: string, w2: string)
    requires Typed(w1) && Typed(w2)
    ensures SplitStopWords(w1 + ", " + w2) == [w1, w2]
  {
    StripKeepsStripped(w1, IsJsSpace);
    SpacedWord(w2);
    JoinPair(w1, w2);
    SplitStopWordsOfPadded([w1, " " + w2], [w1, w2]);
  }

  /** A typed word after one space: no comma, and trimming gives the word. */
  lemma SpacedWord(w: string)
    requires Typed(w)
    ensures ',' !in " " + w && Trim(" " + w) == w
  {
    assert All(" ", IsJsSpace) && All("", IsJsSpace);
    TrimPadding(" ", w, "");
    assert " " + w + "" == " " + w;
  }

  lemma JoinPair(w1: string, w2: string)
    ensures JoinWith([w1, " " + w2], ",") == w1 + ", " + w2
  {
    assert [w1, " " + w2][1..] == [" " + w2];
    assert w1 + "," + (" " + w2) == w1 + ", " + w2;
  }

  /** `"the, a"` sends `["the", "a"]`. */
  lemma SplitStopWordsExample()
    ensures SplitStopWords("the, a") == ["the", "a"]
  {
    assert Typed("the") && Typed("a");
    assert "the" + ", " + "a" == "the, a";
    SplitStopWordsPair("the", "a");
  }

  // ---------------------------------------------------------------------
  // The component's state (lines 27-33, 35-81)
  // ---------------------------------------------------------------------

  /** What the `fetch` of `handleSubmit` led to (lines 41-51, 57). */
  datatype Outcome =
    | Replied(success: bool, data: Option<AnalysisData>, error: Option<string>)
    | TransportFailure  // the request failed or the reply was not JSON

  datatype Download = Download(content: string, fileName: string, mimeType: string)

  /** One bar of the chart (lines 77-80). */
  datatype ChartPoint = ChartPoint(word: string, count: nat)

  /** One row of the table (lines 260-268); even rows are white, odd rows grey. */
  datatype TableRow = TableRow(word: string, count: nat, white: bool)

  const ServerErrorFallback := "An error occurred"
  const TransportError := "Failed to analyze URL. Please ensure the backend server is running."

  /** The message shown for a failed reply: the server's, or the fallback when it is empty or absent. */
  function ReplyError(error: Option<string>): (m: string)
    ensures m != ""
    ensures error.Some? && error.value != "" ==> m == error.value
    ensures error.None? || error.value == "" ==> m == ServerErrorFallback
  {
    if error.Some? && error.value != "" then error.value else ServerErrorFallback
  }

  class Analyzer {
    var url: string
    var numResults: int
    var customStopWords: string
    var results: Option<AnalysisData>
    var loading: bool
    var error: string
    var showGraph: bool

    /** The initial state (lines 27-33). */
    constructor ()
      ensures url == "" && numResults == 10 && customStopWords == ""
      ensures results == None && !loading && error == "" && !showGraph
    {
      url := "";
      numResults := 10;
      customStopWords := "";
      results := None;
      loading := false;
      error := "";
      showGraph := false;
    }

    /** The body `handleSubmit` posts (lines 44-48). */
    function Body(): (req: Request)
      reads this
      ensures req.url.Given? && req.numResults.Given? && req.stopWords.Given?
      ensures HasUrl(req) <==> url != ""
      ensures forall i :: 0 <= i < |req.stopWords.value| ==> Typed(req.stopWords.value[i])
    {
      Request(Given(url), Given(numResults), Given(SplitStopWords(customStopWords)))
    }

    /** The start of `handleSubmit` (lines 37-38): busy, with no error shown. */
    method Dispatch() returns (req: Request)
      modifies this
      ensures loading && error == ""
      ensures req == old(Body())
      ensures url == old(url) && numResults == old(numResults)
      ensures customStopWords == old(customStopWords)
      ensures results == old(results) && showGraph == old(showGraph)
    {
      req := Body();
      loading := true;
      error := "";
    }

    /** The rest of `handleSubmit` once the outcome is known (lines 52-61). */
    method Settle(outcome: Outcome)
      modifies this
      ensures !loading
      ensures outcome.Replied? && outcome.success ==> results == outcome.data && error == old(error)
      ensures outcome.Replied? && !outcome.success ==>
                results == old(results) && error == ReplyError(outcome.error)
      ensures outcome.TransportFailure? ==> results == old(results) && error == TransportError
      ensures url == old(url) && numResults == old(numResults)
      ensures customStopWords == old(customStopWords) && showGraph == old(showGraph)
    {
      match outcome {
        case Replied(success, data, e) =>
          if success {
            results := data;
          } else {
            error := ReplyError(e);
          }
        case TransportFailure =>
          error := TransportError;
      }
      loading := false;
    }

    /**
     * `handleSubmit` from start to end. Loading ends false, an error is shown
     * exactly when the outcome is not a successful reply, and only a
     * successful reply replaces the previous results.
     */
    method Submit(outcome: Outcome) returns (req: Request)
      modifies this
      ensures req == old(Body())
      ensures !loading
      ensures error == "" <==> outcome.Replied? && outcome.success
      ensures outcome.Replied? && outcome.success ==> results == outcome.data
      ensures !(outcome.Replied? && outcome.success) ==> results == old(results)
      ensures outcome.Replied? && !outcome.success ==> error == ReplyError(outcome.error)
      ensures outcome.TransportFailure? ==> error == TransportError
      ensures url == old(url) && numResults == old(numResults)
      ensures customStopWords == old(customStopWords) && showGraph == old(showGraph)
    {
      req := Dispatch();
      Settle(outcome);
    }

    /** `handleExport` (lines 64-73): no download without results, else the CSV as sent. */
    method Export() returns (d: Option<Download>)
      ensures d.None? <==> results.None?
      ensures results.Some? ==>
                d == Some(Download(results.value.csvExport, "word-frequency.csv", "text/csv"))
    {
      if results.None? {
        return None;
      }
      d := Some(Download(results.value.csvExport, "word-frequency.csv", "text/csv"));
    }

    /** `chartData` (lines 76-81): one bar per entry, in the order of the entries. */
    function ChartData(): (r: seq<ChartPoint>)
      reads this
      ensures results.None? ==> r == []
      ensures results.Some? ==> |r| == |results.value.wordFrequency|
      ensures results.Some? ==> forall i :: 0 <= i < |r| ==>
                r[i].word == results.value.wordFrequency[i].0 && r[i].count == results.value.wordFrequency[i].1
    {
      if results.None? then []
      else
        var f := results.value.wordFrequency;
        seq(|f|, i requires 0 <= i < |f| => ChartPoint(f[i].0, f[i].1))
    }

    /** The table body (lines 166, 260-268): one row per entry, striped. */
    function TableRows(): (r: seq<TableRow>)
      reads this
      ensures results.None? ==> r == []
      ensures results.Some? ==> |r| == |results.value.wordFrequency|
      ensures results.Some? ==> forall i :: 0 <= i < |r| ==>
                r[i] == TableRow(results.value.wordFrequency[i].0, results.value.wordFrequency[i].1, i % 2 == 0)
    {
      if results.None? then []
      else
        var f := results.value.wordFrequency;
        seq(|f|, i requires 0 <= i < |f| => TableRow(f[i].0, f[i].1, i % 2 == 0))
    }

    /** The chart and the table show the same (word, count) pairs in the same order. */
    lemma ChartMatchesTable()
      ensures |ChartData()| == |TableRows()|
      ensures forall i :: 0 <= i < |ChartData()| ==>
                ChartData()[i].word == TableRows()[i].word && ChartData()[i].count == TableRows()[i].count
    {
    }

    /** The list button (line 220). */
    method ShowList()
      modifies this
      ensures !showGraph
      ensures url == old(url) && numResults == old(numResults) && customStopWords == old(customStopWords)
      ensures results == old(results) && loading == old(loading) && error == old(error)
    {
      showGraph := false;
    }

    /** The chart button (line 226). */
    method ShowGraph()
      modifies this
      ensures showGraph
      ensures url == old(url) && numResults == old(numResults) && customStopWords == old(customStopWords)
      ensures results == old(results) && loading == old(loading) && error == old(error)
    {
      showGraph := true;
    }
  }
}
