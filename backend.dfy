/**
 * The `/api/analyze` handler of the Flask backend (app.py:86-144) and the
 * CSV export it attaches (app.py:66-84). Fetching the page, parsing its HTML
 * and detecting its language happen outside the model: their outcomes are
 * parameters.
 */
module Backend {
  import opened Options
  import opened Strings
  import opened PyStr
  import opened Csv
  import opened WordCount

  // ---------------------------------------------------------------------
  // Default stop words (app.py:16-20, 118)
  // ---------------------------------------------------------------------

  const English: set<string> :=
    {"the", "be", "to", "of", "and", "a", "in", "that", "have", "for", "it", "with", "is", "on",
     "you", "this"}
  const Spanish: set<string> := {"el", "la", "de", "que", "y", "en", "un", "ser", "por"}
  const French: set<string> := {"le", "la", "de", "et", "en", "un", "une", "que"}

  /** `STOP_WORDS`, keyed by language code. */
  const StopWordTable: map<string, set<string>> := map["en" := English, "es" := Spanish, "fr" := French]

  /**
   * `STOP_WORDS.get(lang, STOP_WORDS['en']).union(custom)` (app.py:118): the
   * default list of the detected language, English when there is none, and
   * every custom word.
   */
  function EffectiveStopWords(lang: string, custom: set<string>): (r: set<string>)
    ensures custom <= r
    ensures lang in StopWordTable ==> StopWordTable[lang] <= r
    ensures lang !in StopWordTable ==> English <= r
    ensures forall w :: w in r && w !in custom ==>
              w in (if lang in StopWordTable then StopWordTable[lang] else English)
  {
    (if lang in StopWordTable then StopWordTable[lang] else English) + custom
  }

  /** A non-empty word of lower-case ASCII letters. */
  predicate LetterWord(w: string)
  {
    w != [] && forall i :: 0 <= i < |w| ==> 'a' <= w[i] <= 'z'
  }

  lemma EnglishLetterWords()
    ensures forall w :: w in English ==> LetterWord(w)
  {
  }

  lemma SpanishLetterWords()
    ensures forall w :: w in Spanish ==> LetterWord(w)
  {
  }

  lemma FrenchLetterWords()
    ensures forall w :: w in French ==> LetterWord(w)
  {
  }

  /**
   * Every default stop word has the shape of a counted word, so each of them
   * can match (unlike a custom word with a capital letter).
   */
  lemma DefaultStopWordsAreWords(lang: string, w: string)
    requires w in EffectiveStopWords(lang, {})
    ensures w != "" && IsToken(w) && NoneOf(w, IsUpper) && NoneOf(w, IsDigit)
    ensures !IsPunctuation(w[0]) && !IsPunctuation(w[|w| - 1])
  {
    EnglishLetterWords();
    SpanishLetterWords();
    FrenchLetterWords();
    assert LetterWord(w);
  }

  // ---------------------------------------------------------------------
  // The request and the reply (app.py:90-93, 96-100, 126-144)
  // ---------------------------------------------------------------------

  /** A member of the JSON request body: absent, `null`, or given. */
  datatype Field<T> = Missing | Null | Given(value: T)

  datatype Request = Request(url: Field<string>, numResults: Field<int>, stopWords: Field<seq<string>>)

  /** What fetching and parsing the page led to (app.py:103-114, 134, 140). */
  datatype FetchOutcome =
    | Page(text: string)            // the page's visible text
    | RequestError(reason: string)  // a `requests.RequestException`
    | OtherError(reason: string)    // any other exception

  /** The `data` member of a successful reply (app.py:128-131). */
  datatype AnalysisData = AnalysisData(wordFrequency: seq<Entry>, statistics: Statistics,
                                       language: string, csvExport: string)

  datatype Response =
    | Success(data: AnalysisData)
    | Failure(status: nat, error: string)

  const UrlRequired := "URL is required"
  const FetchFailed := "Failed to fetch URL: "
  const AnalysisFailed := "Analysis failed: "
  /** What `set(None)` raises when the body holds `"stopWords": null` (app.py:93). */
  const NoneNotIterable := "'NoneType' object is not iterable"

  /** `data.get('numResults', 10)`: ten when absent, every entry for `null`. */
  function Limit(numResults: Field<int>): (r: Option<int>)
    ensures numResults.Missing? ==> r == Some(10)
    ensures numResults.Null? <==> r.None?
    ensures numResults.Given? ==> r == Some(numResults.value)
  {
    match numResults
    case Missing => Some(10)
    case Null => None
    case Given(n) => Some(n)
  }

  /** `url` is present and not the empty string (app.py:91, 96). */
  predicate HasUrl(req: Request)
  {
    req.url.Given? && req.url.value != ""
  }

  // ---------------------------------------------------------------------
  // generate_csv (app.py:66-84)
  // ---------------------------------------------------------------------

  /** The word rows of the export, one per entry in order. */
  function FrequencyRows(entries: seq<Entry>): (rows: seq<Row>)
    ensures |rows| == |entries|
    ensures forall i :: 0 <= i < |entries| ==>
              rows[i] == [entries[i].0, NatToString(entries[i].1)]
  {
    seq(|entries|, i requires 0 <= i < |entries| => [entries[i].0, NatToString(entries[i].1)])
  }

  /**
   * The closing block of the export. The average is written as `generate_csv`
   * writes it (app.py:82): the integer `0` when there are no words, otherwise the
   * floating-point value, whose text `renderAverage` gives.
   */
  function StatisticsRows(s: Statistics, renderAverage: real -> string): seq<Row>
  {
    [[], ["Statistics", ""],
     ["Total Words", NatToString(s.totalWords)],
     ["Unique Words", NatToString(s.uniqueWords)],
     ["Average Word Length", if s.totalWords == 0 then "0" else renderAverage(s.avgWordLength)]]
  }

  /** The rows `generate_csv` writes, in order. */
  function CsvRows(a: Analysis, renderAverage: real -> string): seq<Row>
  {
    [["Word", "Frequency"]] + FrequencyRows(a.wordFrequency) + StatisticsRows(a.statistics, renderAverage)
  }

  /**
   * `generate_csv(data)`: one `writerow` per row, appended to the buffer in
   * turn. Reading the text back gives the header, one row per entry, a blank
   * row and the statistics block: `n + 6` rows.
   */
  method GenerateCsv(a: Analysis, renderAverage: real -> string) returns (out: string)
    ensures out == Serialize(CsvRows(a, renderAverage))
    ensures Parse(out) == Some(CsvRows(a, renderAverage))
    ensures |CsvRows(a, renderAverage)| == |a.wordFrequency| + 6
  {
    var rows := CsvRows(a, renderAverage);
    out := "";
    for i := 0 to |rows|
      invariant out == Serialize(rows[..i])
    {
      SerializeSnoc(rows, i);
      out := out + EncodeRecord(rows[i]);
    }
    assert rows[..|rows|] == rows;
    ParseSerialize(rows);
    CsvRowsLayout(a, renderAverage);
  }

  /** Where each row of the export sits. */
  lemma CsvRowsLayout(a: Analysis, renderAverage: real -> string)
    ensures var rows := CsvRows(a, renderAverage); var n := |a.wordFrequency|;
      && |rows| == n + 6
      && rows[0] == ["Word", "Frequency"]
      && (forall i :: 0 <= i < n ==>
            rows[1 + i] == [a.wordFrequency[i].0, NatToString(a.wordFrequency[i].1)])
      && rows[n + 1] == []
      && rows[n + 2] == ["Statistics", ""]
      && rows[n + 3] == ["Total Words", NatToString(a.statistics.totalWords)]
      && rows[n + 4] == ["Unique Words", NatToString(a.statistics.uniqueWords)]
      && rows[n + 5][0] == "Average Word Length"
  {
  }

  /** Every word, count and total can be read back from its row of the export. */
  lemma ExportReadBack(a: Analysis, renderAverage: real -> string)
    ensures var rows := CsvRows(a, renderAverage); var n := |a.wordFrequency|;
      && (forall i :: 0 <= i < n ==>
            rows[1 + i][0] == a.wordFrequency[i].0
            && DecimalValue(rows[1 + i][1]) == a.wordFrequency[i].1)
      && DecimalValue(rows[n + 3][1]) == a.statistics.totalWords
      && DecimalValue(rows[n + 4][1]) == a.statistics.uniqueWords
  {
    var rows := CsvRows(a, renderAverage);
    var n := |a.wordFrequency|;
    CsvRowsLayout(a, renderAverage);
    forall i | 0 <= i < n
      ensures DecimalValue(rows[1 + i][1]) == a.wordFrequency[i].1
    {
      NatToStringRoundTrip(a.wordFrequency[i].1);
    }
    NatToStringRoundTrip(a.statistics.totalWords);
    NatToStringRoundTrip(a.statistics.uniqueWords);
  }

  // ---------------------------------------------------------------------
  // analyze_url (app.py:86-144)
  // ---------------------------------------------------------------------

  /**
   * `analyze_url()`. `fetched` is what fetching and parsing the page would
   * lead to; `stopLang` is the language detected at app.py:117 and
   * `reportLang` the one detected again inside `clean_and_count_words`
   * (app.py:30). The custom stop words are read (app.py:93) before the URL
   * is checked.
   */
  method AnalyzeUrl(req: Request, fetched: FetchOutcome, stopLang: string, reportLang: string,
                    renderAverage: real -> string) returns (r: Response)
    ensures req.stopWords.Null? ==> r == Failure(500, AnalysisFailed + NoneNotIterable)
    ensures !req.stopWords.Null? && !HasUrl(req) ==> r == Failure(400, UrlRequired)
    ensures !req.stopWords.Null? && HasUrl(req) ==>
      match fetched
      case RequestError(e) => r == Failure(400, FetchFailed + e)
      case OtherError(e) => r == Failure(500, AnalysisFailed + e)
      case Page(text) =>
        var custom := if req.stopWords.Given? then set w | w in req.stopWords.value else {};
        var a := CleanAndCountWords(text, EffectiveStopWords(stopLang, custom), Limit(req.numResults), reportLang);
        && r.Success?
        && r.data.wordFrequency == a.wordFrequency
        && r.data.statistics == a.statistics
        && r.data.language == reportLang
        && r.data.csvExport == Serialize(CsvRows(a, renderAverage))
        && Parse(r.data.csvExport) == Some(CsvRows(a, renderAverage))
  {
    if req.stopWords.Null? {
      return Failure(500, AnalysisFailed + NoneNotIterable);
    }
    var custom := if req.stopWords.Given? then set w | w in req.stopWords.value else {};
    if !HasUrl(req) {
      return Failure(400, UrlRequired);
    }
    match fetched {
      case RequestError(e) =>
        r := Failure(400, FetchFailed + e);
      case OtherError(e) =>
        r := Failure(500, AnalysisFailed + e);
      case Page(text) =>
        var stopWords := EffectiveStopWords(stopLang, custom);
        var analysis := CleanAndCountWords(text, stopWords, Limit(req.numResults), reportLang);
        var csvData := GenerateCsv(analysis, renderAverage);
        r := Success(AnalysisData(analysis.wordFrequency, analysis.statistics, analysis.language, csvData));
    }
  }
}
