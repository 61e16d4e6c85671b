# Word Frequency Analyzer — a Dafny model

The Word Frequency Analyzer is a Flask backend plus a React page. The backend fetches a web page and normalises its text. It then counts the words that are not stop words and answers with:

- the most common words;
- a few statistics;
- a CSV export of both.

The page splits the user's custom stop words, posts the request, and keeps `loading` / `error` / `results` state. It draws the answer as a table or a bar chart and offers the CSV for download.

This project models, in Dafny:

- **`clean_and_count_words`** (`app.py`), step by step:
  - whitespace collapsing and ASCII lower-casing;
  - the `http\S+|www\S+` substitution and digit removal;
  - whitespace splitting and `strip(string.punctuation)`;
  - stop-word filtering, `Counter` and `most_common`;
  - the statistics.

  Module `WordCount`, with Python's string primitives in `PyStr` and generic strip/split helpers in `Strings`.
- **`generate_csv`**, as a method that appends one encoded record per row, as `csv.writer` does in the "excel" dialect. Beside it sits a reader for the format of section 2 of RFC 4180, and a proof that reading the export back gives exactly the rows written (module `Csv` and `Backend.GenerateCsv`).
- **`analyze_url`**: stop-word tables, stop-word union, `numResults` default, URL validation and the success/error envelope. The fetched page is an input (module `Backend`).
- **The React component** (module `Frontend`), covering:
  - the stop-word tokenizer of line 47;
  - class `Analyzer` for the component's state and `handleSubmit` / `handleExport`;
  - the chart and table derivations.

`most_common(n)` is modelled as a stable sort by count, descending, followed by the first `n` entries. That is the order `Counter.most_common` documents. It is checked against the ordering "higher count first; for equal counts, earlier first occurrence first". `MostCommonOrder` proves the model meets it.

## Model

| member | source | states |
|---|---|---|
| PyStr.Split | app.py:34 | `str.split()`: every piece is a non-empty token without whitespace, made of characters of the input |
| PyStr.SplitJoinSpace | app.py:34 | splitting the space-join of tokens gives those tokens back |
| PyStr.SplitSkipsSpace | app.py:43 | leading whitespace of any length adds no piece |
| PyStr.SplitToken | app.py:43 | a token followed by a whitespace character is the first piece, and the rest is split in turn |
| PyStr.SplitGap | app.py:43 | two tokens separated by any run of whitespace (such as the double space that digit removal leaves in `"a 123 b"`) split into those two tokens |
| PyStr.SplitBlank | app.py:43 | text made only of whitespace has no pieces |
| PyStr.SplitSingle | app.py:43 | a whitespace-free string is a single piece; with `SplitToken` and `SplitSkipsSpace` this fixes `split()` on every input |
| PyStr.Lower | app.py:34 | ASCII `lower()`: same length, each character lower-cased independently |
| WordCount.Normalise | app.py:34 | the normalised text is single-spaced and has no upper-case letter |
| WordCount.NormalisedWords | app.py:34 | the words of the normalised text are the input's words, each lower-cased |
| WordCount.StripUrls | app.py:37 | URL removal never lengthens the text or introduces a character |
| WordCount.StripUrlsRemovesAll | app.py:37 | after the substitution no position starts a match of `http\S+` or `www\S+` |
| WordCount.StripUrlsPrefix | app.py:37 | a removed URL never eats the text before it: the output's leading non-space run is a prefix of the input |
| WordCount.StripUrlsUnchanged | app.py:37 | text with no match is left untouched |
| WordCount.StripUrlsSpace | app.py:37 | `\S+` never crosses whitespace: a whitespace character is kept and the text on each side of it is substituted on its own |
| WordCount.FirstUrl | app.py:37 | the position where the first match of `http\S+` or `www\S+` in a word starts (the word's length when there is none): no match starts earlier, one starts there |
| WordCount.StripUrlsWord | app.py:37 | in a whitespace-free word everything before the first match is kept and everything from it on is removed; with `StripUrlsSpace` this fixes the result of line 37 for every input |
| WordCount.RemoveDigits | app.py:40 | the result has no digit and only characters of the input |
| WordCount.RemoveDigitsKeepsOthers | app.py:40 | every non-digit character keeps its number of occurrences |
| WordCount.RemoveDigitsAppend | app.py:40 | digit removal distributes over concatenation |
| WordCount.StripPunctuation | app.py:43 | the stripped word has no punctuation at either end, is empty exactly when the word is all punctuation, and keeps only the word's characters |
| WordCount.KeepWords | app.py:46 | kept words are non-empty, not stop words, and every other word keeps its multiplicity |
| WordCount.KeepWordsAppend | app.py:46 | the filter keeps the words' order: filtering a concatenation concatenates the filtered parts, so `Counter`'s first-occurrence ties are those of the split words |
| WordCount.CleanText | app.py:34-40 | the cleaned text has no upper-case letter and no digit |
| WordCount.CleanWords | app.py:43-46 | every counted word is non-empty, lower-case, digit-free, has no whitespace, no punctuation at either end, and is not a stop word |
| WordCount.CleanWordCountable | app.py:43-46 | the same, for any word in the list |
| WordCount.Distinct | app.py:49-53 | the distinct words: no repeats, the same members as the list |
| WordCount.DistinctFirstOccurrence | app.py:49 | `Counter` keeps words in order of first occurrence |
| WordCount.DistinctCard | app.py:53 | the number of distinct words is the size of `set(words)` |
| WordCount.Entries | app.py:49 | each `Counter` entry pairs a word with its number of occurrences |
| WordCount.SortByCount | app.py:57 | sorting by count is a permutation of the entries |
| WordCount.InsertByCount | app.py:57 | one insertion step adds exactly the new entry |
| WordCount.SortRanked | app.py:57 | the stable sort orders by count descending, ties by original position |
| WordCount.KeptCount | app.py:57 | `most_common(n)` keeps all entries for `None`, none for `n <= 0`, otherwise `min(n, size)` |
| WordCount.MostCommonCounts | app.py:49-57 | each kept count is the word's number of occurrences, and at least 1; kept words are distinct |
| WordCount.MostCommonOrder | app.py:57 | kept entries run by non-increasing count, ties in order of first occurrence |
| WordCount.MostCommonSize | app.py:57 | at most `num_results` entries, at most the number of distinct words, and exactly so when there are enough |
| WordCount.MostCommonOmitted | app.py:57 | every omitted word of the text occurs less often than every kept word, or as often and first occurs after it: the cut keeps the first `n` places of the ranking |
| WordCount.OmittedWord | app.py:57 | the same for one omitted word and one kept entry |
| WordCount.StatisticsFacts | app.py:52-54 | `total_words` is the list's length; `unique_words` its number of distinct words, at most the total; the average is 0 with no words and at least 1 otherwise |
| WordCount.AverageTimesCount | app.py:54 | the average times the word count is the sum of the lengths |
| WordCount.AverageLength | app.py:54 | a non-empty list of non-empty words averages at least one character |
| WordCount.AnalysisStatistics | app.py:28-64 | the statistics returned are those of the filtered word list |
| WordCount.AnalysisEntries | app.py:43-57 | each returned entry is a countable word with its exact count, at least 1 |
| WordCount.CapitalisedStopWordIgnored | app.py:34-46 | adding a custom stop word with a capital letter changes nothing, because words are lower-cased (line 34) and custom stop words, added at lines 93 and 118, are not |
| WordCount.DigitInsideUrlIsCounted | app.py:37-40 | digit removal after URL removal can yield a word that starts with `http`: `"ht1tp://x"` is counted as `"http://x"` |
| Csv.EncodeField | app.py:68-75 | a field is quoted exactly when it holds a comma, a quote, CR or LF |
| Csv.EscapeChar | app.py:68-75 | inside a quoted field a quote is written as two quotes and every other character as itself |
| Csv.EscapeAppend | app.py:68-75 | escaping works character by character, so with `EscapeChar` it is fixed for every field |
| Csv.EscapeLength | app.py:68-75 | escaping adds exactly one character per quote in the field |
| Csv.SerializeAppend | app.py:66-84 | the writer's output for two batches of rows is the concatenation of their outputs |
| Csv.FieldRoundTrip | app.py:68-75 | reading an encoded field back gives the field and the text after it |
| Csv.RecordRoundTrip | app.py:68 | reading an encoded record back gives the record, including the empty row and the row holding one empty field |
| Csv.ParseSerialize | app.py:66-84 | parsing the writer's output gives back exactly the rows written |
| Csv.RecordEndsInCrlf | app.py:68 | every record ends in CR LF |
| Backend.GenerateCsv | app.py:66-84 | the buffer after the loop is the encoding of the header, the entries in order, a blank row and the statistics block; it parses back to those `n + 6` rows |
| Backend.CsvRowsLayout | app.py:71-82 | the header is `Word,Frequency`, row `1 + i` is entry `i`, then a blank row, `Statistics,`, and the three statistic rows |
| Backend.ExportReadBack | app.py:75-81 | every word, count and total can be read back from its cell as a decimal |
| Backend.FrequencyRows | app.py:74-75 | one `[word, count]` row per entry, in order |
| Backend.EffectiveStopWords | app.py:118 | the stop words are the language's defaults (English when unknown) together with every custom word, and nothing else |
| Backend.DefaultStopWordsAreWords | app.py:16-20 | every default stop word is a lower-case letter word, so it can match a counted word |
| Backend.Limit | app.py:92 | `numResults` is 10 when absent, unbounded for `null`, the given value otherwise |
| Backend.AnalyzeUrl | app.py:86-144 | a `null` stop-word list fails with 500 first; a missing or empty URL fails with 400 `URL is required` before any fetch; a fetch error gives 400, any other error 500; a page gives the analysis with the effective stop words, and its `csv_export` is exactly the text `generate_csv` writes for that analysis, which parses back to its rows |
| Strings.NatToStringRoundTrip | app.py:75-81 | a count written in decimal reads back as the same number |
| Strings.SplitOnJoin | frontend/app/components/WordFrequencyAnalyzer.tsx:47 | `split(',')` loses nothing: joining the pieces with commas gives the input |
| Strings.JoinThenSplitOn | frontend/app/components/WordFrequencyAnalyzer.tsx:47 | splitting a comma-join of comma-free pieces gives the pieces |
| Strings.StripBy | frontend/app/components/WordFrequencyAnalyzer.tsx:47 | stripping leaves no dropped character at either end, is empty exactly for all-dropped input, keeps only input characters |
| Frontend.Trim | frontend/app/components/WordFrequencyAnalyzer.tsx:47 | `trim()` leaves no ECMAScript white space at either end |
| Frontend.NonEmpty | frontend/app/components/WordFrequencyAnalyzer.tsx:47 | `filter(Boolean)` keeps only non-empty strings, and each non-empty string as often as it occurs |
| Frontend.NonEmptyAppend | frontend/app/components/WordFrequencyAnalyzer.tsx:47 | the filter keeps order: filtering a concatenation concatenates the filtered parts |
| Frontend.SplitStopWordsOfPieces | frontend/app/components/WordFrequencyAnalyzer.tsx:47 | any comma-free pieces joined by commas parse to those pieces trimmed, blank ones dropped, the rest in order |
| Frontend.SplitStopWordsSkipsBlanks | frontend/app/components/WordFrequencyAnalyzer.tsx:47 | `"w1,,w2,"` parses to `[w1, w2]`: an empty entry and a trailing comma send nothing |
| Frontend.SplitStopWords | frontend/app/components/WordFrequencyAnalyzer.tsx:47 | every parsed stop word is non-empty, trimmed, and has no comma |
| Frontend.SplitStopWordsChars | frontend/app/components/WordFrequencyAnalyzer.tsx:47 | parsed stop words are made of the input's characters |
| Frontend.SplitStopWordsOfPadded | frontend/app/components/WordFrequencyAnalyzer.tsx:47 | words typed with any padding and joined by commas parse back to those words, in order |
| Frontend.SplitStopWordsPair | frontend/app/components/WordFrequencyAnalyzer.tsx:47 | `"w1, w2"` parses to `[w1, w2]` |
| Frontend.SplitStopWordsExample | frontend/app/components/WordFrequencyAnalyzer.tsx:47 | `"the, a"` parses to `["the", "a"]` |
| Frontend.SplitStopWordsEmpty | frontend/app/components/WordFrequencyAnalyzer.tsx:47 | an empty input parses to `[]` |
| Frontend.ReplyError | frontend/app/components/WordFrequencyAnalyzer.tsx:55 | the server's message when it is non-empty, `An error occurred` otherwise; never empty |
| Frontend.Analyzer.constructor | frontend/app/components/WordFrequencyAnalyzer.tsx:27-33 | the initial state: empty URL, 10 results, no stop words, no results, not loading, no error, list view |
| Frontend.Analyzer.Body | frontend/app/components/WordFrequencyAnalyzer.tsx:44-48 | the posted body carries the URL, the count and the parsed stop words; it has a URL exactly when the field is non-empty |
| Frontend.Analyzer.Dispatch | frontend/app/components/WordFrequencyAnalyzer.tsx:37-48 | submitting sets `loading` and clears `error`, posts the body of the current fields, and changes nothing else |
| Frontend.Analyzer.Settle | frontend/app/components/WordFrequencyAnalyzer.tsx:51-61 | success stores the data; a server failure sets the reply's error; a transport failure sets the fixed message; failures keep the previous results; `loading` ends false |
| Frontend.Analyzer.Submit | frontend/app/components/WordFrequencyAnalyzer.tsx:35-62 | the whole `handleSubmit`: `error` ends empty exactly on success; results are replaced only on success; `loading` ends false; the form fields are unchanged |
| Frontend.Analyzer.Export | frontend/app/components/WordFrequencyAnalyzer.tsx:64-73 | no download without results; otherwise one download of `csv_export` verbatim, named `word-frequency.csv`, of type `text/csv` |
| Frontend.Analyzer.ChartData | frontend/app/components/WordFrequencyAnalyzer.tsx:76-81 | empty without results; otherwise one bar per entry, same word and count, same order |
| Frontend.Analyzer.TableRows | frontend/app/components/WordFrequencyAnalyzer.tsx:260-268 | one row per entry in order, white on even indices |
| Frontend.Analyzer.ChartMatchesTable | frontend/app/components/WordFrequencyAnalyzer.tsx:76-81 | the chart and the table (line 260) show the same (word, count) pairs in the same order |
| Frontend.Analyzer.ShowList | frontend/app/components/WordFrequencyAnalyzer.tsx:220 | the list button selects the table and changes nothing else |
| Frontend.Analyzer.ShowGraph | frontend/app/components/WordFrequencyAnalyzer.tsx:226 | the graph button selects the chart and changes nothing else |

### Behaviour of the code worth knowing

- A failed reply keeps the previous `results` (WordFrequencyAnalyzer.tsx:54-56): only `error` is set. `Settle` and `Submit` model this for both kinds of failure.
- A counted word can start with `http`. URLs go at app.py:37, before digits at app.py:40, so `ht1tp://x` is counted as `http://x`. `StripUrlsRemovesAll` proves that no match survives line 37. `DigitInsideUrlIsCounted` exhibits the word that line 40 then produces.
- A JSON body with `"stopWords": null` makes `set(None)` raise at app.py:93, before the URL check. The reply is a 500 `Analysis failed: 'NoneType' object is not iterable` even when the URL is missing. `AnalyzeUrl` states this ordering.

## Left out

- Fetching the page, `raise_for_status`, BeautifulSoup parsing and element removal (app.py:103-114) are network I/O and foreign libraries. Their outcome is the `FetchOutcome` parameter of `AnalyzeUrl`: the page text, a `RequestException` message, or another exception message.
- `langdetect` (app.py:22-26) is foreign and nondeterministic. It is called twice (app.py:30 and 117), so `AnalyzeUrl` takes two language parameters.
- Flask routing, CORS, `request.get_json` and `jsonify` are framework plumbing. Only the success/error envelope and its status code are modelled. `jsonify` sorts object keys by default, so the browser may see `word_frequency` in a different order from the one built; the front end is modelled on the order it receives.
- JSON values outside the model's types are left out: `Request` holds an object body whose `url` is a string, whose `numResults` is an integer and whose `stopWords` is a list of strings. What app.py does with the others:
  - a body that is not an object (an array, a number, `null`) has no `get`, so app.py:91 raises `AttributeError` and the reply is a 500 `Analysis failed: …` (app.py:140-144);
  - a `url` that is not a string: a falsy one (`0`, `false`, `[]`) is answered with `URL is required` at app.py:96; `requests.get` turns any other into its `str`, which is not a valid URL, so the reply is a 400 `Failed to fetch URL: …` (app.py:134);
  - a `stopWords` string such as `"the"` becomes the set of its characters at app.py:93, so the one-letter words `t`, `h` and `e` are dropped; an object becomes the set of its keys;
  - a `stopWords` list with hashable elements that are not strings (`1`, `null`, `true`) builds its set; those elements never equal a word, so they remove nothing;
  - a `stopWords` list with an unhashable element (a list, an object), or a `stopWords` number or boolean, makes `set()` at app.py:93 raise `TypeError`: a 500 `Analysis failed: …`;
  - a `numResults` of `true` or `1.0` equals 1, so `heapq.nlargest`, which `most_common` calls, takes its `n == 1` branch and keeps the single most frequent word; `false` acts as 0 and keeps none;
  - any other `numResults` that is not an integer (`2.5`, `"5"`, a list) makes `nlargest` raise `TypeError` when it compares it with the number of entries, slices with it or calls `range` on it: a 500 `Analysis failed: …`.
- WordCount.StatisticsFacts: the average is the exact quotient, not the floating-point value and not `round(..., 2)` (app.py:54, 61), because floating point is not modelled.
- Backend.GenerateCsv: the text of the average's cell comes from the `renderAverage` parameter (Python's `str` of a float), and `0` when there are no words, because float formatting is not modelled.
- Only ASCII is modelled for Python's `lower()`, `\d`, `\s` and `string.punctuation`, so Unicode letters, digits and spaces are left out. ECMAScript's `trim()` is modelled with its full white-space and line-terminator set.
- Frontend.Analyzer.Submit: the `fetch` call, `await` and JSON parsing are folded into one `Outcome` input: a reply with `success`, `data` and `error`, or a transport failure. Interleaving with other events while the request is pending is a concurrency concern and is not modelled.
- Frontend.Analyzer.Export: the Blob, object URL and synthetic click are DOM I/O; the model returns the one download as a value.
- The browser's form validation is left out: `type="url"` and `required` on the URL input (lines 101 and 108 of the component) and `min="1" max="100"` on the count input (lines 114-115). `Dispatch` posts whatever URL and whatever integer the fields hold; an empty URL is refused by the backend (`AnalyzeUrl`).
- `e.preventDefault()` is DOM I/O and is left out, as are the input setters (lines 103, 113, 146 of the component), JSX rendering, Tailwind and recharts.
- `frontend/app/page.tsx` only wraps the component, and `frontend/app/types/index.tsx` only declares interfaces. Neither is part of this model.
- The `/api/test` endpoint (app.py:146-151) is a constant reply and is not part of this model.
