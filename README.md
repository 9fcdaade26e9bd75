# FIPE code batch resolution, modelled in Dafny

The system resolves a batch of FIPE vehicle-pricing codes. A browser client
and an Express server both:

- read codes from free text;
- normalise each code to the canonical `DDDDDD-D` shape;
- drop invalid tokens;
- deduplicate in first-seen order.

The server's `POST /api/fipe` handler merges the request's `codes` with the
codes parsed from its `text` and rejects an empty result with status 400.
Otherwise it looks up every code through a bounded pool of workers. The
results come back aligned with the merged codes, and every upstream failure
becomes a per-code record instead of aborting the batch. The client can
export the results as CSV.

The model has five modules:

- `Wrappers`: `Option`, standing for JavaScript's `null` and falsy values.
- `Text`: the JavaScript built-ins the code relies on:
  - `trim` and the regex class `\s`, as the ECMAScript WhiteSpace and
    LineTerminator characters;
  - `replace(/\D/g, "")`;
  - `String(n)` for a natural number;
  - `join`.
- `Codes`: `normalizeCode`, the `[\s,;]+` tokeniser, `parseCodesFromText`
  and `uniquePreserveOrder`. `public/app.js:13-48` has the same three
  functions as `server.js:12-47` with identical bodies; only
  `parseCodesFromText` is named `parseCodes` there. This module models both
  copies.
- `Server`: `fetchFipe` result shaping, `mapWithLimit` and the
  `POST /api/fipe` handler. The upstream service is a parameter: a function
  from a code to the outcome of fetching it.
- `Export`: `extractMainData`, `csvEscape` and `toCsv`, plus a reader for
  section 2 of RFC 4180. The export is proved to read back through that
  reader as the table it was built from.

`parseCodesFromText`, `uniquePreserveOrder`, `mapWithLimit` and `toCsv`
update arrays and sets in loops. They are modelled as methods with loops,
each proved against a specification function (`ParsedCodes`, `Unique`,
`CsvTable`/`EncodeLines`). The properties of those functions are proved as
lemmas. The rest of the code is pure, and is modelled as functions.

## Model

| member | source | states |
|---|---|---|
| Codes.NormalizeCode | server.js:12-25 | every code it returns has the canonical shape: six digits, `-`, one digit |
| Codes.NormalizeBlank | server.js:13-16 | empty or whitespace-only input is rejected |
| Codes.NormalizeKeepsCanonical | server.js:17 | input whose trimmed form is canonical comes back as that trimmed form |
| Codes.CanonicalIsFixedPoint | public/app.js:13-18 | a canonical code has no surrounding whitespace and normalises to itself |
| Codes.DigitsOfCanonical | server.js:17-21 | stripping the hyphen from a canonical code and reformatting the seven digits gives the code back |
| Codes.NormalizeByDigits | server.js:12-25 | input normalises exactly when it holds seven digits (wherever they are), and then to those digits as six, `-`, one; any other digit count gives null |
| Codes.NormalizeIdempotent | public/app.js:13-26 | normalising a normalised code returns it unchanged |
| Codes.NormalizeExamples | server.js:12-25 | `123456-7` and `1234567` and `12-34-567` give `123456-7`; `12345` and the empty string give null |
| Codes.FilterMapMembers | server.js:98 | a value survives map-then-filter exactly when some input maps to it |
| Codes.FilterMapAppend | server.js:98 | map-then-filter distributes over concatenation, which keeps the payload codes before the text codes |
| Codes.NormalizeAllMembers | server.js:98 | every kept code is canonical, and a code is kept exactly when some raw value normalises to it |
| Codes.NormalizeAllOfCanonical | server.js:98 | normalising a list of canonical codes returns the list unchanged |
| Codes.Split | server.js:29 | the pieces of the text cut at every run of whitespace, `,` or `;` (SplitFromToken and SplitFromRun fix them as the maximal separator-free runs): at least one piece, none holding a separator, an empty first or last piece for a leading or trailing run, and one empty piece for the empty text |
| Codes.SplitFromTrailing | server.js:29 | a trailing run of separators yields an empty last piece |
| Codes.SkipSeparators | server.js:29 | a separator run is skipped completely: what remains is empty or starts with a non-separator |
| Codes.SkipSeparatorsSpec | server.js:29 | what is kept is a suffix of the text, and every character dropped is whitespace, `,` or `;` |
| Codes.SplitFromToken | server.js:29 | a text without separators splits into one piece, the text itself |
| Codes.SplitFromRun | server.js:29 | a maximal run of separators ends the current piece, and splitting resumes after it; with SplitFromToken this makes the pieces the maximal separator-free runs of the text, in order, with an empty piece for a leading or trailing run |
| Codes.SplitEdgesExample | server.js:29 | `,a,` splits into an empty piece, `a`, and an empty piece |
| Codes.SplitRunExample | server.js:29 | `ab ;c` splits into `ab` and `c` |
| Codes.SplitFromPieces | server.js:29 | splitting always yields at least one piece, and no piece contains whitespace, `,` or `;` |
| Codes.FilterMapSplitSkip | server.js:29-34 | the empty piece that a leading separator run produces contributes no code |
| Codes.ParseCodesFromText | server.js:27-36 | the loop returns the non-null normalisations of the split tokens, in order, and nothing for empty text |
| Codes.ParsedCodesMembers | public/app.js:28-37 | every parsed code is canonical, and a code is parsed exactly when some token of the text normalises to it |
| Codes.ParsedCodesConcat | server.js:27-36 | parsing two texts joined by a separator gives the codes of the first followed by the codes of the second |
| Codes.FilterMapSplitConcat | server.js:29-34 | the same, for a split that resumes inside a token and any normaliser that rejects the empty piece |
| Codes.FirstIndex | server.js:42 | the position of the first occurrence of a value, or the length when it is absent |
| Codes.UniquePreserveOrder | server.js:38-47 | the seen-set loop computes `Unique`: each value at its first occurrence, repeats dropped |
| Codes.UniqueSameElements | server.js:38-47 | the output holds exactly the values of the input |
| Codes.UniqueDistinct | server.js:38-47 | the output holds no value twice |
| Codes.UniqueFirstOccurrenceOrder | public/app.js:39-48 | output values appear in the order of their first occurrences in the input |
| Codes.UniqueOfDistinct | server.js:38-47 | input without repeats passes through unchanged |
| Codes.UniqueIdempotent | server.js:38-47 | deduplicating twice equals deduplicating once |
| Codes.UniqueExample | server.js:38-47 | `a b a c b` deduplicates to `a b c` |
| Server.FetchFipe | server.js:67-92 | every outcome becomes a record carrying the code. A non-ok response gives its status, and its trimmed body or the default message when that is blank, so the error is never blank. A parsed body gives `ok` with that data. A throw gives status 0 and the error's message, or `Falha inesperada` |
| Server.MapWithLimit | server.js:49-65 | result length equals input length; with at least one worker, slot `i` holds `mapper(items[i], i)` and indices are claimed once each, in order `0, 1, …`; with no worker every slot is empty and nothing is claimed |
| Server.HandleFipe | server.js:94-113 | 400 with the fixed message exactly when the merged codes are empty, and then no lookup; otherwise the count, the number of results and the number of merged codes agree, and with at least one worker, result `i` is the shaped outcome of looking up `merged[i]`, each merged code looked up once, in order; with none, every slot is empty and nothing is looked up |
| Server.MergedCodesSpec | server.js:95-99 | the merged codes are the deduplicated valid payload codes followed by the text codes; they are distinct and canonical, and are exactly the codes valid in either source |
| Server.MergedCodesOfCanonical | server.js:95-99 | a request carrying distinct canonical codes, as the browser client sends them, is resolved for exactly those codes, in order |
| Server.MergedCodesIdempotent | server.js:95-99 | merging the merged codes again changes nothing |
| Server.MergedCodesExample | server.js:95-99 | `000001-0, 000001-0, garbage, 000002-1` merges to `000001-0, 000002-1` |
| Export.ExtractMainData | public/app.js:69-72 | an array `data` gives its first element, or `{}` when it is empty or that element is falsy; any other `data` gives itself, or `{}` when falsy; a failed item gives `{}` |
| Export.CsvEscape | public/app.js:74-81 | null gives the empty field; a value without `"`, newline, `,` or `;` comes back unchanged; any other value comes back wrapped in double quotes |
| Export.CsvEscapeReadsBack | public/app.js:74-81 | an RFC 4180 reader recovers any escaped value exactly, whatever field or record follows it |
| Export.ReadQuotedDoubled | public/app.js:77-78 | doubling the quotes and closing with a quote is undone by reading a quoted field |
| Export.DoubleQuotesAppend | public/app.js:78 | quote doubling works piece by piece |
| Export.CsvEscapeExample | public/app.js:74-81 | `He said, "hi"` followed by a line break and `line2` is written as `"He said, ""hi""` followed by the line break and `line2"` |
| Export.EncodeRecordReadsBack | public/app.js:126-129 | a line of escaped cells joined by commas reads back as exactly those cells |
| Export.EncodeLinesReadBack | public/app.js:125-131 | lines of escaped records joined by line feeds read back as exactly those records |
| Export.ToRow | public/app.js:96-123 | a failed row has status `item.status` written in decimal without leading zeros (reading back as that number) or `erro` when the status is 0, the error or `Falha na consulta` (never empty), and empty vehicle columns. An ok row has status `ok`, an empty error, and the vehicle columns of the main record, with empty strings for missing fields. Only failed rows have a status other than `ok` |
| Export.CsvTable | public/app.js:83-131 | the table has one row more than there are results |
| Export.ToCsv | public/app.js:83-132 | the text is the header line, then one escaped line per result in order, joined by line feeds |
| Export.HeadersArePlain | public/app.js:84-94 | no header needs quoting, so the raw header line is also its escaped form |
| Export.ToCsvReadsBack | public/app.js:83-132 | read back under RFC 4180, the CSV text is the header row followed by the nine cells of each result's row, in order; every row has nine fields |
| Text.TrimSpec | server.js:14 | trimming removes whitespace from both ends only, and leaves neither end whitespace |
| Text.TrimIdempotent | server.js:78 | trimming a trimmed string changes nothing |
| Text.DigitsOfTrim | server.js:19 | trimming never removes a digit |
| Text.DecimalRoundTrip | public/app.js:100 | the decimal rendering of a status code reads back as that number |

## Left out

- The browser UI is not modelled: element lookups, `setStatus`, `setExportState`, `renderResults` with its ok-count summary, `downloadFile`, the event listeners, and `collectCodes` with its `FileReader` (public/app.js:1-11, 50-67, 134-275).
- The network and the Express plumbing are not modelled. This covers URL building, `fetch`, reading and parsing the body (server.js:68-71, 73, 82), routing, static files, `listen` and `GET /api/health`. An upstream call is an abstract `Outcome`.
- The JSON export and the timestamped file names (public/app.js:224, 233) are left out. They are library serialisation and clock reads.
- Server.MapWithLimit: the interleaving of concurrent workers over `Promise.all` is not modelled. Each slot is written only by the worker that claimed its index, so the model runs one worker alone. That worker produces the same slots.
- Server.HandleFipe: `concurrency` is an integer. A `NaN` from a non-numeric `FIPE_CONCURRENCY` behaves like 0 (no workers) and is not modelled separately. The default of 5 is configuration.
- Server.HandleFipe: raw payload codes, and a `text` that is not a string, are modelled by their `String(...)` conversion (server.js:14, 29). Every falsy JSON value converts to a string that normalises to null, so the `!raw` test is modelled as the test for the empty string. A `codes` value that is not an array is passed as the empty list. A value whose `String(...)` conversion throws, such as an object with an own `toString` key that is not a function (`{"toString":1}`), is not modelled: it passes the `!raw` and `!text` tests, the conversion throws a TypeError, and the handler rejects without sending either the 400 or the 200 reply.
- Text.IsWhitespace: the character set is fixed at the space separators of Unicode 15. The JavaScript engine's own Unicode version decides `trim` and `\s`. Strings are sequences of Unicode scalar values, not UTF-16 code units.
- Export.ToCsv: a `null` entry in the results (left by `mapWithLimit` when no worker ran) would make the source throw on `item.ok`. The model's results hold only complete records.
- Export.ReadDocument: the reader takes a line feed as the record separator, as `toCsv` writes it, where RFC 4180 uses CRLF. A value that holds a bare carriage return but no line feed is written unquoted.
- Upstream record fields hold their `String(...)` rendering. A field whose `String(...)` conversion throws (public/app.js:76) is not modelled; it makes `toCsv` throw. A field that is absent or falsy is None. A truthy entry that is not an object behaves as a record with no fields.
