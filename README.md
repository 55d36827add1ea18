# Marketing dashboard ingestion core in Dafny

This project models the local data pipeline of a single-page marketing dashboard. Everything else in the application is
user interface or calls to a remote language model. The pipeline has four parts:

- **The CSV reader (`parseCSV`).** It splits an uploaded text on line breaks and drops blank lines. The first remaining
  line is the header: its cells are trimmed and lower-cased. Every later line becomes a row keyed by the header names.
  The columns `impressions, clicks, conversions, spend, revenue, leads, orders` are read with `parseFloat`, and a value
  that does not parse becomes 0. Every other column keeps its trimmed text, or is `undefined` when the line is short.
  Each row then gets `ctr`, `cpa` and `cpc`, with a zero or absent denominator replaced by 1.
- **The summary statistics (`stats`).** They fold the whole dataset into totals. The empty dataset is all zeros. A
  non-empty dataset also gets the global CTR, as an unguarded percentage, and the global CPA, over the conversion total, or 1 when that total is zero.
- **The two shared stores.** These are the file registry (newest first) and the single row list. Starting an upload
  puts a `processing` entry at the front of the registry. Its reader completion appends the parsed rows and marks the
  entry `ready` with the row count. Removing a file filters the registry. It clears every row when the registry held at
  most one entry before the removal.
- **The semantic-search glue.** It builds a numbered sample of the first 30 rows and maps the indices the model returns
  back to rows. Indices that miss the dataset are dropped.

Modules, one per component: `Text` (JavaScript `split`, `join`, `trim`, `toLowerCase`), `Numbers` (division outcomes,
`parseFloat`, decimal rendering), `Rows` (the CSV reader), `Aggregate` (the statistics), `Ingest` (the registry and
dataset as the class `Workspace`), `Search` (sample and index mapping), and `Wrappers` (`Option`).

The pure parts are functions and lemmas. The stores are a class whose methods state the new registry and dataset in
terms of the old ones. Two properties of the stores are tracked:
- `Workspace.Clean`: no text field of the dataset contains a line break. It holds in the initial state and every
  method keeps it, so it holds in every reachable state.
- `Workspace.Valid`: `Clean`, plus ids are unique and the registry never reports more rows than the dataset holds.
  It is not kept unconditionally. It holds in the initial state. An upload keeps it exactly when its id is fresh, and
  the random ids of the source do not guarantee that. A completion always keeps it. A removal keeps it when the id is
  registered or the registry does not hold exactly one entry. Removing an unknown id from a one-entry registry clears
  the rows but keeps the entry, whose row count is then no longer backed by the dataset.

The model follows the code, including three behaviours a reader might not expect:
- A cell missing from a short line is `undefined`, not empty text.
- Removal clears the rows when the registry held at most one entry *before* the removal, not when it becomes empty.
  `RemovalEmptiesRegistry` shows that the two agree when ids are unique and the id is present.
  `RemovalOfUnknownIdKeepsEntry` shows where they part.
- Search drops only indices outside the dataset, not indices outside the 30-row sample.

## Model

| member | source | states |
|---|---|---|
| Text.TrimStart | App.tsx:77 | the result is a suffix of the input, everything cut is whitespace, and it does not start with whitespace |
| Text.TrimEnd | App.tsx:77 | the result is a prefix of the input, everything cut is whitespace, and it does not end with whitespace |
| Text.Trim | App.tsx:79 | a non-empty trimmed cell neither starts nor ends with whitespace |
| Text.TrimEmptyIff | App.tsx:74 | a line trims to the empty string exactly when every character is whitespace, which is the blank-line test |
| Text.TrimIdempotent | App.tsx:77 | trimming an already trimmed cell changes nothing |
| Text.LowerChar | App.tsx:77 | 'A'..'Z' map to 'a'..'z', every other character is kept, and the result is never an upper-case ASCII letter |
| Text.ToLower | App.tsx:77 | lower-casing keeps the length and maps each character on its own |
| Text.ToLowerIdempotent | App.tsx:77 | lower-casing twice is lower-casing once |
| Text.Split | App.tsx:74 | k separators give k + 1 pieces, and no piece contains the separator |
| Text.JoinSplit | App.tsx:74 | joining the pieces of a split with the separator restores the text, so splitting loses nothing |
| Text.SplitJoin | App.tsx:154 | splitting a join of separator-free pieces gives the same pieces back |
| Text.Join | App.tsx:154 | joining n separator-free pieces puts exactly n - 1 separators into the text |
| Text.CountAppend | App.tsx:154 | the separators of a concatenation are those of its parts |
| Numbers.Divide | App.tsx:145 | a division is finite exactly when the divisor is non-zero, and then quotient times divisor is the dividend; 0/0 is NaN |
| Numbers.Times | App.tsx:145 | scaling a finite result stays finite and scales its value; NaN and the infinities absorb the factor |
| Numbers.LeadingDigits | App.tsx:84 | the count covers a digit-only prefix and stops at the first non-digit |
| Numbers.DecimalValue | App.tsx:84 | a decimal literal's magnitude is non-negative and is zero exactly when all its digits are zero |
| Numbers.ParseFloat | App.tsx:84 | text without any decimal digit never parses to a number (it gives NaN) |
| Numbers.ParseUnsigned | App.tsx:84 | an unsigned literal never reads as a negative number, and reads as a number only when it holds a digit |
| Numbers.ParseFloatDigits | App.tsx:84 | a non-empty digit string parses to the number its digits spell |
| Numbers.ParseFloatNonNegative | App.tsx:84 | text without a leading minus sign never parses to a negative number |
| Numbers.NatToString | App.tsx:154 | the rendering of an index is a non-empty digit string without leading zeros |
| Numbers.DigitsValueOfNatToString | App.tsx:154 | reading the digits of a rendered number gives the number back |
| Numbers.ParseFloatNatToString | App.tsx:84 | parseFloat reads back any rendered natural number exactly |
| Numbers.LeadingDigitsConcat | App.tsx:154 | the digit prefix of a rendered index followed by a non-digit is exactly the index's digits |
| Rows.Cell | App.tsx:82 | a cell exists exactly when the line has that many values |
| Rows.NumberOrZero | App.tsx:84 | a cell that parses gives its parsed number; a missing cell or one that parses to NaN gives 0 |
| Rows.FieldValue | App.tsx:82-87 | a numeric column gets the cell's number (0 for NaN or a missing cell), any other column the cell's text, and `undefined` only for a missing cell |
| Rows.FieldValueKind | App.tsx:83-87 | a field is a number exactly under a numeric column, and `undefined` exactly for a missing cell under any other column |
| Rows.Assign | App.tsx:81-88 | assigning values to keys one by one gives a row whose keys are exactly those keys |
| Rows.AssignAt | App.tsx:81-88 | a key not repeated later holds the value assigned with it |
| Rows.AssignFrom | App.tsx:81-88 | every field holds the value assigned at one of its key's positions |
| Rows.Fields | App.tsx:80-88 | the row's keys are exactly the header names |
| Rows.FieldsAt | App.tsx:81-88 | a header name not repeated later holds the value of its own column's cell |
| Rows.FieldsShape | App.tsx:81-88 | every field is a number exactly under a numeric column, and any text field is one of the line's cells |
| Rows.NumberOr | App.tsx:91-93 | `row.k or d` is d for an absent key and is never zero when d is non-zero, so no ratio divides by zero |
| Rows.WithRatios | App.tsx:91-93 | the ratios are added as numbers, every other field is kept, and each ratio times its floored denominator gives back its numerator |
| Rows.HeaderNames | App.tsx:77 | there is one header name per comma-separated cell of the header line, and each is that cell trimmed and lower-cased |
| Rows.CellValues | App.tsx:79 | there is one value per comma-separated cell of a data line, and each is that cell trimmed |
| Rows.CellValuesTrimmed | App.tsx:79 | a data value is already trimmed, and every character of it comes from its line |
| Rows.ParseLine | App.tsx:78-93 | a row read from a line has exactly the header names and ctr, cpa and cpc as keys |
| Rows.HeaderNamesNormalised | App.tsx:77 | header names are already trimmed and lower case |
| Rows.NonBlank | App.tsx:74 | filtering never adds lines |
| Rows.NonBlankMember | App.tsx:74 | a line is kept exactly when it occurs in the text and is not blank |
| Rows.NonBlankAppend | App.tsx:74 | filtering distributes over concatenation, so kept lines stay in source order |
| Rows.LineOfText | App.tsx:74 | a line is read from the text exactly when it is a piece of the text split at line breaks and is not blank |
| Rows.ParseRows | App.tsx:78 | there is one row per data line |
| Rows.ParseCSV | App.tsx:73-78 | fewer than two non-blank lines give no rows; otherwise there is one row per non-blank line after the header |
| Rows.ParsedRowAt | App.tsx:78-96 | row k is the (k+1)-th non-blank line read under the header line, so rows keep source order |
| Rows.ParsedRowKeys | App.tsx:77-93 | a parsed row holds exactly the header names plus ctr, cpa and cpc |
| Rows.ParseLineWellTyped | App.tsx:81-93 | in a row read from a line, numbers stand exactly under the numeric and ratio keys |
| Rows.ParsedRowWellTyped | App.tsx:81-93 | every parsed row holds numbers exactly under the numeric and ratio keys |
| Rows.ParsedField | App.tsx:77-87 | under a header name that is not repeated, a row holds its cell: parsed number or 0, trimmed text, or undefined past the line's end |
| Rows.CtrWithoutImpressions | App.tsx:91 | a zero or absent impression count makes ctr equal to the click count |
| Rows.CpaFloor | App.tsx:92 | a zero or absent conversion count makes cpa equal to the spend |
| Rows.CpcFloor | App.tsx:93 | a zero or absent click count makes cpc equal to the spend |
| Rows.CtrInvert | App.tsx:91 | a non-zero impression count times ctr gives back the click count |
| Rows.CpaInvert | App.tsx:92 | a non-zero conversion count times cpa gives back the spend |
| Rows.CpcInvert | App.tsx:93 | a non-zero click count times cpc gives back the spend |
| Rows.RatiosExample | App.tsx:91-93 | the worked row with 1000 impressions, 50 clicks and 200 spend, and no conversions, gives ctr 0.05, cpa 200 and cpc 4 |
| Rows.RatiosNonNegative | App.tsx:91-93 | non-negative inputs give non-negative ratios |
| Rows.SingleLineYieldsNothing | App.tsx:74-75 | text without a line break yields no rows |
| Rows.ParseLineTextHasNoLineBreak | App.tsx:79-86 | text fields of a line without line breaks contain none |
| Rows.ParsedTextHasNoLineBreak | App.tsx:74-86 | no text field of a parsed row contains a line break |
| Rows.ParsedRowsHaveNoLineBreaks | App.tsx:73-97 | the rows of one upload carry no line break in any text field |
| Aggregate.RowTotals | App.tsx:135-141 | a row contributes each summed column's number, and 0 for a column it lacks |
| Aggregate.SumOfNothing | App.tsx:135-141 | rows that contribute nothing fold to the zero accumulator |
| Aggregate.SumSingle | App.tsx:135-141 | a single row folds to exactly its own contribution |
| Aggregate.SumStep | App.tsx:135-141 | each reduce step adds the next row's contribution to the accumulator |
| Aggregate.SumAppend | App.tsx:135-141 | the totals of a concatenated dataset are the sums of the totals of its parts |
| Aggregate.SumSwap | App.tsx:135-141 | swapping two appended blocks of rows leaves the totals unchanged |
| Aggregate.SumNonNegative | App.tsx:135-141 | non-negative rows fold to non-negative totals |
| Aggregate.StatsOf | App.tsx:143-147 | the CTR is finite exactly when impressions are non-zero, and then times impressions gives 100 times clicks; zero impressions give NaN without clicks, +Infinity with a positive click total and -Infinity with a negative one; the CPA times the floored conversions gives the spend |
| Aggregate.ComputeStats | App.tsx:133-148 | the reported totals are the fold `Sum`, which `SumOfNothing`, `SumSingle` and `SumAppend` pin down as the column-wise sum of the per-row contributions; a non-empty dataset reports the ratios of those totals |
| Aggregate.StatsOfEmpty | App.tsx:134 | the empty dataset reports zero totals, a finite zero CTR and a zero CPA |
| Aggregate.StatsCtrFinite | App.tsx:145 | the global CTR is finite exactly when the dataset is empty or its impressions are non-zero; then CTR times impressions is 100 times clicks |
| Aggregate.StatsCtrWithoutImpressions | App.tsx:145 | a non-empty dataset with zero impressions shows NaN without clicks and +Infinity with clicks |
| Aggregate.StatsCpaInverse | App.tsx:146 | the global CPA times the floored conversion total gives back the spend |
| Aggregate.StatsOrderIndependent | App.tsx:123 | appending two uploads' rows in either order gives the same statistics |
| Aggregate.StatsNonNegative | App.tsx:135-146 | non-negative rows give non-negative totals, CPA and finite CTR |
| Ingest.NewRecord | App.tsx:106-114 | a new entry has the given id and file metadata, status processing and row count 0 |
| Ingest.MarkReady | App.tsx:124-126 | completion keeps the registry's length |
| Ingest.MarkReadyAt | App.tsx:124-126 | only entries with the completed id become ready with the new count; every other entry and every id is unchanged |
| Ingest.MarkReadyAbsent | App.tsx:124-126 | a completion for an id no longer registered leaves the registry unchanged |
| Ingest.MarkReadyIds | App.tsx:124-126 | completion keeps the set of ids and their uniqueness |
| Ingest.MarkReadyAccounting | App.tsx:124-126 | with unique ids, completion raises the reported row total by at most the parsed count |
| Ingest.Without | App.tsx:179 | removal never adds entries |
| Ingest.WithoutMember | App.tsx:179 | removal keeps exactly the entries whose id differs |
| Ingest.WithoutAppend | App.tsx:179 | removal distributes over concatenation, so survivors keep their order |
| Ingest.WithoutKeepsInvariant | App.tsx:179 | removal keeps ids unique and never raises the reported row total |
| Ingest.WithoutPresent | App.tsx:179 | with unique ids, removing a present id drops exactly one entry |
| Ingest.RemovalEmptiesRegistry | App.tsx:178-181 | with unique ids and a present id, the rows are cleared exactly when the removal empties the registry |
| Ingest.RemovalOfUnknownIdKeepsEntry | App.tsx:178-181 | removing an unknown id from a one-entry registry keeps the entry, though the rows are cleared |
| Ingest.NoLineBreaksAppend | App.tsx:123 | appending rows without line breaks keeps the dataset free of them |
| Ingest.Workspace.constructor | App.tsx:48-49 | the stores start empty and satisfy `Clean` and `Valid` |
| Ingest.Workspace.RegisterUpload | App.tsx:105-116 | the new processing entry goes in front, existing entries keep their order, and the rows are unchanged; `Clean` is kept, and `Valid` then holds exactly when it held before and the id is fresh |
| Ingest.Workspace.CompleteIngest | App.tsx:119-126 | the parsed rows are appended after all earlier rows and the matching entries become ready with that count; the totals add up; `Clean` is kept and `Valid` is preserved |
| Ingest.Workspace.RemoveFile | App.tsx:178-181 | the entries with the id are removed; the rows are cleared exactly when the registry held at most one entry, and otherwise untouched; `Clean` is kept, and `Valid` is kept when the id was registered or the registry did not hold exactly one entry |
| Ingest.Workspace.SemanticSearch | App.tsx:150-156 | nothing happens for an empty query or dataset; otherwise the sample has one line per leading row, up to 30, and the results are the mapped rows |
| Ingest.Workspace.HandleFileUpload | App.tsx:99-116 | each selected file gets a processing entry, and the new entries stand in front, newest first; the rows are unchanged; `Clean` is kept, and `Valid` is kept when the resulting ids are unique |
| Ingest.CompleteTwo | App.tsx:119-126 | two completions grow the dataset by both parsed counts, and the statistics do not depend on which finished first |
| Search.Show | App.tsx:154 | a text field renders as its text, and any other field renders without a line break |
| Search.SampleLines | App.tsx:154 | the sample has one line per leading row, up to 30, and line i is the numbered line of row i |
| Search.SearchRequest | App.tsx:151-154 | a request is sent exactly when the query and the dataset are both non-empty |
| Search.SampleLine | App.tsx:154 | a sample line starts with its index's digits, which read back as the index |
| Search.Sample | App.tsx:154 | when no sampled text has a line break, the sample text splits back into its numbered lines |
| Search.SampleLineHasNoLineBreak | App.tsx:154 | a line whose two text fields have no line break has none |
| Search.SearchResults | App.tsx:156 | there are at most as many results as indices, and every result is a row of the dataset |
| Search.SearchResultsAppend | App.tsx:156 | results follow the order of the returned indices |
| Search.SearchResultsInRange | App.tsx:156 | indices that all hit a row map one to one, duplicates included, to the rows at those indices |
| Search.SearchResultsOutOfRange | App.tsx:156 | indices that all miss the dataset give no results |

## Left out

- Rendering, charts, view switching and the two components `components/Layout.tsx` and `components/MetricsCard.tsx`
  are user interface only. The number formatting of the metric cards (`toLocaleString`, `toFixed`) is left out too.
- The remote language model (`services/geminiService.ts`) is left out. The search answer is a parameter of
  `SemanticSearch`. The strategic audit and the revenue prediction send JSON samples of the data and show the answer.
  They change neither store and are not modelled.
- `FileReader` and React state updates are asynchronous in the source. Each completion is one atomic method call, and
  a removal reads the registry it changes. In the source, `removeFile` tests the registry as of the last render.
- The random file id and the upload time are parameters. The `error` status exists in the record type, but no code
  path sets it.
- Numbers are exact reals. Binary floating-point rounding and negative zero are not modelled.
- Numbers.ParseFloat: three inputs read differently from the source. The text `Infinity` is not a number here (so the
  cell becomes 0), where the source reads +Infinity. A literal too large for a double, such as `1e400`, reads as its
  exact value here, where the source reads +Infinity. A literal too small for a double, such as `1e-400`, reads as a
  tiny non-zero value here, where the source reads 0 (and the cell becomes 0).
- Rows.NumberOr: a text value under a numeric key would be truthy in the source and reach the division as text. It
  counts as the fallback here. Parsed rows never hold one there (`Rows.ParseLineWellTyped`).
- Text.ToLower: only ASCII letters are lower-cased. The source lower-cases every Unicode letter.
- Rows.Fields: the special object keys of JavaScript (`__proto__`) are treated like any other key.
- Search.Show: a number under `campaign_name` or `ad_copy` would render as its decimal text in the source. Here it
  renders as the empty string. Parsed rows never hold one there: `Rows.ParseLineWellTyped` shows that numbers occur
  only under the numeric and ratio keys.
- Aggregate.RowTotals: a text value under a summed key would be concatenated in the source. It counts as 0 here.
  Parsed rows never hold one there (`Rows.ParsedRowWellTyped`).
- The worked parse of the full line `Summer,1000,50,200,600` is stated for the row's fields (`Rows.RatiosExample`).
  Parsing its number cells is covered by `Numbers.ParseFloatNatToString`.
