# CSV structural recovery, modelled in Dafny

This project models how the product-data mapper's CSV uploader rebuilds a
clean table from a messy spreadsheet export, and how its enrich route
cleans products before they are sent on. The uploader works in these steps:

1. It splits the file text into lines on `\r\n`, `\n` or `\r`.
2. It votes the delimiter (`,` or `;`) over the first 20 lines.
3. It locates the header line among the first 200 lines. The header is the
   first of the widest lines that hold at least two cells with text.
4. It drops junk lines that hold only delimiters and whitespace.
5. It hands the rejoined text to a CSV parser and keeps the header names
   that have text.
6. It untransposes a table that looks pivoted. In a pivoted table each row
   is an attribute and each column an entity.
7. It normalizes the cells: empty and missing cells become null, and rows
   without any value are dropped.
8. It takes a five-row preview.

The enrich route rejects a request whose `products` field is not an array
with status 400. Otherwise it removes null values and the keys
`enriched_description` and `image` from every product.

Modules, one per file:

- `Wrappers`: `Option` and `Result`.
- `Text`: the JavaScript string operations the code relies on.
  - `trim`, with the WhiteSpace and LineTerminator sets of ECMA-262.
  - Counting a character.
  - `split(c).join("")`.
  - `split(c)` and `join(c)` with a one-character separator.
  - `/^\d+$/`.
- `Seqs`: `slice`, `filter`, subsequences, and first-seen de-duplication.
- `Values`: cells (`Str`, `Num`, `Null`), records as maps, and tables.
- `Lines`, `Delimiter`, `Header`, `Transpose`, `Normalizer`: the pipeline stages.
- `Uploader`: `processFile` as one function of the file text. The CSV
  parser is a function parameter.
- `Enrich`: the input check and `cleanProducts` of the enrich route.

Behaviours of the code that a reader might not expect, all of which the
model follows:

- The transposer keys its records by the trimmed id in a `Map`, so the
  records come out in the order each trimmed id is first inserted. The
  code comment at components/csv-uploader.tsx:58 reads "one record per ID
  column", but two id headers that trim to the same key share one record,
  and the cell under the later header wins.
- A row whose label equals the first header overwrites every record's id
  under that header (components/csv-uploader.tsx:79-87).
- The header list the parser returns is not de-duplicated by the code, and
  the model does not assume it is distinct.
- When the normalizer leaves zero rows, `processFile` still hands an empty
  table to `onUploadSuccess` (components/csv-uploader.tsx:211-215).

## Model

| member | source | states |
|---|---|---|
| Text.Count | components/csv-uploader.tsx:114 | the number of occurrences is at most the length, and zero exactly when the character does not occur |
| Text.CountIsMultiplicity | components/csv-uploader.tsx:114 | the count of a character equals its multiplicity in the text, as a global match of it finds |
| Text.RemoveAll | components/csv-uploader.tsx:96 | the result no longer holds the delimiter and is shorter by exactly its number of occurrences |
| Text.RemoveAllBlank | components/csv-uploader.tsx:96-97 | what is left after deleting the delimiter is blank exactly when every character is the delimiter or whitespace |
| Text.TrimBlank | components/csv-uploader.tsx:97 | trimming leaves nothing exactly when the text is blank; otherwise the result neither starts nor ends with whitespace |
| Text.TrimIdempotent | components/csv-uploader.tsx:71 | trimming an already trimmed label changes nothing |
| Text.Split | components/csv-uploader.tsx:118 | one cell more than delimiters, no cell holds the delimiter, and joining the cells with the delimiter gives the line back |
| Text.SplitJoin | components/csv-uploader.tsx:172 | splitting lines joined by a separator none of them holds gives the same lines back |
| Lines.SplitLines | components/csv-uploader.tsx:149 | at least one line, no line holds a break, and joining with `\n` gives the text with each `\r\n` and lone `\r` turned into `\n` |
| Lines.SplitLinesIsSplit | components/csv-uploader.tsx:149 | line splitting equals the one-character split of the normalized text, so there is exactly one line more than line breaks, empty lines kept |
| Delimiter.TallyIsCount | components/csv-uploader.tsx:156-159 | summing per-line counts equals counting in the whole sample |
| Delimiter.DetectDelimiter | components/csv-uploader.tsx:152-161 | `;` exactly when the first 20 lines hold strictly more semicolons than commas; `,` exactly otherwise, ties and files with no delimiter included |
| Delimiter.DelimiterIgnoresLaterLines | components/csv-uploader.tsx:152 | lines after the twentieth never change the vote |
| Header.IsDelimiterOnlyLine | components/csv-uploader.tsx:93-98 | junk exactly when every character is the delimiter or whitespace, so the empty and whitespace-only lines are junk |
| Header.CandidateIffTwoTextCells | components/csv-uploader.tsx:111-120 | a line passes all four tests of the loop (non-empty, holds the delimiter, not junk, two cells with text) exactly when two of its cells have text |
| Header.NotDelimiterOnly | components/csv-uploader.tsx:93-98 | one character that is neither the delimiter nor whitespace makes a line non-junk |
| Header.Width | components/csv-uploader.tsx:110-121 | the width a line competes with is positive exactly when the line is a header candidate |
| Header.ScanFindsFirstWidest | components/csv-uploader.tsx:107-126 | the loop that replaces the best line only on a strictly greater cell count ends at the first of the widest lines, or at index 0 with count 0 when no line has a positive width |
| Header.FindHeaderIndex | components/csv-uploader.tsx:100-129 | 0 when no line of the first `min(200, n)` has a positive width; otherwise an index below `min(200, n)` whose width is positive, not less than any width in the window and greater than every earlier width |
| Header.NoCandidateGivesZero | components/csv-uploader.tsx:128 | with no candidate among the first 200 lines the header index is 0 |
| Header.HeaderIsFirstWidestCandidate | components/csv-uploader.tsx:110-126 | when some candidate exists, the chosen line is a candidate inside the window with at least the cell count of every candidate and strictly more than every earlier candidate |
| Header.CleanLines | components/csv-uploader.tsx:171 | no kept line is junk; the kept lines are an order-preserving selection of the lines from the header on; every non-junk line is kept as often as it occurs |
| Header.HeaderLeadsCleanLines | components/csv-uploader.tsx:165-171 | when a candidate exists, the located header line survives cleaning as the first kept line |
| Header.CleanLinesIdempotent | components/csv-uploader.tsx:171 | cleaning the kept lines again removes nothing |
| Transpose.FieldName | components/csv-uploader.tsx:70-71 | a missing or null first-column cell gives the empty label |
| Transpose.IsProbablyTransposed | components/csv-uploader.tsx:13-52 | true exactly when: at least 50 columns; between 2 and 50 rows; fewer rows than columns; a non-empty first header; at least 5 of the 30 headers after the first are digit strings after trimming; and among the non-blank labels of the first 10 rows at least `min(3, n)` are not digit strings and at least `min(3, n)` are distinct |
| Transpose.NarrowTablesStay | components/csv-uploader.tsx:19-28 | a table with fewer than 50 columns, fewer than 2 or more than 50 rows, or no fewer rows than columns is never flagged |
| Transpose.IdHeaders | components/csv-uploader.tsx:56 | the id headers are an order-preserving selection of the headers after the first; every one has text after trimming, and every later header with text is kept as often as it occurs |
| Transpose.LabelsSnoc | components/csv-uploader.tsx:69-72 | one more row adds its label to the label list exactly when the label is not blank |
| Transpose.LabelsHaveText | components/csv-uploader.tsx:71-72 | every label that takes part is trimmed and has text |
| Transpose.ResolvedId | components/csv-uploader.tsx:79-82 | some id header trims to the key exactly when the key is among the trimmed ids; the header found trims to the key |
| Transpose.FillSets | components/csv-uploader.tsx:79-87 | the inner loop sets the label's field of a record to the row's cell under the last id header that trims to the record's key, null when the row lacks it; records no id header reaches are unchanged |
| Transpose.RunHeaders | components/csv-uploader.tsx:65-77 | the output headers are the first header followed by the non-blank labels, de-duplicated in first-seen order |
| Transpose.HeadersSnoc | components/csv-uploader.tsx:74-77 | one step of the `seen` check keeps the headers equal to the de-duplicated labels seen so far |
| Transpose.RunKeys | components/csv-uploader.tsx:59-63 | there is exactly one record per trimmed id |
| Transpose.RunRecordKeys | components/csv-uploader.tsx:62-87 | every record has exactly the output headers as keys after every row |
| Transpose.RunRecord | components/csv-uploader.tsx:62-88 | under each of its keys a record holds the cell, under the key's id header, of the last row with that label, or its seeded id when no row carries the label |
| Transpose.RunDropsBlank | components/csv-uploader.tsx:70-72 | a row with a blank or missing label, wherever it stands, leaves the transposer's state as if it were absent |
| Transpose.TransposeAttributeRows | components/csv-uploader.tsx:54-91 | the output headers start with the first input header, hold no duplicate, and are exactly the first header and the non-blank labels; there is one record per distinct trimmed id; every record has exactly the output headers as keys |
| Transpose.TransposedHeadersFirstSeen | components/csv-uploader.tsx:65-77 | the output headers are in the order of their first occurrence among the first header and the labels |
| Transpose.TransposedRecord | components/csv-uploader.tsx:58-90 | record n belongs to the n-th distinct trimmed id, which has text; under every header it holds the cell of the last row with that label under the id's column (null when absent); and it keeps its id under the first header unless some row is labelled with the first header |
| Transpose.BlankLabelRowIgnored | components/csv-uploader.tsx:70-72 | inserting a row with a blank or missing label anywhere leaves the transposed table unchanged |
| Transpose.DetectedTableHasRecords | components/csv-uploader.tsx:33-38 | a table the detector flags yields at least one record |
| Normalizer.NormalCell | components/csv-uploader.tsx:206-207 | a cell becomes null exactly when it is missing, null or `""`; otherwise it is kept unchanged |
| Normalizer.NormalizeRow | components/csv-uploader.tsx:203-209 | the rebuilt row has exactly the headers as keys; a value is null exactly when the source cell is missing, null or `""`; every other value is the source cell |
| Normalizer.Normalize | components/csv-uploader.tsx:202-211 | every output row has exactly the headers as keys and at least one value that is neither null nor `""`; each is the rebuilt form of an input row; no row is added |
| Normalizer.KeptIff | components/csv-uploader.tsx:211 | a row survives exactly when some header names a cell of it that is neither missing, null nor `""` |
| Normalizer.NormalizeKeepsOrder | components/csv-uploader.tsx:202-211 | the surviving rows are an order-preserving selection of the rebuilt rows, each kept as often as it occurs |
| Normalizer.NormalizeIdempotent | components/csv-uploader.tsx:202-211 | normalizing normalized data changes nothing |
| Normalizer.Preview | components/csv-uploader.tsx:213 | the preview is the first `min(5, n)` rows |
| Uploader.KeptLinesRejoin | components/csv-uploader.tsx:171-172 | kept lines hold no line break, so splitting the joined text on `\n` gives exactly the kept lines |
| Uploader.Prepare | components/csv-uploader.tsx:149-172 | the delimiter is the vote over the split lines and the header index is the located header line; no line handed to the parser is junk or holds a break; the lines are an order-preserving selection of the lines from the header on, holding every non-junk line as often as it occurs there; the parser's input splits on `\n` into exactly those lines, and is empty when none is kept |
| Uploader.HeaderNames | components/csv-uploader.tsx:181 | the kept header names are an order-preserving selection of the parser's field names; every one has text after trimming, and every field name with text is kept as often as it occurs |
| Uploader.NoHeaderNames | components/csv-uploader.tsx:181-183 | the kept header list is empty exactly when no field name the parser reports has text |
| Uploader.Untranspose | components/csv-uploader.tsx:194-199 | the first header stays first, and every header afterwards is an input header or a row label |
| Uploader.Complete | components/csv-uploader.tsx:179-215 | fails with `NoData` exactly when no field name has text or no row was parsed; on success the headers are non-empty and all have text, every row has exactly the headers as keys and some value, and the preview is the first `min(5, n)` rows |
| Uploader.Process | components/csv-uploader.tsx:141-216 | stops with `EmptyRead` exactly on an empty text; otherwise the parser is handed the prepared text with the voted delimiter, a parser error gives `ParseFailed`, and a parse result gives the outcome of `Complete`; any table delivered has a non-empty list of headers with text and rows keyed exactly by them |
| Uploader.CompleteKeepsPlainTable | components/csv-uploader.tsx:194-211 | a table that does not look pivoted keeps the parser's named headers in order and is only normalized |
| Uploader.CompleteUntransposesPivot | components/csv-uploader.tsx:194-211 | a pivoted table is delivered with the transposer's headers and at most one row per distinct id |
| Uploader.CompletePivotData | components/csv-uploader.tsx:194-211 | the rows delivered for a pivoted table are the transposed records, normalized over the transposed headers |
| Enrich.CleanProduct | app/api/enrich/route.ts:17-21 | the cleaned product holds neither `enriched_description` nor `image` nor any null; its keys are a subset of the product's; an entry is kept exactly when its value is not null and its key is neither of the two, and kept values are unchanged |
| Enrich.CleanProducts | app/api/enrich/route.ts:16-22 | one cleaned product per input product, in the same order |
| Enrich.Prepare | app/api/enrich/route.ts:12-22 | fails with status 400 exactly when `products` is missing or not an array; otherwise gives the cleaned products, as many as there are products and in the same order |
| Enrich.CleanProductIdempotent | app/api/enrich/route.ts:18-19 | cleaning a cleaned product changes nothing |
| Enrich.CleanProductFixed | app/api/enrich/route.ts:18-19 | a product is left as it is exactly when it holds no null and neither of the two route-owned keys |
| Enrich.CleanProductsIdempotent | app/api/enrich/route.ts:16-22 | cleaning the cleaned list again changes nothing |
| Seqs.FilterIsSubsequence | components/csv-uploader.tsx:171 | what a filter keeps is an order-preserving selection of its input |
| Seqs.FilterCounts | components/csv-uploader.tsx:171 | a filter keeps every kept element exactly as often as its input holds it, and nothing else |
| Seqs.Dedup | components/csv-uploader.tsx:66-77 | the de-duplicated list holds no duplicate and has the same elements as its input |
| Seqs.DedupFirstSeen | components/csv-uploader.tsx:74-77 | the de-duplicated list is ordered by first occurrence in the input |

## Left out

- The CSV parser (Papa Parse) is a function parameter of `Uploader.Process`. Its quoting, escaping and alignment of cells to header columns are not modelled.
- File reading (`FileReader`), React state, drag-and-drop, `alert` and `console.log` are I/O and user interface. A failed read is folded into the empty-text case `EmptyRead`.
- The OpenAI calls of the enrich and analyze routes, and the JSON handling of their answers, are network calls to a foreign service. The page component and the analyze route are not part of this model.
- A JavaScript number is carried as the text `String()` gives for it. The pipeline only ever converts numbers to text or copies them unchanged, so number formatting is not modelled.
- Properties inherited from `Object.prototype` are not modelled. For example, `row["constructor"]` is treated as a missing cell.
- Enrich.Prepare: products are taken to be objects. A product that is a string or a number, which `Object.entries` would still accept, is not modelled. Neither is a `null` or `undefined` element, on which `Object.entries` throws (app/api/enrich/route.ts:18) and the route answers status 500 (app/api/enrich/route.ts:52-54).
- Transpose.TransposedRecord: the id is only promised under the first header when no row is labelled with the first header, because the code overwrites it in that case.
- JavaScript regular expressions are modelled by what they match here. `/^\d+$/` is "non-empty, ASCII digits only". The line split tries `\r\n` before `\r`. The counting regexes match the literal delimiter.
