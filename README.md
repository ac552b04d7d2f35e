# Amazon shipment reconciliation: name matching, file reading and batch output

This project models the core of `Code.js`, a Google Apps Script job. The job reads an
Amazon order file and three carrier manifests (Sagawa, Shoshin, Fukuyama). It finds
each order's buyer in the manifests and writes one shipment-notice record per order
line. The model covers the part that decides what ends up in those records:

- **Reading a file** (`readCSVFile`, `readAmazonDataFile`). The raw bytes are
  decoded under four candidate encodings. A readability score (`evaluateJapaneseReadability`)
  picks the decoding, with the first strictly better score winning. The text is then
  split into lines and cells. Carrier manifests are split on tabs, with commas as a
  fallback; order files are split on tabs only. Every cell loses one leading and one
  trailing quote and is trimmed.
- **Name keys** (`normalizeText`). A fixed chain of replacements turns a name into a
  comparison key. It removes white space, lower-cases, shifts full-width letters,
  digits and symbols to ASCII, and drops middle dots, prolonged-sound marks and dashes.
- **Name matching** (`fuzzyMatch`). Two names match when one key contains the other,
  or when one of seven rewrites of one key contains one of seven rewrites of the other.
- **Reconciliation** (`findMatchingData`, `getShoshinStartIndex`). Sagawa is searched
  first, in four name columns. Shoshin is searched next, then Fukuyama. The first
  matching row gives the carrier and the tracking number.
- **The batch** (`processDataForExcel`). There is one record per order row that has at
  least 25 cells after the header. The record carries today's date as `YYYY-MM-DD`.
- **The two file-name rules**: an order file is named by seventeen digits and `.txt`,
  and an archived copy inserts `_YYYYMMDD` before the extension.

Modules:

- `JsText`: the JavaScript string built-ins used (`trim`, `split`, `join`, `includes`,
  global `replace`, `Array.map`).
- `Readability`: the scorer.
- `RowParsing`: lines and cells.
- `FileReading`: choosing a decoding and the two readers.
- `Normalize`: keys.
- `FuzzyMatch`: the matcher.
- `Reconcile`: the manifest search.
- `Batch`: the output records.
- `Dates`: date texts.
- `FileNames`: the two naming rules.
- `Wrappers`: `Option`.

The manifest search and the batch loop take the name matcher as a parameter, so they
are proved once for any matcher. `Batch.ProcessDataForExcel` instantiates them with
`FuzzyMatch.FuzzyMatch`, as the source does. `getShoshinStartIndex` is
`Reconcile.ShoshinStartIndex`. It always returns 0 because the header check is
commented out, and `Reconcile.StartRow` uses it for the Shoshin scan.

## Model

| member | source | states |
|---|---|---|
| JsText.Trim | Code.js:211 | the result is a slice of the input with only white space before and after it, and none at its own ends; it is empty exactly when the input is all white space; a string already trimmed is returned unchanged |
| JsText.TrimOfSpaceAround | Code.js:202 | any slice with only white space around it and none at its own ends is what `trim()` returns, so the trimmed text is determined by those two properties |
| JsText.Contains | Code.js:538-539 | an occurrence is never longer than the text, and a prefix always occurs |
| JsText.ContainsTransitive | Code.js:538-539 | a string that occurs inside an occurrence occurs in the whole text |
| JsText.ReplaceAll | Code.js:517-520 | a global replace introduces no character other than those of the text and of the replacement, and replacing with the empty string never lengthens the text |
| JsText.ReplaceAllIgnoringCase | Code.js:521 | the same for a case-insensitive global replace |
| JsText.RemoveWhereNone | Code.js:472-477 | removing a character class from text that holds none of it leaves the text unchanged |
| JsText.Split | Code.js:196 | splitting gives at least one part; no part holds the separator; a string without the separator is its own single part |
| JsText.JoinSplit | Code.js:196 | joining the parts of a split with the separator gives back the original string |
| JsText.SplitJoin | Code.js:204 | splitting the join of separator-free parts gives back the parts |
| JsText.SplitSingle | Code.js:205 | a split yields exactly one part exactly when the separator does not occur |
| JsText.SplitPrefix | Code.js:196 | the text before the first separator is the first part and the rest is split on its own |
| JsText.ReplaceAllAbsent | Code.js:517-520 | a global replace of a pattern that does not occur leaves the string unchanged |
| JsText.ReplaceAllAtEnd | Code.js:517 | a pattern whose first character does not occur before it is replaced exactly once, at the end |
| JsText.ReplaceIgnoringCaseNeedsSpace | Code.js:521 | a case-insensitive pattern containing a space never rewrites text without white space |
| JsText.ArrayMapAt | Code.js:210-212 | element k of a mapped array is the mapping function applied to element k, and the length is kept |
| JsText.MapCharsAppend | Code.js:479-492 | a per-character callback replacement distributes over concatenation |
| JsText.RemoveWhereAppend | Code.js:472-477 | removing every character of a class distributes over concatenation |
| Readability.EvaluateJapaneseReadability | Code.js:231-272 | the accumulated score equals `ReadabilityScore`: +10 per Japanese character, −5 per match of each of the three broken-character patterns, +50 per vocabulary word present, −100 when garbled characters exceed a tenth of the length |
| Readability.AsciiScoresZero | Code.js:231-272 | pure ASCII text scores exactly 0 |
| Readability.VocabularyAbsent | Code.js:257-262 | text that holds no word's first character earns no vocabulary bonus |
| Readability.VocabularyBonusByPresence | Code.js:257-262 | the vocabulary bonus depends only on which words are present, not on how often they occur, and counts at most one hit per word |
| Readability.ExtendedAsciiPenalty | Code.js:243-254 | appending a character in U+00A1–U+00FF adds two penalty units; appending U+00A0 adds one |
| Readability.PenaltyUnitsByPattern | Code.js:249-254 | the penalty units are the sum of the three patterns' independent match counts |
| Readability.GarbledTextScore | Code.js:265-269 | a non-empty text made only of non-Japanese characters between U+0100 and U+2FFF, none of them white space, scores −5 per character and the flat −100 garbled penalty |
| Readability.ScoreUpperBound | Code.js:231-272 | a score is at most 10 per character plus 50 per vocabulary word |
| RowParsing.CleanCell | Code.js:211 | a cleaned cell is trimmed and is a slice of the raw cell; before it there is at most a quote in first position and then white space, after it white space and at most a quote in last position; a leading quote, and a trailing quote of a cell of two or more characters, are always dropped |
| RowParsing.StripQuotes | Code.js:211 | the pattern removes one quote at the start and one at the end of a cell of two or more characters, a lone quote once, and nothing else: the rest is the cell shifted by the leading quote |
| RowParsing.SpaceBeforeQuoteKept | Code.js:211 | an opening quote after white space is not removed while the closing quote is: ` "x"` becomes `"x` |
| RowParsing.CleanCellKeeps | Code.js:211 | a trimmed cell that neither starts nor ends with a quote is unchanged |
| RowParsing.CleanCellUnquotes | Code.js:211 | a cell wrapped in two quotes around trimmed text loses exactly the two quotes |
| RowParsing.CarriageReturnKeepsClosingQuote | Code.js:211 | on a CRLF line, a quoted last cell keeps its closing quote, because the carriage return is trimmed only after the quote pattern ran |
| RowParsing.CleanColumns | Code.js:210-212 | the loop's result is every cell cleaned, in order |
| RowParsing.ParseRows | Code.js:196-217 | the row loop returns `ParseLines` of the lines: one cleaned row per non-blank line, in order |
| RowParsing.OneLine | Code.js:202-216 | a blank line yields no row; any other line yields exactly its cleaned cells |
| RowParsing.ParseLinesAppend | Code.js:201-217 | the rows of concatenated line lists are the concatenated rows |
| RowParsing.RowCount | Code.js:201-217 | the number of rows equals the number of non-blank lines |
| RowParsing.RowOfLine | Code.js:201-217 | every row is the cleaned row of some non-blank line |
| RowParsing.CellsTrimmed | Code.js:210-215 | no cell of any row has white space at either end |
| RowParsing.SplitCells | Code.js:204-207 | manifests fall back to commas exactly when a line has no tab; order files always split on tabs; every line gives at least one cell |
| RowParsing.TabCellsJoin | Code.js:344 | joining a tab-split line's raw cells with tabs gives back the line |
| FileReading.SelectBestDecoding | Code.js:163-185 | the result is none exactly when no decoding scores 0 or more (then the encoding stays UTF-8 and the score −1); otherwise it is the decoding that scores strictly more than every earlier one and at least as much as every later one, with its encoding and score |
| FileReading.WinnerUnique | Code.js:177-181 | the strict-improvement tie-break makes the chosen decoding unique |
| FileReading.ReadDecoded | Code.js:187-217 | no readable decoding, or an empty winning text, gives no rows; otherwise the rows are those of the winning text's lines |
| FileReading.ReadCsvFile | Code.js:149-225 | a missing file gives no rows; otherwise the rows are those of the winning decoding, split on tabs with the comma fallback |
| FileReading.ReadAmazonDataFile | Code.js:302-361 | the rows are those of the winning decoding, split on tabs only |
| FileReading.ReadsAsUnique | Code.js:163-217 | the rows a reader returns are determined by the decodings |
| Normalize.NormalizeText | Code.js:459-497 | an empty name gives the empty key; every key is trimmed and holds no white space, capital, full-width period or space, middle dot, full-width letter, digit or listed symbol, prolonged-sound mark or dash |
| Normalize.NormalizeIsFold | Code.js:471-496 | the final `trim()` removes nothing: the key is the replacement chain's result |
| Normalize.FoldAppend | Code.js:471-495 | the replacement chain distributes over concatenation |
| Normalize.FoldOne | Code.js:471-495 | one character becomes nothing or one key character, which the chain then leaves alone |
| Normalize.FoldIdempotent | Code.js:471-495 | applying the replacement chain twice equals applying it once |
| Normalize.NormalizeIdempotent | Code.js:459-497 | normalising a key again changes nothing |
| Normalize.NormalizeKeeps | Code.js:459-497 | a string that is already a key is its own key |
| Normalize.NormalizeByChar | Code.js:471-496 | the key is the concatenation of what each character becomes |
| Normalize.NormalizeOne | Code.js:471-496 | the key of one character is what the chain makes of it |
| Normalize.FullWidthAlphanumerics | Code.js:473-488 | full-width capitals and lower-case letters become ASCII lower-case, full-width digits become ASCII digits, and ASCII capitals are lower-cased |
| Normalize.WidthInsensitive | Code.js:479-488 | full-width `Ａ１ａ` and half-width `A1a` get the same key, `a1a` |
| Normalize.CareHomeKeys | Code.js:1451-1452 | the order spelling and the manifest spelling of the care-home name (ASCII against full-width letters, a prolonged-sound mark against a full-width hyphen) get the same key |
| Normalize.PlainIsKey | Code.js:459-497 | a string of kana, ideographs and printable ASCII other than capitals and `-` is a key |
| Normalize.WideLettersFold | Code.js:471-495 | kana and ideographs pass through the chain unchanged |
| FuzzyMatch.Variations | Code.js:515-533 | there are seven rewrites, the first being the key itself |
| FuzzyMatch.FuzzyMatch | Code.js:502-544 | an empty name never matches; names whose keys are equal or contain one another always match |
| FuzzyMatch.OverlapsSomeIff | Code.js:537-540 | the inner loop succeeds exactly when some rewrite of the second key overlaps the given one |
| FuzzyMatch.AnyPairOverlapsIff | Code.js:536-541 | the nested loop succeeds exactly when some pair of rewrites overlaps |
| FuzzyMatch.MatchIsVariationsOverlap | Code.js:502-544 | two names match exactly when both are non-empty and some rewrite of one key equals, contains or lies inside some rewrite of the other |
| FuzzyMatch.Symmetric | Code.js:502-544 | the matcher gives the same answer with its arguments swapped |
| FuzzyMatch.VariationsOverlapSymmetric | Code.js:536-541 | the rewrite overlap test is symmetric |
| FuzzyMatch.RewritesOverlap | Code.js:536-541 | one overlapping pair of rewrites suffices for a match |
| FuzzyMatch.OnlineStoreNeverFires | Code.js:521 | the `online store` rewrite never changes a key, since keys hold no space |
| FuzzyMatch.EmptyKeyMatchesEverything | Code.js:512 | a non-empty name whose key is empty matches every non-empty name |
| FuzzyMatch.CareHomeMatch | Code.js:1467 | the two spellings of the care-home name match |
| FuzzyMatch.CompanyFormDropped | Code.js:517 | a key ending in `株式会社` matches every name whose key contains what precedes the word |
| FuzzyMatch.CompanyFormMatch | Code.js:517 | `佐川運輸株式会社` matches `佐川運輸(株)` |
| Reconcile.FirstHit | Code.js:587-634 | the result is the first row at or after the start whose name cell matches; no result means no row from the start on matches |
| Reconcile.Cell | Code.js:802-806 | a present cell reads as itself and a missing one as the empty string |
| Reconcile.CellOfPadded | Code.js:802-806 | a short row reads like the same row padded with empty cells |
| Reconcile.Reconciled | Code.js:559-643 | a buyer is found exactly when some manifest has a matching row from its start row on; a miss is `{found: false, carrier: '', trackingNumber: ''}`; a hit's carrier is Sagawa or Fukuyama |
| Reconcile.FindMatchingData | Code.js:559-643 | the three scans return exactly `Reconciled` |
| Reconcile.FindMatchingDataAsShipped | Code.js:606-607 | as shipped, a buyer is found exactly when the Sagawa scan finds it; otherwise the result is not-found |
| Reconcile.SagawaFirst | Code.js:587-604 | the first Sagawa row matching in column H, O, P or Q decides the result in both versions, with column A as the tracking number |
| Reconcile.ShoshinSecond | Code.js:606-619 | with no Sagawa match, the first Shoshin row from row 0 matching in column A gives carrier Sagawa and column J as the tracking number |
| Reconcile.FukuyamaLast | Code.js:621-634 | with no Sagawa or Shoshin match, the first Fukuyama row matching in column J gives carrier Fukuyama and column C as the tracking number |
| Reconcile.NeverMatchedNotFound | Code.js:636-637 | a name the matcher accepts against nothing is not found |
| Reconcile.EmptyNameNotFound | Code.js:503 | an empty buyer name is never found |
| Reconcile.ShippedLosesShoshinMatch | Code.js:607 | a name that only Shoshin's first row holds is not found by the shipped code, but is found as a Sagawa shipment by the intended search |
| Batch.ProcessRows | Code.js:796-826 | the loop returns `Processed` for the search version it calls: one record per complete order row after the header, in order |
| Batch.ProcessDataForExcel | Code.js:793-829 | the records are those of the batch loop with `fuzzyMatch`, each dated with the `YYYY-MM-DD` text of the given day |
| Batch.RecordCount | Code.js:796-799 | there is exactly one record per order row after the header that has at least 25 cells |
| Batch.RecordOfRow | Code.js:801-823 | each record holds the row's order id, item id and quantity, the shipping date, type `Other`, and the carrier and tracking number the search version found, or empty strings when not found |
| Batch.ProcessedAppend | Code.js:796-826 | rows appended to the order file append their records: the output keeps input order |
| Batch.ShippedBatchSagawaOnly | Code.js:815-823 | with the search as shipped, a record has a carrier and a tracking number only when its buyer has a match in the Sagawa manifest |
| Batch.ShippedBatchLosesShoshinMatch | Code.js:815-823 | an order whose buyer only the Shoshin manifest holds gets carrier Sagawa from the intended batch and an empty carrier from the batch as shipped |
| Dates.DecimalDigitsValue | Code.js:810 | a number's decimal digits read back as the number |
| Dates.DecimalDigits | Code.js:810 | `toString()` of a number gives one or more decimal digits |
| Dates.PadTwo | Code.js:811 | padding ends with the original text, puts only zeros before it, and gives at least two characters |
| Dates.DateStamp | Code.js:1344-1346 | the archive stamp is all digits |
| Dates.ShippingDate | Code.js:809-811 | the shipping date with its dashes removed is the archive stamp of the same day |
| Dates.PadTwoValue | Code.js:811 | padding to two digits keeps the value |
| Dates.ShippingDateFields | Code.js:809-812 | for a four-digit year and a calendar month and day, the shipping date is ten characters: `-` at positions 4 and 7, and digits elsewhere that read back as the year, the month and the day |
| Dates.DateStampFields | Code.js:1344-1347 | the archive stamp is eight digits that read back as the year, the month and the day, and it holds no `.` or `/` |
| FileNames.LastDot | Code.js:1349 | the position found holds the last `.`; no position means there is no `.` |
| FileNames.ExtensionStart | Code.js:1349 | the extension begins at the last `.` exactly when that `.` is followed by at least one character and none of them is `/`; it holds no further `.` or `/`; a name without a `.` has no extension |
| FileNames.OrderFileNameOf | Code.js:287 | `IsOrderFileName`, the test `/^\d{17}\.txt$/`: a name of decimal digits followed by `.txt` is an order file name exactly when there are seventeen digits |
| FileNames.ArchivedFileName | Code.js:1349-1351 | there is an archived name exactly when the name has an extension; it is the name without its extension, `_`, the date text and the extension, one character plus the date longer than the name |
| FileNames.OrderFileArchive | Code.js:1349-1351 | an order file's extension is its `.txt`, so its archived name is the seventeen digits, `_`, the date and `.txt` |
| FileNames.ArchivedNameIsNeverOrderFile | Code.js:1349-1351 | no archived name matches the order-file pattern of Code.js:287, whatever the date |
| FileNames.ArchiveKeepsExtension | Code.js:1349-1351 | for a date text without `.` or `/`, the archived name keeps the original extension, and the original name reads back from it |

## Left out

- Drive access, logging and the spreadsheet output (`createExcelData`, the sheet writers) are not modelled. `Event.js` and `googlechat.js` are not part of this model either. A file's decodings are inputs: for each encoding, the decoded text, or `None` when `getDataAsString` throws.
- The outer `catch` blocks of the readers (Code.js:221-224, 358-361) and of `findMatchingData` (Code.js:639-642) are modelled only where an exception can occur in the modelled code. That is the undeclared `shoshinStartIndex` in `Reconcile.FindMatchingDataAsShipped` and the missing extension in `FileNames.ArchivedFileName`.
- Normalize.Nfkc: `String.prototype.normalize('NFKC')` is taken as the identity, which is the source's branch for a runtime without `normalize` (Code.js:463-469). Unicode compatibility decomposition is not modelled.
- Normalize.LowerChar: `toLowerCase` is modelled for ASCII, Latin-1 and full-width Latin capitals only. The other scripts' case mappings are not modelled.
- JsText: strings are sequences of Unicode characters, taken to be UTF-16 code units of the Basic Multilingual Plane. Surrogate pairs are not modelled.
- Readability.ReadabilityScore: the floating-point test `count > length * 0.1` is modelled as the integer test `10 * count > length`.
- Batch.ProcessDataForExcel: it calls the corrected search (`Reconcile.FindMatchingData`), while the shipped `processDataForExcel` (Code.js:815) calls the shipped `findMatchingData`. The batch is parametrized by `Batch.Version`; with `AsShipped` it models the code as written, and `Batch.ShippedBatchSagawaOnly` states what that loses.
- Batch.ProcessDataForExcel: the clock is replaced by the year, month and day arguments. The source reads the date once per row, so a batch running across midnight could mix two dates; the model uses one date for the whole batch.
- Reconcile.FindMatchingData: the matcher is a parameter. `Batch.ProcessDataForExcel` passes `FuzzyMatch.FuzzyMatch`.
- Reconcile.ShoshinStartIndex has no contract of its own. It returns 0, and `Reconcile.ShoshinSecond` states its effect on the search.
- `processAndWriteData` and `processDataInGoogleSheets` repeat the batch loop between sheet writes, so the batch is modelled once, as `processDataForExcel`. `convertDateFormat`, the trigger functions, the upload detection and the body of `archiveInputFiles` are not modelled; only its naming rule is.

## Findings

| source | as written | input that shows it | evidently intended | confidence | as-written member | corrected member |
|---|---|---|---|---|---|---|
| Code.js:607 | the Shoshin loop starts at `shoshinStartIndex`, which is never declared (its declaration at Code.js:572 is commented out), so the loop throws a `ReferenceError` that the `catch` at Code.js:639-642 turns into not-found | buyer `山田`, no Sagawa or Fukuyama rows, Shoshin manifest `[["山田"]]` | start at `getShoshinStartIndex(shoshinData)` (0), so that a Shoshin match is reported as a Sagawa shipment | high, not executed | Reconcile.FindMatchingDataAsShipped, Reconcile.ShippedLosesShoshinMatch, Batch.ShippedBatchSagawaOnly, Batch.ShippedBatchLosesShoshinMatch | Reconcile.FindMatchingData, Batch.ProcessDataForExcel |

Other behaviours the model makes explicit:

- The model follows the code for company forms. `佐川運輸株式会社` matches `佐川運輸(株)` (`FuzzyMatch.CompanyFormMatch`). Dropping `株式会社` leaves `佐川運輸`, which the abbreviated name contains. The rewrite list itself has no `(株)` entry.
- A name whose key is empty matches every non-empty name (`FuzzyMatch.EmptyKeyMatchesEverything`). An example is a name made only of prolonged-sound marks.
- On CRLF files, the quotes are stripped before the carriage return is trimmed. A quoted last cell therefore keeps its closing quote (`RowParsing.CarriageReturnKeepsClosingQuote`).
- For the same reason, white space before an opening quote keeps that quote in the cell, while the closing quote goes: ` "ab"` becomes `"ab` (`RowParsing.SpaceBeforeQuoteKept`).
- The full-width capital stage of `normalizeText` (Code.js:479-481) never changes anything. `toLowerCase` has already lowered those letters (`Normalize.FullWidthAlphanumerics`).
