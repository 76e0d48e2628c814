# PMI ranking scraper: the text-to-rows core

This project models the part of the PMI ranking scraper that turns text into spreadsheet rows. The scraper fetches the Moscow State University admissions ranking page for the applied mathematics and informatics (PMI) programme. It picks the 16th paragraph, which holds the publication date, and the 9th table, which holds the ranking. It then turns the table's flattened text into five-field rows and serves them as a worksheet whose rows are those five fields plus the date.

The model takes two strings: the table's text and the date paragraph's text. It covers three stages:

- **Tokeniser** (`PmiParser.Tokenize`). The table text is split at line feeds, each line is trimmed, and blank lines are dropped. `split` and `trim` are modelled after the JavaScript built-ins in `JsString`. Trim strips the ECMAScript whitespace and line-terminator set, carriage return included.
- **Block extractor** (`PmiParser.ExtractBlocks`, inside `PmiParser.ParsePmiData`). A loop starts at token 16 and steps by 19 while `i < tokens.length - 19`. For each block it pushes the tokens at block offsets 1, 2, 3, 7 and 16: номер, согласие, приоритет, баллы, статус. The loop is proved equal to the closed-form `PmiParser.ExtractRows`. In the source, the loop sits inside `parsePMIData`; here it is a method of its own, and `ParsePmiData` calls it on the tokens. `RowCount` counts the blocks and is characterised exactly.
- **Sheet rows** (`PmiSheet.BuildSheetRows`, `PmiSheet.DownloadRows`). The header row is the five labels plus `Дата обновления`. After it comes one row per extracted row, with the date appended. The worksheet is the sequence of rows handed to `addRow`, in call order.

The loop guard is strict, so a complete final block that ends exactly at the last token is dropped. For example, 35 tokens give no row and 54 tokens give one row.

## Model

| member | source | states |
|---|---|---|
| `JsString.Trim` | api/index.js:25 | the result is a contiguous piece of the input; everything stripped before and after it is whitespace; it has no whitespace at either end; it is empty exactly when the input is all whitespace |
| `JsString.TrimIdempotent` | api/index.js:25 | trimming a trimmed string changes nothing |
| `JsString.TrimKeepsCharacters` | api/index.js:25 | every character of the trimmed string occurs in the input, so a line without a line feed trims to a piece without one |
| `JsString.Split` | api/index.js:24 | there is always at least one piece; no piece holds the separator; joining the pieces with the separator gives the input back |
| `JsString.SplitWithoutSeparator` | api/index.js:24 | a string with no separator splits into exactly itself |
| `JsString.SplitAtSeparator` | api/index.js:24 | splitting `a + sep + b` gives the pieces of `a` followed by the pieces of `b` |
| `JsString.SplitJoin` | api/index.js:24 | splitting undoes joining, for parts without the separator, which is the other direction of the round trip |
| `PmiParser.DropEmpty` | api/index.js:26 | every string kept by the filter is non-empty and comes from the input |
| `PmiParser.DropEmptyKeepsNonEmpty` | api/index.js:26 | no empty string is kept, and every non-empty string is kept exactly as many times as it occurs in the input |
| `PmiParser.DropEmptyAppend` | api/index.js:26 | the filter keeps order: filtering a concatenation concatenates the filtered halves |
| `PmiParser.TrimEach` | api/index.js:25 | one trimmed line per input line, in line order: the result has the input's length and entry k is `Trim` of line k, with no whitespace at either end |
| `PmiParser.TrimEachAppend` | api/index.js:25 | trimming each line keeps order: mapping over a concatenation concatenates the mapped halves |
| `PmiParser.Tokenize` | api/index.js:24-26 | the tokens are `DropEmpty(TrimEach(Split(text, "\n")))`, none of them empty; the result is determined for every text by `TokenizeLine` together with `TokenizeAtLineFeed`, and characterised by `TokenizeYieldsTokens` |
| `PmiParser.TokenizeYieldsTokens` | api/index.js:24-26 | every token is non-empty, has no whitespace at either end and contains no line feed |
| `PmiParser.TokenizeAtLineFeed` | api/index.js:24-26 | tokens keep line order: the tokens of `a + "\n" + b` are the tokens of `a` followed by those of `b` |
| `PmiParser.TokenizeLine` | api/index.js:24-26 | a single line gives its trimmed text as its only token, or no token when the line is blank |
| `PmiParser.RowCount` | api/index.js:34 | the number of loop iterations for L tokens: 0 exactly when L ≤ 35, otherwise ⌊(L − 36)/19⌋ + 1; the last block taken is followed by at least one more token and the next block start fails the guard; tied to the guard for every block by `RowCountSpec` |
| `PmiParser.RowCountSpec` | api/index.js:34 | block k yields a row if and only if its start 16 + 19k passes the guard `i < L - 19`, that is 16 + 19k + 19 < L; so the row count is 0 for L ≤ 35 and ⌊(L − 36)/19⌋ + 1 otherwise |
| `PmiParser.BlockRow` | api/index.js:35-42 | the row of one 19-token block has 5 fields, the tokens at block offsets 1, 2, 3, 7 and 16 in that order |
| `PmiParser.ExtractRows` | api/index.js:34-43 | the closed form of the loop's output: `RowCount(L)` rows, each of 5 fields, row k being `BlockRow` of tokens 16 + 19k .. 16 + 19k + 19; the loop `ExtractBlocks` is proved equal to it, and `ExtractedField`, `ExtractedRow` and `RowsInBlockOrder` spell out its entries |
| `PmiParser.ExtractedField` | api/index.js:34-42 | every row has 5 fields; field f of row k is token 16 + 19k + [1,2,3,7,16][f]; that index lies inside the token list and past the 16-token preamble |
| `PmiParser.ExtractedRow` | api/index.js:35-42 | row k is exactly [t[s+1], t[s+2], t[s+3], t[s+7], t[s+16]] with s = 16 + 19k, and the block lies inside the token list |
| `PmiParser.RowsInBlockOrder` | api/index.js:34-36 | for rows k1 < k2 of the extracted rows, field f1 of row k1 and field f2 of row k2 are the tokens at indices 16 + 19k1 + [1,2,3,7,16][f1] < 16 + 19k2 + [1,2,3,7,16][f2], both inside the token list |
| `PmiParser.ThirtyFiveTokensGiveNoRow` | api/index.js:34 | 35 tokens give no row |
| `PmiParser.FiftyFourTokensGiveOneRow` | api/index.js:34 | 54 tokens give exactly one row, taken from tokens 16..34; the second complete block is dropped |
| `PmiParser.ExtractBlocks` | api/index.js:34-43 | the loop with guard `i < tokens.length - 19` and stride 19 pushes exactly the rows of `ExtractRows`, `RowCount` of them; every `block[...]` read is in bounds |
| `PmiParser.ParsePmiData` | api/index.js:21-45 | the date is the trimmed date text; the labels are always the fixed five whatever the input; the rows are those extracted from the table's tokens; every row has 5 fields |
| `PmiSheet.BuildSheetRows` | api/index.js:64-69 | the sheet has one row more than the data; the first row is the labels plus `Дата обновления`; row k + 1 is data row k with the date appended; for well-formed data every data row has 6 fields, the first five unchanged and the last equal to the date |
| `PmiSheet.DownloadRows` | api/index.js:57-69 | from the table and date texts: RowCount + 1 sheet rows; the 6-label header row first; a header-only sheet when there are at most 35 tokens; each data row has 6 fields, the extracted row followed by the trimmed date |

## Left out

- Fetching the page with axios (api/index.js:12-18): network I/O, the 10-second timeout and the User-Agent header. The model starts from the two strings that the page provides.
- Loading the HTML with cheerio and picking `$('p').eq(15)` and `$('table').eq(8)` by position, then `.text()` (api/index.js:20-22): this is a foreign library. The model takes the date text and the table text as inputs. It states only that the date is the trimmed date text.
- Workbook and worksheet creation, header font and fill, column widths, response headers and streaming with ExcelJS (api/index.js:60-61, 71-102): this is a foreign library and I/O. The model keeps only the sequence of rows passed to `addRow`.
- Error handling (api/index.js:47-50, 104-111): the catch blocks log the error and replace it with a fixed message or a 500 page. The modelled steps cannot fail: every index the loop reads is proved in bounds. So no error path is modelled.
- Express routing, the landing page, the `PORT` setting and `app.listen` (api/index.js:6-7, 114-152): server plumbing.
- JavaScript strings are UTF-16 code units, while Dafny's `char` is a Unicode scalar value. Every character that `trim` strips, and the line feed, is a single code unit, so splitting and trimming agree on both. Lengths of strings containing astral characters are not modelled.
