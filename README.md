# Bank statement reply parser, modelled in Dafny

The application sends the pages of a bank statement to a language model.
The language model replies with free text that should hold a pipe-delimited table of
transactions, with the columns Date, Concept, Amount (MXN) and Type.
`extract_table_from_response` (main.py:29-51) turns that reply into a data
frame. This project models that function and proves what it does.

The function works like this:

- It splits the reply into lines on `'\n'`.
- It looks only at lines that contain `|`.
- A pipe line containing `"Date"` is a header: it turns the `start_parsing`
  flag on and is itself skipped.
- After the flag is on, it skips decoration lines, meaning lines whose
  `strip('|- ')` is empty.
- Every other pipe line is split on `|`. Each piece is stripped of
  whitespace and the empty pieces are dropped.
- The row is kept if exactly four cells remain.
- The kept rows become a frame with the four fixed columns. The amount
  column loses its commas and is then cast to a number.

The files:

- `pystr.dfy` (module `PyStr`) holds the Python string built-ins the
  function uses, stated over `string`: `sub in s`, `split`, `strip(chars)`,
  `strip()` and `replace(',', '')`.
- `response_table.dfy` (module `ResponseTable`) holds the function itself.
  - `ExtractTable` is the loop, written as a method with a `for` loop over
    the lines.
  - It is proved against the fold `Run`/`Scan` of the per-line `Step`.
  - `Frame` builds the four-column table.
  - `CastAmounts` models `astype(float)`. The number parser is a parameter,
    and the cast fails on the first amount it rejects.
- `table_properties.dfy` (module `TableProperties`) describes the loop's
  result line by line. `Origins` gives the positions of the lines that
  produce a row. The module proves what the parser promises about the kept
  rows. It also shows that a table line written as `| c1 | c2 | c3 | c4 |`
  gives back exactly its cells.
- `table_examples.dfy` (module `TableExamples`) works through concrete
  replies: a header with a transaction line, a header with a rule line, an
  aligned rule, comma variants of an amount, and the empty reply.

Every pipe line containing `"Date"` is treated as a header, not only the
first: the code tests each pipe line for `"Date"` and skips each one that has
it (main.py:37-39). The model does the same:

- `Step` turns the flag on again and adds no row for such a line.
- `Kept` excludes such lines.
- `NoRowHoldsHeaderToken` shows that no kept cell contains `"Date"`.

One more behaviour of the code as written is worth knowing. A markdown rule
line with alignment colons, such as `|:---|:---|:---|:---|`, is not a
decoration line, because `strip('|- ')` leaves the colons. After the header
it gives a row of four `":---"` cells, and the cast of that amount then
fails for the whole reply. `HeaderThenAlignedRule` and `AlignedRuleBreaksCast` state this.

## Model

| member | source | states |
|---|---|---|
| ResponseTable.ExtractTable | main.py:29-51 | The loop over the reply's lines, followed by the frame and the cast, returns exactly the cast of the frame of the rows that the fold `Scan` keeps. So every property proved of `Scan`, `Frame` and `CastAmounts` holds for the method. |
| ResponseTable.Step | main.py:36-45 | After one line, the flag is on exactly when it was on before or the line is a header. The rows are unchanged, or they gain the line's cells as one row. A row is only added for a non-header line with exactly four cells. |
| ResponseTable.Run | main.py:35-45 | Running the loop from a state only appends: the rows of the starting state are a prefix of the rows at the end. |
| ResponseTable.RunRowsWellFormed | main.py:41-45 | Every row the loop appends has exactly four cells. Each cell is non-empty, holds no pipe and has no surrounding whitespace. |
| ResponseTable.Scan | main.py:32-45 | Every row of the loop's result, started from an off flag and no rows, has four well-formed cells. |
| ResponseTable.TableData | main.py:31-45 | Every row of `table_data` for a whole reply has four well-formed cells. |
| ResponseTable.CellsWellFormed | main.py:41-43 | Every cell of a line is non-empty, holds no pipe, has no surrounding whitespace, and is a substring of the line. |
| ResponseTable.TrimmedPiecesInLine | main.py:41-43 | Stripping and dropping the empty pieces keeps only non-empty, stripped, pipe-free substrings of the line. |
| ResponseTable.TrimAndDropEmpty | main.py:41-43 | The comprehension never yields more cells than there are pieces. |
| ResponseTable.TrimAndDropAppend | main.py:41-43 | The comprehension distributes over a concatenation of piece lists. |
| ResponseTable.Cells | main.py:41-43 | The cells of a line: its pipe-separated pieces, each stripped of whitespace, with the empty ones dropped. `CellsWellFormed` states that each cell is non-empty, stripped, pipe-free and a substring of the line. `CellsOfRenderedRow` states that well-formed cells written as a table line come back exactly. |
| ResponseTable.IsHeader | main.py:36-37 | A header line is a line that contains a pipe and the substring `"Date"`. `Step` turns the flag on exactly at such lines and adds no row for them. `NoRowHoldsHeaderToken` states that no kept cell contains `"Date"`. |
| ResponseTable.IsDecoration | main.py:40 | A decoration line is one that stripping the pipe, dash and space characters leaves empty. `DecorationExactly` states that this holds exactly when the line is made only of pipes, `-` and spaces. |
| ResponseTable.DecorationExactly | main.py:40 | `strip` of the pipe, dash and space characters is empty exactly when the line is made only of those characters. |
| PyStr.Contains | main.py:37 | `sub in s`: sub occurs at some position of s. `ContainsTransitive` states that a substring of a substring is a substring. `MissingCharNotContained` states that a string lacking some character of sub does not contain sub. |
| PyStr.SplitOn | main.py:31 | `s.split(sep)` for a one-character separator always gives at least one piece. `JoinSplit` and `SplitJoin` state the round trip with join. `SplitOnPieces` states that the pieces are separator-free substrings. |
| PyStr.Strip | main.py:40 | `s.strip(chars)`. `StripSpec` states that the result is a substring that neither begins nor ends with a stripped character, and that it is empty exactly when every character of s is stripped. |
| PyStr.Trim | main.py:42 | `s.strip()`, meaning `Strip` with the characters for which `str.isspace()` holds. `StripSpec` and `StripSurrounded` characterise it. |
| TableProperties.Origins | main.py:35-45 | The positions of the lines that produce a row, in strictly increasing order. Each one is a kept line after a header, and no such line is missing. |
| ResponseTable.Frame | main.py:47-49 | The frame has one row per kept row. The columns are the cells in the order Date, Concept, Amount (MXN), Type. The amount is the third cell with its commas removed and contains no comma. |
| ResponseTable.CastAmounts | main.py:49 | The cast succeeds exactly when every amount parses, and then converts each row's amount in place. Otherwise it fails on the first row whose amount does not parse, naming that row and its amount. |
| ResponseTable.CastFailsOnFirstRow | main.py:47-49 | When the first row's amount, with its commas removed, does not parse, the cast fails on row 0 with that amount, whatever the other rows hold. |
| TableProperties.ScanPrefix | main.py:35-45 | After any prefix of the lines, the flag is on exactly when a header line came before. The rows are the cells of the lines `Origins` picks, in order. |
| TableProperties.ScanMatchesOrigins | main.py:35-45 | The loop's result, described line by line: the flag records whether a header was seen. The rows are the cells of the kept lines after a header, one row per line, in input order. |
| TableProperties.RowsFollowHeaderInOrder | main.py:35-45 | Each row comes from a kept line that has a header line before it. Rows come from distinct lines, in strictly increasing line order. Every kept line after a header gives a row. |
| TableProperties.NoRowHoldsHeaderToken | main.py:37-39 | No cell of any row contains `"Date"`: a pipe line with `"Date"` is never turned into a row, before or after the header. |
| TableProperties.NoHeaderNoRows | main.py:33-40 | A reply without a header line gives no rows. |
| TableProperties.PreambleIgnored | main.py:33-40 | Lines before the first header are ignored whatever they hold, including pipe lines with four cells. |
| TableProperties.RunWithoutHeader | main.py:33-40 | Without a header line, the loop ends in its initial state. |
| TableProperties.RunAppend | main.py:35 | Running the loop over two blocks of lines is running it over the first block and then the second. |
| TableProperties.EarlierRowsKept | main.py:32-45 | Later lines never remove or change a row: the rows of a prefix of the reply are a prefix of the rows of the whole reply. |
| TableProperties.NonPipeLineIgnored | main.py:35-36 | Removing a line without a pipe from anywhere in the reply changes neither the flag nor the rows. |
| TableProperties.DecorationLineIgnored | main.py:40 | A line made only of pipes, `-` and spaces leaves the state as it is, before or after the header. |
| TableProperties.OriginsBound | main.py:35-45 | At most one row per pipe line that has a header before it and is not a header itself. |
| TableProperties.RowCountBound | main.py:35-45 | There are at most as many rows as pipe lines that come after a header and are not headers. |
| TableProperties.CellsOfRenderedRow | main.py:41-43 | A line written from well-formed cells as a pipe, then each cell between spaces followed by a pipe, gives back exactly those cells, in order. |
| TableProperties.SplitRenderedCells | main.py:41 | Splitting the text after a rendered line's leading pipe gives the padded cells and a final empty piece. |
| TableProperties.TrimAndDropPadded | main.py:42-43 | Stripping space-padded well-formed cells and dropping the empty last piece gives back the cells. |
| TableProperties.RenderedRowKept | main.py:36-45 | After the header, a rendered line of four well-formed cells is added as exactly one row holding exactly those cells. The line must not contain `"Date"` and must hold a character other than the pipe, `-` and space. |
| TableProperties.RenderedHeader | main.py:36-38 | A rendered line whose first cell is `"Date"` is a header line. |
| PyStr.SplitOnPieces | main.py:41 | The first piece of a split is a prefix of the string. Every piece is free of the separator and is a substring of the string. |
| PyStr.JoinSplit | main.py:41 | Joining the pieces of a split with the separator gives back the string. |
| PyStr.SplitJoin | main.py:41 | Splitting a join of separator-free pieces gives back the pieces. |
| PyStr.SplitAfterPiece | main.py:41 | Splitting a separator-free piece, the separator and a rest gives the piece followed by the split of the rest. |
| PyStr.StripLeftSpec | main.py:40-42 | Stripping on the left removes a prefix made of stripped characters. The result is a suffix and does not begin with a stripped character. |
| PyStr.StripRightSpec | main.py:40-42 | Stripping on the right removes a suffix made of stripped characters. The result is a prefix and does not end with a stripped character. |
| PyStr.StripSpec | main.py:40-42 | `strip(chars)` gives a substring that neither begins nor ends with a stripped character. It is empty exactly when every character of the string is stripped. |
| PyStr.StripSurrounded | main.py:42 | Stripping a middle part surrounded by stripped characters gives the middle part, when its ends are not stripped. |
| PyStr.StripIdempotent | main.py:40-42 | Stripping twice is stripping once. |
| PyStr.RemoveCommas | main.py:49 | The cleaned amount has no comma, is no longer than the original, and keeps every other character with its count. |
| PyStr.RemoveCommasAppend | main.py:49 | Removing commas distributes over concatenation. |
| PyStr.RemoveCommasNoComma | main.py:49 | A string without commas is unchanged. |
| PyStr.RemoveCommasIdempotent | main.py:49 | Removing commas twice is removing them once. |
| PyStr.RemoveCommasIgnoresInsertedComma | main.py:49 | Inserting a comma anywhere does not change the cleaned amount, so `"1,234.50"` and `"1234.50"` clean the same. |
| TableExamples.HeaderThenRentRows | main.py:31-45 | The header line with cells Date, Concept, Amount (MXN), Type, followed by the line with cells 2024-11-01, RENTA DEPTO CHAPULTEPEC, 12,345.00, Expense, gives exactly one row, the second line's four cells. |
| TableExamples.HeaderThenRent | main.py:31-49 | The frame of that reply is one transaction: 2024-11-01, RENTA DEPTO CHAPULTEPEC, 12345.00, Expense. |
| TableExamples.HeaderThenRule | main.py:31-45 | A header followed only by the rule line of four `---` columns gives no rows. |
| TableExamples.AlignedRuleCells | main.py:40-43 | The rule line of four `:---` columns is neither a header nor a decoration line, and its cells are four `":---"`. |
| TableExamples.HeaderThenAlignedRule | main.py:31-49 | A header followed by an aligned rule gives one row of `":---"` cells. A cast that rejects `":---"` then fails on row 0. |
| TableExamples.AlignedRuleFirstRow | main.py:31-45 | In a reply made of the header, the aligned rule and any further text, the first row is the four `":---"` cells. |
| TableExamples.AlignedRuleBreaksCast | main.py:31-49 | For such a reply, whatever follows the aligned rule, a cast that rejects `":---"` fails on row 0. |
| TableExamples.RentKept | main.py:36-45 | After the header, the transaction line adds its four cells as one row. |
| TableExamples.CommaVariantsAgree | main.py:49 | `"1,234.50"` and `"1234.50"` both clean to `"1234.50"`. |
| TableExamples.EmptyReply | main.py:31-47 | The empty reply gives an empty table. |

## Left out

- `convert_pdf_to_images` (main.py:11-20) is not part of this model. It rasterises PDF pages through a foreign library.
- `init_client` and `process_pdf` (main.py:23-26, 54-110) are not part of this model. They read secrets, call a remote language-model service, base64-encode images and hold a constant prompt. The reply they return is the `response` parameter of `ExtractTable`.
- `create_excel_download_link` (main.py:113-121) is not part of this model. It writes a spreadsheet to a temporary file.
- `main` (main.py:124-211) is not part of this model. It is the interactive page, with its filters, chart, and income and expense totals computed in floating point.
- CastAmounts: the floating-point parsing done by `astype(float)` is not modelled. The parser is a parameter `string -> Option<A>`, and a failed cast is a `Failure` value, not an exception. Which value pandas names in its error message is not modelled. The model names the first row whose amount fails.
- Frame: the pandas `DataFrame` is modelled as a sequence of four-field records. Its index, dtypes and column labels are not modelled.
- Python strings are sequences of code points. The model's strings are sequences of Unicode scalar values, so a reply holding a lone surrogate (U+D800 to U+DFFF) is not modelled. `str.isspace()` is modelled by its fixed set of whitespace characters, `Whitespace` in `PyStr`.
