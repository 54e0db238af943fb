# google-sheets-mcp table engine, in Dafny

The Google Sheets MCP server fetches a worksheet as a pandas data frame,
changes it with one of a handful of table operations, and writes it back.
This project models those table operations and the text preprocessing of
the server's tolerant JSON decoder, and proves properties of them:

- **Row operations** (`add_data`, `edit_data`, `delete_data`). A new row
  is appended with missing fields left empty. Rows are selected by a mask
  that is the conjunction of column-equality tests. Every matching row is
  edited or deleted. Unknown columns and "no row matches" fail before
  anything changes.
- **Column operations**:
  - `add_column` evaluates one of the formulas `concat`, `sum`, `multiply`,
    `divide` or `subtract` over reference columns. Its checks run in a fixed
    order.
  - `rename_column` relabels one column.
  - `transform_column` changes the case of a column, title-cases one part
    of a split value, rounds, or formats dates.
- **Missing-data cleaning** (`clean_data`) fills the gaps of each numeric
  column with the column's mean or median, or drops the incomplete rows.
- **Tolerant decoding** (`decode_json`) parses once. On failure it undoes
  `\"` and `\\` escapes, strips one layer of surrounding quotes, and parses
  once more.

A table is a value: ordered, distinct column names plus rows holding one
cell per column (`Tables.Table`, `Tables.Valid`). A cell is null, boolean,
integer, exact real, signed infinity or string. NaN is folded into null, as
pandas treats it as missing. Every operation returns a `Result`. Its error
cases follow the exceptions the source raises, in the order it raises them.

The modules follow the source:

| file | module | models |
|---|---|---|
| tables.dfy | `Tables` | cells, tables, errors, column lookup, dictionaries, `str()` of a cell, pandas `==` |
| text.dfy | `Text` | `str.join`, `str.split`, `str.replace`, `upper`/`lower`/`title`, `strip` |
| numeric.dfy | `Numeric` | pandas arithmetic on cells, row sum and product, `round`, mean and median |
| format.dfy | `PyFormat` | `str.format` with positional fields |
| data_operations.dfy | `DataOperations` | both copies of `tools/data_operations.py` |
| column_operations.dfy | `ColumnOperations` | both (identical) copies of `tools/column_operations.py` |
| clean_data.dfy | `Cleaning` | `src/tools/clean_data.py` |
| decode.dfy | `Decode` | `GoogleSheetsMCPServer.decode_json` in `mcp_google_sheets/server.py` |

The loops of `edit_data` and `delete_data` are methods with loop invariants:
- the identifier mask is built column by column (`DataOperations.BuildMask`);
- the updates are assigned field by field (`DataOperations.ApplyUpdates`).

Each method is proved against a specification function (`MatchMask`,
`Edited`). The lemmas about the operations are proved about those functions.
The other operations are expressions in the source and functions here.

Foreign code enters as function parameters:
- the JSON parser `pd.read_json(..., orient='split')` is a `Decode.Reader`;
- `to_json` is a `Table -> string`;
- date parsing with `strftime` is a `ColumnOperations.DateFormatter`.

## Model

| member | source | states |
|---|---|---|
| DataOperations.AddData | mcp_google_sheets/tools/data_operations.py:4-16 | (Also src/tools/data_operations.py, lines 4-13.) Keys of `row_data` that are not columns fail with exactly those names. Otherwise the columns are kept and exactly one row is appended after the unchanged existing rows. Each of its cells is the value given for that column, or null when none is given. |
| DataOperations.MissingIsEmpty | mcp_google_sheets/tools/data_operations.py:12-14 | The list of invalid keys is empty exactly when every key is a column. |
| DataOperations.AddedRowMatches | mcp_google_sheets/tools/data_operations.py:16 | With distinct keys and non-null values, the appended row matches `row_data` used as an identifier, so it can be found and edited afterwards. |
| DataOperations.BuildMask | mcp_google_sheets/tools/data_operations.py:35-37 | (Also src/tools/data_operations.py, lines 27-29.) The loop that starts all-true and ANDs in one equality per identifier pair yields `MatchMask`. Row `i` is selected exactly when every pair's column equals its value under pandas `==`. |
| DataOperations.EmptyIdentifierMatchesAll | mcp_google_sheets/tools/data_operations.py:35 | An empty identifier selects every row. |
| DataOperations.MatchNeedsValues | mcp_google_sheets/tools/data_operations.py:37 | A selected row has a non-null cell in every identifier column, and no identifier value is null: a missing value matches nothing. |
| DataOperations.EditData | mcp_google_sheets/tools/data_operations.py:18-45 | (Also src/tools/data_operations.py, lines 15-40.) Unknown identifier columns fail first, then unknown update columns, then "no row found". Otherwise the result is `Edited` over the identifier's mask: the update loop and the mask loop are proved to compute it. |
| DataOperations.ApplyUpdates | mcp_google_sheets/tools/data_operations.py:42-43 | Assigning each `(field, value)` of `updated_data` to the masked rows, in order, gives `Edited(t, mask, upd)`. |
| DataOperations.EditRowSnoc | mcp_google_sheets/tools/data_operations.py:43 | One more assignment sets exactly that field of a matching row to the value: a repeated key ends with its last value. |
| DataOperations.EditedCells | mcp_google_sheets/tools/data_operations.py:42-45 | The edited table is well formed. A cell of a selected row whose column is updated takes the (last) update value. Every other cell, and every unselected row, is unchanged. |
| DataOperations.EditIdempotent | mcp_google_sheets/tools/data_operations.py:35-45 | When the update does not touch the identifier columns, the same rows still match after the edit, and editing again changes nothing. |
| DataOperations.DeleteData | mcp_google_sheets/tools/data_operations.py:47-67 | (Also src/tools/data_operations.py, lines 42-59.) Unknown identifier columns fail, then "no row found". Otherwise the columns are kept and the rows are exactly the unselected rows in their order (`Keep` with the negated mask). |
| DataOperations.Keep | mcp_google_sheets/tools/data_operations.py:67 | `df[~mask]`: every kept row is a row whose mask entry is set, and the result is no longer than the input. |
| DataOperations.KeepKeeps | mcp_google_sheets/tools/data_operations.py:67 | Every row whose mask entry is set is kept. |
| DataOperations.KeepSplits | mcp_google_sheets/tools/data_operations.py:67 | The rows a mask keeps and the rows its negation keeps together are a permutation of all rows. |
| DataOperations.DeleteLeavesNoMatch | mcp_google_sheets/tools/data_operations.py:60-67 | No row left after deleting matches the identifier. |
| DataOperations.DeleteKeepsTheRest | mcp_google_sheets/tools/data_operations.py:60-67 | Every row that does not match the identifier survives the delete. |
| DataOperations.LookupDistinct | mcp_google_sheets/tools/data_operations.py:16 | In a dictionary with distinct keys, each key is bound to its own value. |
| ColumnOperations.AddColumn | mcp_google_sheets/tools/column_operations.py:4-55 | (The same lines in src/tools/column_operations.py.) The checks fail in this order: missing reference columns (with their names), an existing new name, an unknown formula, then `divide`/`subtract` without exactly two references. On success the table is well formed, gains the new column last, keeps every original cell, and each new cell is the formula's value on that row's reference cells. It fails exactly when some row's evaluation fails. |
| ColumnOperations.NewColumn | mcp_google_sheets/tools/column_operations.py:32-51 | The column is computed row by row. When it succeeds each cell is that row's value. When it fails, the error is the first failing row's error and all earlier rows succeed. |
| ColumnOperations.ConcatJoined | mcp_google_sheets/tools/column_operations.py:26-39 | Without a truthy `format_string`, a cell is the stringified prefix, the stringified values joined by the separator, and the suffix. With no parameters it is the values joined by one space. |
| ColumnOperations.ConcatSplitRoundTrip | mcp_google_sheets/tools/column_operations.py:36-39 | Splitting a default `concat` cell on the space gives back the stringified reference values when none contains a space. |
| ColumnOperations.ConcatFormatted | mcp_google_sheets/tools/column_operations.py:31-34 | A `format_string` of brace-free text around `{}` fields is filled with the stringified values in reference order. A template with more fields than references fails with the index of the first missing argument. |
| ColumnOperations.SumAndProductOfInts | mcp_google_sheets/tools/column_operations.py:41-44 | On integer cells, `sum` and `multiply` give the integer sum and product of the row's reference values. |
| ColumnOperations.BinaryFormulas | mcp_google_sheets/tools/column_operations.py:45-51 | `subtract` is `ref[0] - ref[1]`: adding `ref[1]` back restores `ref[0]`. `divide` by a finite non-zero `ref[1]` is undone by multiplying back. A non-zero number divided by zero is an infinity of its sign. |
| ColumnOperations.RenameColumn | mcp_google_sheets/tools/column_operations.py:57-66 | (The same lines in src/tools/column_operations.py.) An absent old name fails first, then a new name that is already a column (so renaming a column to itself fails). Otherwise exactly the old label is replaced at its position, and the rows are unchanged. |
| ColumnOperations.RenameRoundTrip | mcp_google_sheets/tools/column_operations.py:66 | Renaming back restores the original table. |
| ColumnOperations.TransformColumn | mcp_google_sheets/tools/column_operations.py:68-109 | (The same lines in src/tools/column_operations.py.) A missing column fails first, then an unknown transformation. On success only the named column changes, and each of its cells is the transformation of the old cell. It fails exactly when some cell's transformation fails. |
| ColumnOperations.TransformCells | mcp_google_sheets/tools/column_operations.py:84-105 | The column is transformed cell by cell, and the first failing cell decides the error. |
| ColumnOperations.CaseTransforms | mcp_google_sheets/tools/column_operations.py:83-86 | `uppercase`, `lowercase`, and `title_case` without a truthy `split_on`, never fail and give the upper-, lower- or title-cased `str()` of each cell. |
| ColumnOperations.TransformIdempotent | mcp_google_sheets/tools/column_operations.py:83-101 | Case changes and `round` with integer or boolean decimals, on a numeric column, settle after one application: transforming the result again gives the same table. |
| ColumnOperations.ApplySettles | mcp_google_sheets/tools/column_operations.py:83-101 | On one cell, upper case, lower case, whole-text title case, and `round` with integer or boolean decimals on a number or missing value all succeed, and applying them again to their own result changes nothing. |
| ColumnOperations.TransformSettles | mcp_google_sheets/tools/column_operations.py:80-105 | When a transformation succeeds on every cell of the column and changes nothing on its own results, transforming the result again gives the same table. |
| ColumnOperations.PartIndex | mcp_google_sheets/tools/column_operations.py:94 | An integer `part_index` selects part `i` exactly when `0 <= i < len(parts)`, and a selected index is always a valid part. |
| ColumnOperations.TitleCasePartSpec | mcp_google_sheets/tools/column_operations.py:92-96 | (The same lines in src/tools/column_operations.py.) With the index out of range the value comes back unchanged. With it in range, the text before and after that part is kept, and the part is replaced by its stripped, title-cased form. |
| ColumnOperations.FormulaForCases | mcp_google_sheets/tools/column_operations.py:25-51 | Each of the five formula names selects its own computation, and only `divide` and `subtract` take two operands. `concat` is formatted exactly when `format_string` is given and truthy, and then uses that value. With no parameters `concat` joins by one space with no prefix or suffix (lines 26-29). |
| ColumnOperations.EvaluateCases | mcp_google_sheets/tools/column_operations.py:31-51 | A joined `concat` never fails, and its text starts with the prefix and ends with the suffix. A formatted `concat` with a non-string template fails, and otherwise gives text when it succeeds. `sum` and `multiply` fail exactly when some reference value is neither a number nor missing, and otherwise give a number or a missing value. `divide` and `subtract` fail exactly when an operand is neither. |
| ColumnOperations.TransformForCases | mcp_google_sheets/tools/column_operations.py:83-105 | Each of the five transformation names selects its own cell transformation. `title_case` works part by part only when `split_on` is given and truthy, and then splits on that value at `part_index`, which defaults to -1. `round` uses `decimals`, defaulting to 0, and `format_date` uses `format`, defaulting to `%Y-%m-%d`. With no parameters, `title_case` works on the whole text, `round` uses 0 decimals, and `format_date` uses `%Y-%m-%d` (lines 88-89, 101, 104). |
| ColumnOperations.ApplyCases | mcp_google_sheets/tools/column_operations.py:84-105 | Upper, lower and whole-text title case never fail and give text as long as the cell's `str()`. `title_case_part` with a non-string separator fails. With a string separator it fails exactly when the part index cannot be compared. `round` fails exactly when the decimals are neither an integer nor a boolean, or the cell is neither a number nor missing. Boolean decimals round to 1 or 0 places, as Python treats `True` and `False`. `format_date` is the date formatter's result for the cell and the format. |
| ColumnOperations.TitleCasePart | mcp_google_sheets/tools/column_operations.py:92-96 | `title_case_part` fails exactly when `part_index` cannot be compared with the number of parts. An index outside the parts gives the text back unchanged. |
| ColumnOperations.TitleCaseDefaultIndex | mcp_google_sheets/tools/column_operations.py:88-97 | `title_case` with a non-empty string `split_on` and no `part_index` uses index -1, which is never in range, so it succeeds and every cell becomes its `str()` unchanged. |
| ColumnOperations.TruthyCases | mcp_google_sheets/tools/column_operations.py:31 | Python truthiness, as in `if format_string:` and `if split_on:` (line 91): `None`, `False`, `0`, `0.0` and the empty string are false, and every other value is true. |
| Cleaning.CleanTable | src/tools/clean_data.py:8-15 | `mean` (the default) and `median` fill the gaps with that statistic, and `drop` keeps exactly `DropNa` of the rows. Any other method fails as unknown. Every success keeps the columns and is well formed. |
| Cleaning.CleanData | src/tools/clean_data.py:5-17 | A parse error of the input wins over an unknown method. Otherwise the cleaned table is written back as text. |
| Cleaning.Present | src/tools/clean_data.py:9 | The values a statistic sees are the column's non-missing cells. |
| Cleaning.PresentKeepsValues | src/tools/clean_data.py:9 | Every non-missing cell is among them. |
| Cleaning.StatisticOf | src/tools/clean_data.py:9-11 | A numeric column without values has a missing mean and median. |
| Cleaning.FillNa | src/tools/clean_data.py:9-11 | Filling keeps the columns and the number of rows and gives a well-formed table. |
| Cleaning.FillNaColumn | src/tools/clean_data.py:9-11 | In a numeric column only the missing cells change, each to the column's statistic. A non-numeric column is left as it was. |
| Cleaning.FillLeavesNoGaps | src/tools/clean_data.py:9-11 | After filling, a finite numeric column with at least one value has no missing cell. |
| Cleaning.StatisticIsReal | src/tools/clean_data.py:9-11 | The mean and median of such a column are numbers, not missing values. |
| Cleaning.MeanInRange | src/tools/clean_data.py:9 | The mean fill value lies within any bounds all the column's values respect. |
| Cleaning.MedianInRange | src/tools/clean_data.py:11 | The median fill value has a column value at or below it and one at or above it. |
| Cleaning.FilledSum | src/tools/clean_data.py:9 | Filling gaps with `mu` adds `mu` once per gap to the column's sum. |
| Cleaning.FillWithMeanKeepsMean | src/tools/clean_data.py:9 | Filling a finite column with its mean leaves no gap and keeps the mean. |
| Cleaning.MeanFillKeepsMean | src/tools/clean_data.py:8-9 | The same, stated for `clean_data`'s mean filling of a table column. |
| Cleaning.DropNa | src/tools/clean_data.py:13 | Every kept row is complete and is a row of the input. |
| Cleaning.DropNaKeepsComplete | src/tools/clean_data.py:13 | Every complete row is kept. |
| Cleaning.DropNaOfComplete | src/tools/clean_data.py:13 | Rows that are all complete are kept as they are. |
| Cleaning.DropNaIdempotent | src/tools/clean_data.py:13 | Dropping twice is dropping once. |
| Cleaning.DropNaUnchanged | src/tools/clean_data.py:13 | Dropping changes nothing exactly when every row is complete. |
| Decode.DecodeJson | mcp_google_sheets/server.py:77-87 | A successful direct parse is the result. Otherwise the result is the single retry on the rewritten text, and a failure of the retry is the error returned. |
| Decode.Unescape | mcp_google_sheets/server.py:84 | The two replace-alls leave text without a backslash unchanged and never lengthen a text. |
| Decode.StripQuotes | mcp_google_sheets/server.py:85-86 | A text that starts and ends with `"` loses exactly those two characters, and a lone `"` becomes empty. Any other text is unchanged. |
| Decode.Rewrite | mcp_google_sheets/server.py:84-86 | Text with no backslash and not wrapped in double quotes is parsed again unchanged, and the rewritten text is never longer than the original. |
| Decode.RewriteQuote | mcp_google_sheets/server.py:84-86 | Un-escaping `\"` and then `\\` and stripping the quotes recovers any text from its quoted form, where only `\` and `"` are escaped. |
| Decode.DecodeQuoted | mcp_google_sheets/server.py:79-87 | A table whose JSON arrives quoted once more, with only `\` and `"` escaped, and so fails the direct parse, is read from the text it encodes. |
| Decode.FirstReplace | mcp_google_sheets/server.py:84 | What the first replace-all leaves of an escaped body and its closing quote. |
| Decode.SecondReplace | mcp_google_sheets/server.py:84 | The second replace-all turns that back into the body and the closing quote. |
| Text.SplitJoinRoundTrip | mcp_google_sheets/tools/column_operations.py:93-96 | Joining the parts of `text.split(split_on)` with `split_on` gives back the text. |
| Text.SplitOfJoin | mcp_google_sheets/tools/column_operations.py:36-37 | Splitting a one-character-separator join of parts that do not contain the separator gives back the parts. |
| Text.JoinAroundUpdate | mcp_google_sheets/tools/column_operations.py:95-96 | Replacing one part before joining changes only that stretch of the joined text. |
| Text.ReplaceIsSplitJoin | mcp_google_sheets/server.py:84 | `str.replace` is splitting on the pattern and joining with the replacement. |
| Text.ReplaceWithItself | mcp_google_sheets/server.py:84 | Replacing a pattern by itself changes nothing. |
| Text.ReplaceAbsent | mcp_google_sheets/server.py:84 | `str.replace` leaves text unchanged when the text does not contain the pattern's first character. |
| Text.ReplaceShortens | mcp_google_sheets/server.py:84 | `str.replace` with a replacement no longer than the pattern never lengthens the text. |
| Text.CaseChangesOnlyLetters | mcp_google_sheets/tools/column_operations.py:84-86 | `upper` and `lower` leave non-letters alone, leave no letter of the other case, and are idempotent and absorb each other. |
| Text.TitleAt | mcp_google_sheets/tools/column_operations.py:99 | `title` upper-cases a letter that follows a non-letter and lower-cases a letter that follows a letter, and leaves other characters alone. |
| Text.TitleIdempotent | mcp_google_sheets/tools/column_operations.py:95-99 | `title` is idempotent. |
| Text.Strip | mcp_google_sheets/tools/column_operations.py:95 | `strip` returns a slice of the text that neither starts nor ends with whitespace. |
| PyFormat.AutoFields | mcp_google_sheets/tools/column_operations.py:33 | `{}` fields take the arguments in order. Too few arguments fail with the index of the first missing one. |
| PyFormat.LiteralTemplate | mcp_google_sheets/tools/column_operations.py:33 | A template without braces formats to itself. |
| PyFormat.ManualField | mcp_google_sheets/tools/column_operations.py:33 | `{n}` takes argument `n` and fails when there is none. |
| Numeric.Sum | mcp_google_sheets/tools/column_operations.py:42 | A row sum fails exactly when some value is not a number or missing. |
| Numeric.Product | mcp_google_sheets/tools/column_operations.py:44 | The same for the row product. |
| Numeric.ProductOfFinite | mcp_google_sheets/tools/column_operations.py:44 | The product of a row of finite values succeeds, is finite, and equals the real product of the values. |
| Numeric.Add | mcp_google_sheets/tools/column_operations.py:42 | `a + b` fails exactly when an operand is neither a number nor missing, and the error is a type mismatch. A missing operand gives a missing value. Two finite values give a finite result equal to their sum. |
| Numeric.Subtract | mcp_google_sheets/tools/column_operations.py:51 | `a - b` fails exactly when an operand is neither a number nor missing. Two finite values give a finite result equal to their difference. |
| Numeric.Multiply | mcp_google_sheets/tools/column_operations.py:44 | `a * b` fails exactly when an operand is neither a number nor missing. Two finite values give a finite result equal to their product. |
| Numeric.SumSkipsMissing | mcp_google_sheets/tools/column_operations.py:42 | A missing value anywhere in a row does not change its sum. |
| Numeric.SumProductOfInts | mcp_google_sheets/tools/column_operations.py:42-44 | On integers the row sum and product are the integer sum and product. |
| Numeric.DivideMultiplyInverse | mcp_google_sheets/tools/column_operations.py:49 | Dividing by a finite non-zero value and multiplying back restores the value. |
| Numeric.SubtractAddInverse | mcp_google_sheets/tools/column_operations.py:51 | Subtracting and adding back restores the value. |
| Numeric.Divide | mcp_google_sheets/tools/column_operations.py:49 | Non-numbers fail. A finite value over a finite non-zero value is their quotient. A non-zero value over zero is an infinity of its sign, and zero over zero is missing. |
| Numeric.Round | mcp_google_sheets/tools/column_operations.py:101 | Rounding fails exactly on non-numbers, keeps missing values and infinities, and leaves integers with non-negative decimals unchanged. |
| Numeric.RoundRealError | mcp_google_sheets/tools/column_operations.py:101 | A rounded value is within half a unit of the last kept digit. |
| Numeric.RoundHalfEven | mcp_google_sheets/tools/column_operations.py:101 | The rounding rule numpy uses: the result is an integer within half a unit of the value, and when it is exactly half a unit away it is even. |
| Numeric.RoundHalfEvenNearest | mcp_google_sheets/tools/column_operations.py:101 | No integer is nearer to the value than the rounded one. |
| Numeric.RoundRealOnGrid | mcp_google_sheets/tools/column_operations.py:101 | A real rounded to `decimals >= 0` places, scaled by 10^decimals, is an integer. No integer is nearer to the scaled value, and a tie goes to the even integer. |
| Numeric.RoundIntOnGrid | mcp_google_sheets/tools/column_operations.py:101 | An integer rounded to `decimals < 0` places is a multiple of 10^-decimals. No multiple is nearer to it, and a tie goes to the even multiple. |
| Numeric.RoundIdempotent | mcp_google_sheets/tools/column_operations.py:101 | Rounding a rounded cell changes nothing. |
| Numeric.SortSpec | src/tools/clean_data.py:11 | The values the median is read from are sorted and are a permutation of the column's values. |
| Numeric.MeanBounds | src/tools/clean_data.py:9 | The mean of finite values lies within any bounds they all respect. |
| Numeric.Mean | src/tools/clean_data.py:9 | A mean is always a float: a real, an infinity or a missing value, never an integer. It is a real when every value is finite. |
| Numeric.MeanOfFinite | src/tools/clean_data.py:9 | The mean of finite values is their real sum divided by their count. |
| Numeric.Median | src/tools/clean_data.py:11 | A median is always a float: a real, an infinity or a missing value, never an integer. It is a real when every value is finite. |
| Numeric.Middle | src/tools/clean_data.py:11 | Of an already sorted list, the result is never an integer. For finite values it is the middle value as a float when the count is odd, and halfway between the two middle values when it is even. |
| Numeric.MedianBetweenMiddles | src/tools/clean_data.py:11 | The median lies between the two middle sorted values. |
| Numeric.MedianBounds | src/tools/clean_data.py:11 | The median of finite values is a real with some value at or below it and some value at or above it. |
| Tables.Missing | mcp_google_sheets/tools/column_operations.py:18-20 | The invalid names are exactly the given names that are not columns, and there are none exactly when every name is a column. |
| Tables.Lookup | mcp_google_sheets/tools/data_operations.py:16 | `dict.get` finds a key exactly when it is one of the keys, and then returns a value bound to it. |
| Tables.CellEquals | mcp_google_sheets/tools/data_operations.py:37 | Under pandas `==` a missing value equals nothing. An integer equals a real exactly when their values are the same. A string or a boolean equals only the same string or boolean. |
| Tables.CellEqualsSymmetric | mcp_google_sheets/tools/data_operations.py:37 | pandas `==` is symmetric, and every present value equals itself. |
| Tables.ShowCases | mcp_google_sheets/tools/column_operations.py:26-37 | `str()` of a cell, as used by `concat` and by `astype(str)` (lines 84-99): `None` is `"None"`, booleans are `"True"` and `"False"`, a string is itself, infinities are `"inf"` and `"-inf"`, and an integer starts with `-` exactly when it is negative. |
| Tables.NatToStringParses | mcp_google_sheets/tools/column_operations.py:33 | Reading back the decimal digits of a natural number gives the same number. |
| Tables.ShowIntParses | mcp_google_sheets/tools/column_operations.py:33 | `int(str(i)) == i` for an integer cell: a minus sign exactly when the value is negative, followed by the digits of its magnitude. |

## Left out

- Both `data_operations.py` copies and both `column_operations.py` copies
  are modelled once. The two `data_operations.py` copies differ only in
  where the frame copy is taken and in how the validation loop is written.
  The two `column_operations.py` copies are identical.
- Copies: `df.copy()` followed by column assignment into the copy, and the
  in-place `parts[part_index] = ...` of `title_case_part`, act on fresh,
  unshared values. They are modelled as functional updates (a new table, a
  sequence update) rather than updates in place. `edit_data`'s `.loc`
  assignment loop and the mask loop are kept as loops over sequence values.
- pandas dtypes: the model has no dtypes and so no dtype coercion. An
  integer column does not turn into floats when a null appears, columns are
  not upcast by `.loc` assignment, and there is no object-dtype mixing.
  `==` across kinds is false except between integers and reals.
- `str()` of a missing cell is always `"None"`. pandas prints `"nan"` for a
  NaN in a float column. Reals print their exact decimal expansion, cut at
  17 digits, rather than Python's shortest float repr. `-0.0` is the same
  as `0.0`.
- Numeric.Add, Numeric.Multiply, Numeric.Subtract, Numeric.SumProductOfInts, ColumnOperations.SumAndProductOfInts:
  integers are unbounded. The int64 wrap-around of numpy sums, products and
  differences (modulo 2^64, without warning) is not modelled, so a result
  past the int64 range differs from pandas.
- Floating point: reals are exact. IEEE rounding in sums, means and
  `round` is not modelled (`round` uses exact half-to-even). NaN is folded
  into the missing value.
- Booleans are not numbers in arithmetic here; they fail with a type
  mismatch. pandas adds booleans as 0 and 1. Boolean `decimals` and
  `part_index` parameters are the exception: they count as 0 and 1.
- `sum` over string cells fails with a type mismatch. pandas concatenates
  strings in a row sum.
- Numeric.Product and Numeric.Multiply: `multiply` over string cells fails
  with a type mismatch. pandas `prod(axis=1)` repeats a string by an
  integer (`"ab" * 2` is `"abab"`).
- A `format_string` that is truthy but not a string fails with a type
  mismatch on every row. The source fails with an attribute error.
- A `format_string` whose fields need arguments, over no reference columns
  or no rows: pandas' `apply` then gives back the empty frame instead of a
  column, and what the assignment does with it depends on the number of
  reference columns. The model fails with the missing index when there is
  a row and gives an empty column when there is none. Without such fields,
  the model gives every row the formula's value over no cells (the empty
  join, sum 0, product 1).
- `str.format` covers `{}`, `{n}`, `{{` and `}}` only. Conversions, format
  specs, attribute and index access, and named fields are refused with
  `UnsupportedField`.
- Case changes, `title` and `strip` follow the ASCII letters and ASCII
  whitespace only. Full Unicode case mapping is not modelled.
- `format_date`: parsing with `pd.to_datetime` and `strftime` is a
  per-cell parameter (`DateFormatter`). The column-wide format inference of
  `to_datetime` is not captured.
- JSON: `pd.read_json(..., orient='split')` and `to_json` are parameters of
  `Decode.DecodeJson` and `Cleaning.CleanData`. Their own behaviour is not
  modelled.
- Decode.RewriteQuote and Decode.DecodeQuoted: the quoted form escapes
  only `\` and `"`. `json.dumps` also writes control characters as escapes
  (a newline as `\n`) and non-ASCII characters as `\uXXXX`. The rewrite
  does not undo those escapes, so JSON that needed them is not recovered by
  the retry.
- `decode_json` is modelled for text input only. The branch that skips the
  rewrite when the argument is not a string is left out because the text
  type always holds a string. Its error logging is left out as well.
- Cleaning.StatisticOf: says only that a column without values gives a
  missing statistic. The value itself is its definition, and its
  properties are the lemmas (`MeanInRange`, `MedianInRange`,
  `FillWithMeanKeepsMean`).
- Cleaning.FillNa: the per-cell effect is stated per column by
  `FillNaColumn`, not in its own contract.
- `mean`/`median` with `numeric_only=True`: a column is numeric when every
  cell is a number or missing. pandas decides this from the column dtype,
  which can differ for boolean and all-missing columns.
- Fetching from and writing to Google Sheets is not part of this model.
  Neither is the rest of the server (tool registration, async threads,
  logging, the command line) or the race between concurrent
  fetch-change-write cycles.
