# HANA Cloud SELECT executor — Dafny model

`execute_sql_query_hana_cloud_database.py` is a small command-line tool. It
connects to an SAP HANA Cloud database, accepts only SELECT statements, caps how
many rows a statement can return, and prints the result as a fixed-width text
table. This project models the tool's decision logic and its table renderer, and
proves properties of both.

- `wrappers.dfy` (`Wrappers`): `Option`, standing in for Python's `None`.
- `text.dfy` (`Text`): the Python string operations the tool relies on, over
  ASCII text:
  - `str.isspace`, `upper`, `lstrip`, `split`, `rstrip(';')`;
  - `" | ".join`, `ljust`, `c * n`;
  - `str(int)`, and `int(str)` as its inverse.
- `query_guard.dfy` (`QueryGuard`): `is_select_query`. It has two
  definitions:
  - the one the code uses: split into words, join with single spaces, upper-case,
    test for the prefix SELECT;
  - an independent reference: drop the leading whitespace, upper-case, test for
    the prefix.

  They are proved equal. The guard is proved to ignore case and extra whitespace.
- `query_executor.dfy` (`QueryExecutor`): the `QueryResult` record and
  `execute_query`, which covers:
  - the empty-query guard and the SELECT guard;
  - the row-cap rewrite (add ` LIMIT {max_rows}` unless the text already says
    LIMIT);
  - the single statement sent to the cursor;
  - building the result from the cursor's description and rows.

  The cursor is a parameter: a function from the submitted text to what the
  database returns. The model records which statements were submitted. So "a
  refused query never reaches the database" is a proved fact.
- `result_renderer.dfy` (`ResultRenderer`): `display_results`, as the list of
  lines it prints. It is imperative, like the source:
  - `ComputeWidths` runs the nested width loops;
  - `DisplayResults` builds the lines row by row;
  - both are proved equal to the specification functions `ColumnWidths` and
    `Table`, and the table's properties are proved about those functions.

Three behaviours of the code are easy to misread; the model keeps them as written:

- `rstrip(';')` removes every trailing semicolon, not just one.
  `QueryExecutor.ApplyRowCap` states this. `PrepareExampleSemicolons` shows
  `select * from t;;` becoming `select * from t LIMIT 1000`.
- `ljust` pads the last column as well. So the header for the columns `ID`,
  `NAME` over the rows `1 Alice` and `2 Bob` is `ID | NAME ` (with a trailing
  space). `ResultRenderer.TableExample` states the whole table.
- The check "already has a LIMIT" applies to the whole text. Any mention counts,
  such as an identifier like `unlimited` or a string literal. A semicolon
  followed by trailing whitespace is not stripped, because `rstrip(';')` stops at
  the whitespace. The model keeps both behaviours.

## Model

| member | source | states |
|---|---|---|
| Text.IsSpace | execute_sql_query_hana_cloud_database.py:79 | the whitespace that `str.isspace`, `split()` and `strip()` recognise on ASCII text (codes 9-13 and 28-32); the body is the definition, and `Split`, `TrimLeading` and `SplitDecomposes` state what is built on it |
| Text.Upper | execute_sql_query_hana_cloud_database.py:79 | upper-casing keeps the length and maps each character by `UpperChar`: `a`-`z` become the matching `A`-`Z`, every other character is unchanged |
| Text.TrimLeading | execute_sql_query_hana_cloud_database.py:79 | the result is a suffix of the input; everything dropped is whitespace; the result is empty or starts with a non-space |
| Text.Split | execute_sql_query_hana_cloud_database.py:79 | `split()` yields only non-empty, whitespace-free words; `SplitDecomposes` ties them to the text |
| Text.SplitDecomposes | execute_sql_query_hana_cloud_database.py:79 | the text is its words separated by whitespace gaps: the first gap is the leading whitespace, every gap between two words is non-empty, so the words are exactly the maximal whitespace-free runs in order |
| Text.TrimTrailing | execute_sql_query_hana_cloud_database.py:95 | `rstrip(c)` keeps a prefix, removes only `c`s, and leaves a text that is empty or does not end in `c` |
| Text.LeftJustify | execute_sql_query_hana_cloud_database.py:129 | `ljust`: the length is max(len, width); the text stays in front, whole; only spaces follow it |
| Text.Repeat | execute_sql_query_hana_cloud_database.py:130 | `c * n` has length `n` and holds only `c` |
| Text.IntToDecimal | execute_sql_query_hana_cloud_database.py:95 | `str(n)` is non-empty, starts with `-` exactly when `n` is negative, has only digits after the sign, and has no leading zero unless it is `0`; so it is a decimal text (`IsDecimalText`) |
| Text.ParseIntToDecimal | execute_sql_query_hana_cloud_database.py:143 | reading back the decimal text of any integer gives that integer |
| Text.DecimalTextIsCanonical | execute_sql_query_hana_cloud_database.py:95 | printing the value a decimal text reads as gives that text back; with `ParseIntToDecimal`, a decimal text that reads as `n` is exactly `str(n)` |
| Text.Join | execute_sql_query_hana_cloud_database.py:129 | `sep.join(parts)`; no contract of its own, its meaning is stated by `JoinPartAt`, `JoinSeparatorAfter`, `OffsetStep` and `JoinEndsAfterLastPart` |
| Text.JoinPartAt | execute_sql_query_hana_cloud_database.py:129 | in a join, each part stands whole at its offset |
| Text.JoinSeparatorAfter | execute_sql_query_hana_cloud_database.py:129 | in a join, the separator follows every part but the last |
| Text.OffsetStep | execute_sql_query_hana_cloud_database.py:129 | in a join, each part after the first begins exactly one separator after the end of the part before it |
| Text.JoinEndsAfterLastPart | execute_sql_query_hana_cloud_database.py:129 | a join of at least one part ends right after its last part |
| Text.JoinShapeDependsOnLengths | execute_sql_query_hana_cloud_database.py:136-139 | joins of parts with equal lengths have the same length, and each part starts at the same offset |
| Text.StartsWith | execute_sql_query_hana_cloud_database.py:80 | `s.startswith(prefix)`: the prefix fits and the first characters of `s` are the prefix; the body is the definition |
| Text.Contains | execute_sql_query_hana_cloud_database.py:94 | `pattern in s`; no contract of its own, its meaning is stated by `ContainsCharacterised` |
| Text.ContainsCharacterised | execute_sql_query_hana_cloud_database.py:94 | `pattern in s` holds exactly when the pattern stands at some position of `s` |
| QueryGuard.CleanedSql | execute_sql_query_hana_cloud_database.py:79 | the whitespace-collapsed, upper-cased text; no contract of its own, its meaning is stated by `CollapsedPrefix` and `IsSelectQueryCharacterised` |
| QueryGuard.IsSelectQuery | execute_sql_query_hana_cloud_database.py:77-80 | `is_select_query` as the code computes it; no contract of its own, its meaning is stated by `IsSelectQueryCharacterised` |
| QueryGuard.IsSelectQueryCharacterised | execute_sql_query_hana_cloud_database.py:77-80 | the collapse-and-test of the code equals the reference: upper-cased, and with leading whitespace removed, the text begins with SELECT |
| QueryGuard.CollapsedPrefix | execute_sql_query_hana_cloud_database.py:79 | for any whitespace-free prefix, collapsing whitespace runs gives the same answer as only trimming the front |
| QueryGuard.UpperCommutesWithTrim | execute_sql_query_hana_cloud_database.py:79 | upper-casing and trimming leading whitespace can be done in either order |
| QueryGuard.SelectIgnoresCase | execute_sql_query_hana_cloud_database.py:79-80 | texts with the same upper-case form get the same verdict |
| QueryGuard.SelectIgnoresExtraSpace | execute_sql_query_hana_cloud_database.py:79-80 | inserting whitespace at either end or next to whitespace does not change the verdict |
| QueryGuard.SelectIsNotBlank | execute_sql_query_hana_cloud_database.py:84-90 | a text that passes the SELECT test is never blank; so every blank text also fails the SELECT test, and the empty-query guard only decides which of the two rejections is reported |
| QueryGuard.SelectExampleLowerCase | execute_sql_query_hana_cloud_database.py:77-80 | `  select   * from t` is accepted |
| QueryGuard.SelectExampleUpdate | execute_sql_query_hana_cloud_database.py:77-80 | `UPDATE t SET x=1` is refused |
| QueryGuard.SelectExampleComment | execute_sql_query_hana_cloud_database.py:77-80 | a SELECT behind a leading `--` comment is refused |
| QueryExecutor.MentionsLimit | execute_sql_query_hana_cloud_database.py:94 | `'LIMIT' in sql.upper()`; no contract of its own, its meaning is stated by `MentionsLimitCharacterised` |
| QueryExecutor.MentionsLimitCharacterised | execute_sql_query_hana_cloud_database.py:94 | the test holds exactly when `LIMIT` stands at some position of the upper-cased text |
| QueryExecutor.RowCapClause | execute_sql_query_hana_cloud_database.py:95 | the appended clause; no contract of its own, its meaning is stated by `RowCapClauseReadsBack` |
| QueryExecutor.RowCapClauseReadsBack | execute_sql_query_hana_cloud_database.py:95 | the appended clause starts with ` LIMIT `; the rest is a decimal text that reads back as `max_rows`, so by `DecimalTextIsCanonical` it is exactly `str(max_rows)` |
| QueryExecutor.ApplyRowCap | execute_sql_query_hana_cloud_database.py:94-95 | the result always mentions LIMIT. Text that already mentions LIMIT is unchanged. Otherwise the result is the text minus all its trailing semicolons (and nothing else), followed by ` LIMIT {max_rows}` |
| QueryExecutor.RowCapIsIdempotent | execute_sql_query_hana_cloud_database.py:94-95 | rewriting a rewritten query changes nothing, whatever `max_rows` is used the second time |
| QueryExecutor.RowCapKeepsSelect | execute_sql_query_hana_cloud_database.py:94-95 | the rewrite of a SELECT query still passes the SELECT test |
| QueryExecutor.PrepareStatement | execute_sql_query_hana_cloud_database.py:84-95 | refused as empty exactly when the text is blank; refused as not-SELECT exactly when it is not blank and fails the test; otherwise submitted. The submitted text is the row-capped rewrite, passes the SELECT test and mentions LIMIT |
| QueryExecutor.PrepareIsIdempotent | execute_sql_query_hana_cloud_database.py:84-95 | preparing an already-prepared statement again submits it unchanged |
| QueryExecutor.PrepareExampleBlank | execute_sql_query_hana_cloud_database.py:84-86 | a query of three spaces is refused as empty |
| QueryExecutor.PrepareExampleUpdate | execute_sql_query_hana_cloud_database.py:88-90 | `UPDATE t SET x=1` is refused as not-SELECT |
| QueryExecutor.PrepareExampleLimited | execute_sql_query_hana_cloud_database.py:94 | `SELECT * FROM t LIMIT 5` is submitted as written |
| QueryExecutor.PrepareExampleSemicolons | execute_sql_query_hana_cloud_database.py:94-95 | `select * from t;;` is submitted as `select * from t LIMIT 1000` |
| QueryExecutor.MakeQueryResult | execute_sql_query_hana_cloud_database.py:101-108 | the columns are the description's names in order; the rows are the fetched rows; `row_count` equals the number of rows |
| QueryExecutor.ExecuteQuery | execute_sql_query_hana_cloud_database.py:82-112 | at most one statement is submitted. A refused query submits nothing and gives None. Otherwise exactly the prepared statement is submitted. A result exists only when the cursor returned a description; it is then `MakeQueryResult` of that description and the fetched rows: the description's names in order, the fetched rows, and a count equal to their number. A raised error or a missing description gives None |
| ResultRenderer.NaturalWidth | execute_sql_query_hana_cloud_database.py:123-125 | the uncapped width is at least the name's length and every cell's length, and equals one of them |
| ResultRenderer.ColumnWidths | execute_sql_query_hana_cloud_database.py:121-126 | one width per column; no further contract of its own, its meaning is stated by `ColumnWidthIsCappedMaximum`, and `ComputeWidths` is proved to compute it |
| ResultRenderer.ColumnWidthIsCappedMaximum | execute_sql_query_hana_cloud_database.py:121-126 | every width is at most 50 and at least min(len, 50) of the name and of every cell in its column; it equals the name's length or some cell's length, or it is 50 and the name or some cell is at least 50 long, so it is min(50, max of those lengths) |
| ResultRenderer.ComputeWidths | execute_sql_query_hana_cloud_database.py:121-126 | the nested loops compute exactly the capped widths |
| ResultRenderer.Fields | execute_sql_query_hana_cloud_database.py:136-139 | one field per column; each field is as long as the larger of the cell and the width, holds the whole cell in front, and only spaces after it |
| ResultRenderer.RenderLine | execute_sql_query_hana_cloud_database.py:129-139 | the fields joined by the column separator; no contract of its own, its meaning is stated by `FieldShownInFull` and `FittingLinesAlign` |
| ResultRenderer.RenderRows | execute_sql_query_hana_cloud_database.py:135-140 | one printed line per row; its lines are placed in order by `Table`, and `DisplayResults` is proved to print them |
| ResultRenderer.TotalLine | execute_sql_query_hana_cloud_database.py:143 | the closing line starts with `Total rows: `; the rest is a decimal text that reads back as the count, so by `DecimalTextIsCanonical` it is exactly `str(row_count)` |
| ResultRenderer.FieldShownInFull | execute_sql_query_hana_cloud_database.py:129-139 | no field is truncated: each cell stands whole at its field's start, then spaces up to the width, then the column separator and the next field unless it is the last column, in which case the line ends right there |
| ResultRenderer.FittingFields | execute_sql_query_hana_cloud_database.py:136-139 | a cell no longer than its width gives a field exactly that wide |
| ResultRenderer.FittingLinesAlign | execute_sql_query_hana_cloud_database.py:129-139 | lines whose cells fit the widths have the same length and the same column offsets |
| ResultRenderer.Table | execute_sql_query_hana_cloud_database.py:116-143 | None or `row_count == 0` prints only `No results found.`. Otherwise the lines are, in order: an empty line; `=` as long as the header; the header; `-` as long as the header; the rows in input order; `=` as long as the header; `Total rows: N` |
| ResultRenderer.DisplayResults | execute_sql_query_hana_cloud_database.py:114-143 | the row loop prints exactly the lines of `Table` |
| ResultRenderer.TableColumnsLineUp | execute_sql_query_hana_cloud_database.py:126-139 | when the names and the cells of a row are at most 50 long, that row's line is exactly as wide as the header and every cell starts under its column name |
| ResultRenderer.TotalLineReportsRowCount | execute_sql_query_hana_cloud_database.py:143 | the last line begins `Total rows: `, followed by a decimal text that reads back as `row_count`, which is therefore exactly `str(row_count)` |
| ResultRenderer.TotalOfExecutedQuery | execute_sql_query_hana_cloud_database.py:107-143 | for a result built by `execute_query`, the table has one line per row plus six, and reports the number of fetched rows |
| ResultRenderer.TableExample | execute_sql_query_hana_cloud_database.py:114-143 | columns `ID`, `NAME` over rows `1 Alice`, `2 Bob` print eight lines, from a rule of ten `=` and the padded header to `Total rows: 2` |

## Left out

- `connect`, `disconnect`, `main`, `__init__`: they read environment variables,
  open and close the database session, and read the query from the command-line
  argument, all of which is I/O. The cursor is a parameter of `QueryExecutor.ExecuteQuery` instead.
- Logging calls and the import guards at the top of the file: they only produce
  output or exit the process.
- `str()` of arbitrary cell values and column names: cells are taken as
  already-rendered text (`QueryExecutor.Cell`). An integer cell `1` is the text
  `1`.
- Non-ASCII text:
  - `upper()` changes only `a`-`z`;
  - whitespace is the ASCII characters that `str.isspace` accepts (codes 9-13 and
    28-32);
  - Unicode case mappings that change length (such as `ß` to `SS`) and Unicode
    spaces are not modelled.
- `sql.strip()` before `split()` in `is_select_query` is not modelled as a
  separate step: `split()` already drops that leading and trailing whitespace.
- The exception path of `execute_query` is folded into the cursor's reply.
  `execute` or `fetchall` raising is `Raised`. A statement without a result set
  (`description` is None, which makes the list comprehension raise) is
  `Fetched(None, ...)`. Both give None. Which exception it was is not modelled.
- `max_rows` of a type other than `int` is not modelled. Any integer is rendered
  with its decimal text, including zero and negative values.
- The truthiness test `not result` is modelled as "result is None": a
  `QueryResult` instance is always true in Python.
- `DisplayResults`: requires every row to have a cell for each column when a
  table is drawn. On a shorter row the source raises IndexError, which the model
  does not represent.
- Printing is modelled as producing the printed lines in order. The leading
  `"\n"` of the first rule is the empty first line. Writing to stdout itself is
  not modelled.
