/**
 * `HANACloudExecutor.display_results`: the fixed-width text table printed for a
 * query result, modelled as the sequence of lines it prints.
 */
module ResultRenderer {
  import opened Wrappers
  import opened Text
  import opened QueryExecutor

  const MaxColumnWidth: nat := 50
  const ColumnSeparator: string := " | "
  const NoResultsNotice: string := "No results found."
  const TotalPrefix: string := "Total rows: "

  /** Every row has a cell for every column. */
  predicate RowsCoverColumns(columns: seq<string>, rows: seq<seq<Cell>>) {
    forall r :: 0 <= r < |rows| ==> |columns| <= |rows[r]|
  }

  /** What display_results needs to run without an IndexError: when a table is drawn at
      all, every row has a cell for every column. */
  predicate Renderable(result: Option<QueryResult>) {
    result.Some? && result.value.rowCount != 0 ==> RowsCoverColumns(result.value.columns, result.value.rows)
  }

  // ------------------------------------------------------------ column widths

  /** The widest of the column name and the cells of column `i`, before the cap. */
  function NaturalWidth(name: string, rows: seq<seq<Cell>>, i: nat): (w: nat)
    requires forall r :: 0 <= r < |rows| ==> i < |rows[r]|
    ensures |name| <= w
    ensures forall r :: 0 <= r < |rows| ==> |rows[r][i]| <= w
    ensures w == |name| || exists r :: 0 <= r < |rows| && w == |rows[r][i]|
    decreases |rows|
  {
    if rows == [] then |name|
    else
      var last := |rows| - 1;
      var before := rows[..last];
      assert forall r :: 0 <= r < last ==> before[r] == rows[r];
      var w := NaturalWidth(name, before, i);
      assert w != |name| ==> exists r :: 0 <= r < last && w == |rows[r][i]|;
      Max(w, |rows[last][i]|)
  }

  /** The column widths of `display_results`: each column's natural width, capped at 50. */
  function ColumnWidths(columns: seq<string>, rows: seq<seq<Cell>>): (widths: seq<int>)
    requires RowsCoverColumns(columns, rows)
    ensures |widths| == |columns|
  {
    seq(|columns|, i requires 0 <= i < |columns| => Min(NaturalWidth(columns[i], rows, i), MaxColumnWidth))
  }

  /** Each width is at most 50, fits the name and every cell of its column up to that cap,
      and is the cap or the length of the name or of one of those cells. */
  lemma ColumnWidthIsCappedMaximum(columns: seq<string>, rows: seq<seq<Cell>>, i: nat)
    requires RowsCoverColumns(columns, rows) && i < |columns|
    ensures ColumnWidths(columns, rows)[i] <= MaxColumnWidth
    ensures Min(|columns[i]|, MaxColumnWidth) <= ColumnWidths(columns, rows)[i]
    ensures forall r :: 0 <= r < |rows| ==> Min(|rows[r][i]|, MaxColumnWidth) <= ColumnWidths(columns, rows)[i]
    ensures var w := ColumnWidths(columns, rows)[i];
      w == |columns[i]| || (exists r :: 0 <= r < |rows| && w == |rows[r][i]|) ||
      (w == MaxColumnWidth && (MaxColumnWidth <= |columns[i]| || exists r :: 0 <= r < |rows| && MaxColumnWidth <= |rows[r][i]|))
  {
  }

  /** The nested width loops of `display_results`. */
  method ComputeWidths(columns: seq<string>, rows: seq<seq<Cell>>) returns (widths: seq<int>)
    requires RowsCoverColumns(columns, rows)
    ensures widths == ColumnWidths(columns, rows)
  {
    widths := [];
    for i := 0 to |columns|
      invariant widths == ColumnWidths(columns, rows)[..i]
    {
      var width := |columns[i]|;
      for j := 0 to |rows|
        invariant width == NaturalWidth(columns[i], rows[..j], i)
      {
        NaturalWidthStep(columns[i], rows, i, j);
        width := Max(width, |rows[j][i]|);
      }
      WidthsStep(columns, rows, i, widths, width);
      widths := widths + [Min(width, MaxColumnWidth)];
    }
  }

  lemma NaturalWidthStep(name: string, rows: seq<seq<Cell>>, i: nat, j: nat)
    requires j < |rows| && forall r :: 0 <= r < |rows| ==> i < |rows[r]|
    ensures NaturalWidth(name, rows[..j + 1], i) == Max(NaturalWidth(name, rows[..j], i), |rows[j][i]|)
  {
    assert rows[..j + 1][..j] == rows[..j];
  }

  lemma WidthsStep(columns: seq<string>, rows: seq<seq<Cell>>, i: nat, widths: seq<int>, width: int)
    requires RowsCoverColumns(columns, rows) && i < |columns|
    requires widths == ColumnWidths(columns, rows)[..i]
    requires width == NaturalWidth(columns[i], rows[..|rows|], i)
    ensures widths + [Min(width, MaxColumnWidth)] == ColumnWidths(columns, rows)[..i + 1]
  {
    assert rows[..|rows|] == rows;
  }

  // ------------------------------------------------------------------ lines

  /** The fields of one printed line: each cell left-justified to its column's width. */
  function Fields(cells: seq<string>, widths: seq<int>): (fields: seq<string>)
    requires |widths| <= |cells|
    ensures |fields| == |widths|
    ensures forall i :: 0 <= i < |widths| ==>
      && |fields[i]| == Max(|cells[i]|, widths[i])
      && fields[i][..|cells[i]|] == cells[i]
      && AllEqual(fields[i][|cells[i]|..], ' ')
  {
    seq(|widths|, i requires 0 <= i < |widths| => LeftJustify(cells[i], widths[i]))
  }

  /** `" | ".join(cell.ljust(widths[i]) ...)` over the first `|widths|` cells: the header and each row
      as `display_results` prints them. */
  function RenderLine(cells: seq<string>, widths: seq<int>): string
    requires |widths| <= |cells|
  {
    Join(Fields(cells, widths), ColumnSeparator)
  }

  /** Where the field of column `i` begins in a rendered line. */
  function FieldStart(cells: seq<string>, widths: seq<int>, i: nat): nat
    requires |widths| <= |cells| && i < |widths|
  {
    Offset(Fields(cells, widths), ColumnSeparator, i)
  }

  /** Fields are never truncated: the cell of column `i` stands in full at the start of its
      field, is padded with spaces up to the column width, and is followed by `" | "` and
      the next field unless it is the last column, in which case the line ends there. */
  lemma FieldShownInFull(cells: seq<string>, widths: seq<int>, i: nat)
    requires |widths| <= |cells| && i < |widths|
    ensures var line, start := RenderLine(cells, widths), FieldStart(cells, widths, i);
      var end := start + Max(|cells[i]|, widths[i]);
      && end <= |line|
      && line[start..start + |cells[i]|] == cells[i]
      && AllEqual(line[start + |cells[i]|..end], ' ')
      && (i + 1 < |widths| ==> end + |ColumnSeparator| <= |line| && line[end..end + |ColumnSeparator|] == ColumnSeparator)
      && (i + 1 < |widths| ==> FieldStart(cells, widths, i + 1) == end + |ColumnSeparator|)
      && (i + 1 == |widths| ==> end == |line|)
  {
    var fields := Fields(cells, widths);
    var line, start := RenderLine(cells, widths), FieldStart(cells, widths, i);
    JoinPartAt(fields, ColumnSeparator, i);
    var field := fields[i];
    assert line[start..start + |field|] == field;
    SliceWithin(line, start, start + |field|, |cells[i]|);
    if i + 1 < |widths| {
      JoinSeparatorAfter(fields, ColumnSeparator, i);
    }
    NextFieldOrLineEnd(cells, widths, i);
  }

  /** After field `i` comes the separator and field `i + 1`, or the end of the line. */
  lemma NextFieldOrLineEnd(cells: seq<string>, widths: seq<int>, i: nat)
    requires |widths| <= |cells| && i < |widths|
    ensures var end := FieldStart(cells, widths, i) + Max(|cells[i]|, widths[i]);
      && (i + 1 < |widths| ==> FieldStart(cells, widths, i + 1) == end + |ColumnSeparator|)
      && (i + 1 == |widths| ==> end == |RenderLine(cells, widths)|)
  {
    var fields := Fields(cells, widths);
    if i + 1 < |widths| {
      OffsetStep(fields, ColumnSeparator, i);
    } else {
      JoinEndsAfterLastPart(fields, ColumnSeparator);
    }
  }

  /** Cells that fit their widths give fields exactly as wide as the columns. */
  lemma FittingFields(cells: seq<string>, widths: seq<int>)
    requires |widths| <= |cells|
    requires forall j :: 0 <= j < |widths| ==> |cells[j]| <= widths[j]
    ensures forall j :: 0 <= j < |widths| ==> |Fields(cells, widths)[j]| == widths[j]
  {
  }

  /** Two lines whose cells fit the column widths have the same length, and each column
      starts at the same place in both. */
  lemma FittingLinesAlign(a: seq<string>, b: seq<string>, widths: seq<int>)
    requires |widths| <= |a| && |widths| <= |b|
    requires forall j :: 0 <= j < |widths| ==> |a[j]| <= widths[j] && |b[j]| <= widths[j]
    ensures |RenderLine(a, widths)| == |RenderLine(b, widths)|
    ensures forall i :: 0 <= i < |widths| ==> FieldStart(a, widths, i) == FieldStart(b, widths, i)
  {
    FittingFields(a, widths);
    FittingFields(b, widths);
    JoinShapeDependsOnLengths(Fields(a, widths), Fields(b, widths), ColumnSeparator);
  }

  // ------------------------------------------------------------------ table

  /** `f"Total rows: {row_count}"`: the prefix, then a decimal text that reads back as the
      count, which by `DecimalTextIsCanonical` is exactly `str(row_count)`. */
  function TotalLine(rowCount: int): (line: string)
    ensures StartsWith(line, TotalPrefix) && IsDecimalText(line[|TotalPrefix|..])
    ensures ParseInt(line[|TotalPrefix|..]) == rowCount
  {
    var line := TotalPrefix + IntToDecimal(rowCount);
    assert line[|TotalPrefix|..] == IntToDecimal(rowCount);
    ParseIntToDecimal(rowCount);
    line
  }

  /** The data lines, one per row, in row order. */
  function RenderRows(rows: seq<seq<Cell>>, widths: seq<int>): (lines: seq<string>)
    requires forall r :: 0 <= r < |rows| ==> |widths| <= |rows[r]|
    ensures |lines| == |rows|
  {
    seq(|rows|, k requires 0 <= k < |rows| => RenderLine(rows[k], widths))
  }

  /** Everything display_results prints, one string per printed line. The leading
      `print("\n" + ...)` prints an empty line before the first `=` rule. */
  function Table(result: Option<QueryResult>): (lines: seq<string>)
    requires Renderable(result)
    ensures (result.None? || result.value.rowCount == 0) <==> lines == [NoResultsNotice]
    ensures result.Some? && result.value.rowCount != 0 ==>
      var q := result.value;
      var widths := ColumnWidths(q.columns, q.rows);
      var n := |q.rows|;
      && |lines| == n + 6
      && lines[0] == ""
      && lines[2] == RenderLine(q.columns, widths)
      && |lines[1]| == |lines[2]| && AllEqual(lines[1], '=')
      && |lines[3]| == |lines[2]| && AllEqual(lines[3], '-')
      && (forall k :: 0 <= k < n ==> lines[4 + k] == RenderLine(q.rows[k], widths))
      && |lines[n + 4]| == |lines[2]| && AllEqual(lines[n + 4], '=')
      && lines[n + 5] == TotalLine(q.rowCount)
  {
    if result.None? || result.value.rowCount == 0 then [NoResultsNotice]
    else
      var q := result.value;
      var widths := ColumnWidths(q.columns, q.rows);
      var header := RenderLine(q.columns, widths);
      ["", Repeat('=', |header|), header, Repeat('-', |header|)]
        + RenderRows(q.rows, widths)
        + [Repeat('=', |header|), TotalLine(q.rowCount)]
  }

  /** `display_results(result)`. */
  method DisplayResults(result: Option<QueryResult>) returns (lines: seq<string>)
    requires Renderable(result)
    ensures lines == Table(result)
  {
    if result.None? || result.value.rowCount == 0 {
      return [NoResultsNotice];
    }
    var q := result.value;
    var widths := ComputeWidths(q.columns, q.rows);
    var header := RenderLine(q.columns, widths);
    var top := ["", Repeat('=', |header|), header, Repeat('-', |header|)];
    lines := top;
    for k := 0 to |q.rows|
      invariant lines == top + RenderRows(q.rows[..k], widths)
    {
      assert RenderRows(q.rows[..k + 1], widths) == RenderRows(q.rows[..k], widths) + [RenderLine(q.rows[k], widths)];
      lines := lines + [RenderLine(q.rows[k], widths)];
    }
    assert q.rows[..|q.rows|] == q.rows;
    lines := lines + [Repeat('=', |header|), TotalLine(q.rowCount)];
  }

  /** When the column names and the cells of row `k` are at most 50 characters long, the
      line of row `k` is exactly as wide as the header and every cell starts in the same
      place as its column name. */
  lemma TableColumnsLineUp(result: Option<QueryResult>, k: nat)
    requires Renderable(result) && result.Some? && result.value.rowCount != 0
    requires k < |result.value.rows|
    requires forall j :: 0 <= j < |result.value.columns| ==>
      |result.value.columns[j]| <= MaxColumnWidth && |result.value.rows[k][j]| <= MaxColumnWidth
    ensures |Table(result)[4 + k]| == |Table(result)[2]|
    ensures var q := result.value; var widths := ColumnWidths(q.columns, q.rows);
      forall i :: 0 <= i < |q.columns| ==> FieldStart(q.rows[k], widths, i) == FieldStart(q.columns, widths, i)
  {
    var q := result.value;
    var widths := ColumnWidths(q.columns, q.rows);
    forall j | 0 <= j < |widths|
      ensures |q.columns[j]| <= widths[j] && |q.rows[k][j]| <= widths[j]
    {
      ColumnWidthIsCappedMaximum(q.columns, q.rows, j);
    }
    FittingLinesAlign(q.rows[k], q.columns, widths);
  }

  /** The closing line reports `row_count`: after the prefix stands a decimal text, and
      reading it back gives `row_count`. */
  lemma TotalLineReportsRowCount(result: Option<QueryResult>)
    requires Renderable(result) && result.Some? && result.value.rowCount != 0
    ensures var lines := Table(result);
      StartsWith(lines[|lines| - 1], TotalPrefix) &&
      IsDecimalText(lines[|lines| - 1][|TotalPrefix|..]) &&
      ParseInt(lines[|lines| - 1][|TotalPrefix|..]) == result.value.rowCount
  {
  }

  /** A result built by execute_query reports the number of rows it holds. */
  lemma TotalOfExecutedQuery(description: seq<ColumnDescription>, fetched: seq<seq<Cell>>)
    requires fetched != [] && RowsCoverColumns(MakeQueryResult(description, fetched).columns, fetched)
    ensures var lines := Table(Some(MakeQueryResult(description, fetched)));
      lines[|lines| - 1] == TotalLine(|fetched|) && |lines| == |fetched| + 6
  {
  }

  /** Two columns and two rows: the widths are 2 and 5, the header is "ID | NAME " and the
      table closes with "Total rows: 2". */
  lemma TableExample(result: Option<QueryResult>)
    requires result == Some(QueryResult(["ID", "NAME"], [["1", "Alice"], ["2", "Bob"]], 2))
    ensures Table(result) == ["", "==========", "ID | NAME ", "----------",
                              "1  | Alice", "2  | Bob  ", "==========", "Total rows: 2"]
  {
    var q := result.value;
    ExampleWidths(q.columns, q.rows);
    var widths := ColumnWidths(q.columns, q.rows);
    var header := RenderLine(q.columns, widths);
    var rule, dashes := Repeat('=', |header|), Repeat('-', |header|);
    var body := RenderRows(q.rows, widths);
    var total := TotalLine(q.rowCount);
    ExamplePieces(q.columns, q.rows, q.rowCount, widths);
    assert Table(result) == ["", rule, header, dashes] + body + [rule, total];
    ExampleAssembly(rule, header, dashes, body, total);
  }

  lemma ExamplePieces(columns: seq<string>, rows: seq<seq<Cell>>, rowCount: int, widths: seq<int>)
    requires columns == ["ID", "NAME"] && rows == [["1", "Alice"], ["2", "Bob"]] && rowCount == 2
    requires widths == [2, 5]
    ensures RenderLine(columns, widths) == "ID | NAME "
    ensures Repeat('=', |RenderLine(columns, widths)|) == "=========="
    ensures Repeat('-', |RenderLine(columns, widths)|) == "----------"
    ensures RenderRows(rows, widths) == ["1  | Alice", "2  | Bob  "]
    ensures TotalLine(rowCount) == "Total rows: 2"
  {
    ExampleLine(columns, widths, "ID", "NAME ", "ID | NAME ");
    ExampleLine(rows[0], widths, "1 ", "Alice", "1  | Alice");
    ExampleLine(rows[1], widths, "2 ", "Bob  ", "2  | Bob  ");
    assert Repeat('=', 10) == "==========";
    assert Repeat('-', 10) == "----------";
    assert IntToDecimal(2) == "2";
  }

  lemma ExampleAssembly(rule: string, header: string, dashes: string, body: seq<string>, total: string)
    requires rule == "==========" && header == "ID | NAME " && dashes == "----------"
    requires body == ["1  | Alice", "2  | Bob  "] && total == "Total rows: 2"
    ensures ["", rule, header, dashes] + body + [rule, total] ==
      ["", "==========", "ID | NAME ", "----------", "1  | Alice", "2  | Bob  ", "==========", "Total rows: 2"]
  {
  }

  lemma ExampleWidths(columns: seq<string>, rows: seq<seq<Cell>>)
    requires columns == ["ID", "NAME"] && rows == [["1", "Alice"], ["2", "Bob"]]
    ensures RowsCoverColumns(columns, rows) && ColumnWidths(columns, rows) == [2, 5]
  {
    assert rows[..1][..0] == [];
    assert NaturalWidth(columns[0], rows, 0) == 2 by {
      assert rows[..1] == [rows[0]];
      assert NaturalWidth(columns[0], rows[..1], 0) == 2;
    }
    assert NaturalWidth(columns[1], rows, 1) == 5 by {
      assert rows[..1] == [rows[0]];
      assert NaturalWidth(columns[1], rows[..1], 1) == 5;
    }
  }

  /** A two-column line whose fields are the padded cells `f0` and `f1`. */
  lemma ExampleLine(cells: seq<string>, widths: seq<int>, f0: string, f1: string, line: string)
    requires |cells| == 2 && |widths| == 2
    requires LeftJustify(cells[0], widths[0]) == f0 && LeftJustify(cells[1], widths[1]) == f1
    requires line == f0 + ColumnSeparator + f1
    ensures RenderLine(cells, widths) == line
  {
    var fields := Fields(cells, widths);
    assert fields == [f0, f1];
    assert fields[1..] == [f1];
    JoinUnfold(fields, ColumnSeparator);
    assert Join(fields[1..], ColumnSeparator) == f1;
  }
}
