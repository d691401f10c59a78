/**
 * `HANACloudExecutor.execute_query` up to and around the database call: the empty
 * and SELECT guards, the LIMIT rewrite, the single submission through the cursor,
 * and the construction of `QueryResult` from the cursor's description and rows.
 */
module QueryExecutor {
  import opened Wrappers
  import opened Text
  import opened QueryGuard

  /** A cell as `str()` renders it; cells are taken as already-rendered text. */
  type Cell = string

  /** The `QueryResult` dataclass. */
  datatype QueryResult = QueryResult(columns: seq<string>, rows: seq<seq<Cell>>, rowCount: int)
  {
    /** The count that execute_query stores is the number of rows. */
    predicate Consistent() { rowCount == |rows| }
  }

  /** One entry of the cursor's `description`; only its first field, the column name, is read. */
  datatype ColumnDescription = ColumnDescription(name: string)

  /** What the cursor yields for a submitted statement: `description` (None for
      statements without a result set) and the rows of `fetchall()`, or an exception
      raised by `execute`. */
  datatype CursorReply =
    | Fetched(description: Option<seq<ColumnDescription>>, rows: seq<seq<Cell>>)
    | Raised(message: string)

  /** Why a query is turned away before anything is submitted. */
  datatype Rejection = EmptyQuery | NotSelect

  /** The outcome of the guards: the statement to submit, or a rejection. */
  datatype Prepared = Submit(statement: string) | Rejected(reason: Rejection)

  /** One call of execute_query: the statements handed to the cursor, and the result. */
  datatype Execution = Execution(submitted: seq<string>, result: Option<QueryResult>)

  const DefaultMaxRows: int := 1000
  const LimitKeyword: string := "LIMIT"

  /** The clause appended to an unlimited query: ` LIMIT {max_rows}`. */
  function RowCapClause(maxRows: int): string {
    " LIMIT " + IntToDecimal(maxRows)
  }

  /** The clause starts with ` LIMIT `, and the rest is a decimal text that reads back as
      `max_rows`: by `DecimalTextIsCanonical`, exactly `str(max_rows)`. */
  lemma RowCapClauseReadsBack(maxRows: int)
    ensures StartsWith(RowCapClause(maxRows), " LIMIT ")
    ensures IsDecimalText(RowCapClause(maxRows)[|" LIMIT "|..])
    ensures ParseInt(RowCapClause(maxRows)[|" LIMIT "|..]) == maxRows
  {
    assert RowCapClause(maxRows)[|" LIMIT "|..] == IntToDecimal(maxRows);
    ParseIntToDecimal(maxRows);
  }

  /** True when the upper-cased text already mentions LIMIT anywhere. */
  predicate MentionsLimit(sql: string) {
    Contains(Upper(sql), LimitKeyword)
  }

  /** `'LIMIT' in sql.upper()`: the upper-cased text has LIMIT at some position. */
  lemma MentionsLimitCharacterised(sql: string)
    ensures MentionsLimit(sql) <==> exists i: nat :: StandsAt(Upper(sql), LimitKeyword, i)
  {
    ContainsCharacterised(Upper(sql), LimitKeyword);
  }

  lemma RowCapClauseMentionsLimit(prefix: string, maxRows: int)
    ensures MentionsLimit(prefix + RowCapClause(maxRows))
  {
    var digits := IntToDecimal(maxRows);
    var s := prefix + RowCapClause(maxRows);
    assert s == (prefix + " ") + LimitKeyword + (" " + digits);
    UpperConcat(prefix + " ", LimitKeyword + (" " + digits));
    UpperConcat(LimitKeyword, " " + digits);
    UpperOfUpper(LimitKeyword);
    var u := Upper(prefix + " ");
    assert Upper(s) == u + LimitKeyword + Upper(" " + digits);
    assert Upper(s)[|u|..|u| + |LimitKeyword|] == LimitKeyword;
    ContainsAt(Upper(s), LimitKeyword, |u|);
  }

  /** The row cap of `execute_query`: a query that mentions LIMIT is left as it is; any other
      loses all its trailing semicolons (and only those) and gains ` LIMIT {max_rows}`. */
  function ApplyRowCap(sql: string, maxRows: int): (r: string)
    ensures MentionsLimit(r)
    ensures MentionsLimit(sql) ==> r == sql
    ensures !MentionsLimit(sql) ==>
      var kept := |r| - |RowCapClause(maxRows)|;
      && 0 <= kept <= |sql|
      && r == sql[..kept] + RowCapClause(maxRows)
      && AllEqual(sql[kept..], ';')
      && (kept == 0 || sql[kept - 1] != ';')
  {
    if MentionsLimit(sql) then sql
    else
      var stripped := TrimTrailing(sql, ';');
      RowCapClauseMentionsLimit(stripped, maxRows);
      stripped + RowCapClause(maxRows)
  }

  /** Rewriting a rewritten query changes nothing, whatever cap is asked for the second time. */
  lemma RowCapIsIdempotent(sql: string, maxRows: int, maxRows': int)
    ensures ApplyRowCap(ApplyRowCap(sql, maxRows), maxRows') == ApplyRowCap(sql, maxRows)
  {
  }

  /** Dropping trailing semicolons and appending the cap keeps the SELECT verdict. */
  lemma RowCapKeepsSelect(sql: string, maxRows: int)
    requires IsSelectQuery(sql)
    ensures IsSelectQuery(ApplyRowCap(sql, maxRows))
  {
    IsSelectQueryCharacterised(sql);
    RowCapKeepsLeadingSelect(sql, maxRows);
    IsSelectQueryCharacterised(ApplyRowCap(sql, maxRows));
  }

  lemma RowCapKeepsLeadingSelect(sql: string, maxRows: int)
    requires BeginsWithSelect(sql)
    ensures BeginsWithSelect(ApplyRowCap(sql, maxRows))
  {
    if !MentionsLimit(sql) {
      var r, cap := ApplyRowCap(sql, maxRows), RowCapClause(maxRows);
      CutAndCapKeepsLeadingSelect(sql, |r| - |cap|, cap, r);
    }
  }

  /** Cutting off trailing semicolons and appending anything keeps a leading SELECT. */
  lemma CutAndCapKeepsLeadingSelect(sql: string, kept: nat, cap: string, r: string)
    requires BeginsWithSelect(sql)
    requires kept <= |sql| && AllEqual(sql[kept..], ';') && r == sql[..kept] + cap
    ensures BeginsWithSelect(r)
  {
    SemicolonsStayBehindKeyword(sql, kept);
    KeptTextKeepsPrefix(sql, kept, cap, |sql| - |TrimLeading(sql)|, |SelectKeyword|);
    PrefixDecides(TrimLeading(sql[..kept] + cap), TrimLeading(sql), SelectKeyword);
  }

  /** A run of semicolons that ends the text cannot reach into the leading SELECT. */
  lemma SemicolonsStayBehindKeyword(sql: string, kept: nat)
    requires BeginsWithSelect(sql)
    requires kept <= |sql| && AllEqual(sql[kept..], ';')
    ensures kept >= |sql| - |TrimLeading(sql)| + |SelectKeyword|
  {
    var t := TrimLeading(sql);
    var k := |sql| - |t|;
    var n := |SelectKeyword|;
    assert t[n - 1] != ';' by {
      assert UpperChar(t[n - 1]) == Upper(t)[..n][n - 1] == 'T';
    }
    AllEqualFrom(sql, kept, ';');
    assert sql[k + n - 1] == t[n - 1];
  }

  /** Cutting text after the first `n` characters past its leading whitespace, and
      appending anything, keeps those characters at the front of the trimmed text. */
  lemma KeptTextKeepsPrefix(sql: string, kept: nat, tail: string, k: nat, n: nat)
    requires k == |sql| - |TrimLeading(sql)| && 0 < n && k + n <= kept <= |sql|
    ensures |TrimLeading(sql[..kept] + tail)| >= n
    ensures TrimLeading(sql[..kept] + tail)[..n] == TrimLeading(sql)[..n]
  {
    TrimOfKeptText(sql, kept, tail, k);
    KeptSliceKeepsPrefix(sql, kept, tail, k, n);
  }

  /** Past the leading whitespace, the kept text and its tail are left as they are. */
  lemma TrimOfKeptText(sql: string, kept: nat, tail: string, k: nat)
    requires k == |sql| - |TrimLeading(sql)| && k < kept <= |sql|
    ensures TrimLeading(sql[..kept] + tail) == sql[k..kept] + tail
  {
    var u := sql[k..kept] + tail;
    PrefixRegroup(sql, k, kept, tail);
    TrimLeadingAfterSpaces(sql[..k], u);
    assert u[0] == TrimLeading(sql)[0];
    TrimLeadingStops(u);
  }

  lemma KeptSliceKeepsPrefix(sql: string, kept: nat, tail: string, k: nat, n: nat)
    requires k + n <= kept <= |sql|
    ensures (sql[k..kept] + tail)[..n] == sql[k..][..n]
  {
    SliceOfPrefix(sql[k..kept], tail, 0, n);
    assert sql[k..kept][..n] == sql[k..k + n] == sql[k..][..n];
  }

  /** The guards and the row cap of `execute_query`: the statement that reaches `cursor.execute`,
      or the reason nothing does. */
  function PrepareStatement(sql: string, maxRows: int): (r: Prepared)
    ensures r == Rejected(EmptyQuery) <==> AllSpace(sql)
    ensures r == Rejected(NotSelect) <==> !AllSpace(sql) && !IsSelectQuery(sql)
    ensures r.Submit? <==> IsSelectQuery(sql)
    ensures r.Submit? ==> r.statement == ApplyRowCap(sql, maxRows)
    ensures r.Submit? ==> IsSelectQuery(r.statement) && MentionsLimit(r.statement)
  {
    SelectIsNotBlank(sql);
    if AllSpace(sql) then Rejected(EmptyQuery)
    else if !IsSelectQuery(sql) then Rejected(NotSelect)
    else
      RowCapKeepsSelect(sql, maxRows);
      Submit(ApplyRowCap(sql, maxRows))
  }

  /** Preparing a prepared statement again submits it unchanged. */
  lemma PrepareIsIdempotent(sql: string, maxRows: int, maxRows': int)
    requires PrepareStatement(sql, maxRows).Submit?
    ensures PrepareStatement(PrepareStatement(sql, maxRows).statement, maxRows') == PrepareStatement(sql, maxRows)
  {
    var statement := PrepareStatement(sql, maxRows).statement;
    SelectIsNotBlank(statement);
  }

  /** The `QueryResult(...)` that `execute_query` builds from the cursor's reply. */
  function MakeQueryResult(description: seq<ColumnDescription>, fetched: seq<seq<Cell>>): (q: QueryResult)
    ensures q.Consistent()
    ensures q.rows == fetched
    ensures |q.columns| == |description|
    ensures forall i :: 0 <= i < |description| ==> q.columns[i] == description[i].name
  {
    QueryResult(seq(|description|, i requires 0 <= i < |description| => description[i].name), fetched, |fetched|)
  }

  /** `execute_query(sql, max_rows)`, with the cursor as a parameter: the reply it gives
      to each statement. Every exception is caught and becomes `None`. */
  function ExecuteQuery(sql: string, maxRows: int, cursor: string -> CursorReply): (e: Execution)
    ensures |e.submitted| <= 1
    ensures PrepareStatement(sql, maxRows).Rejected? ==> e.submitted == [] && e.result == None
    ensures PrepareStatement(sql, maxRows).Submit? ==> e.submitted == [PrepareStatement(sql, maxRows).statement]
    ensures e.result.Some? ==>
      && e.submitted != []
      && IsSelectQuery(e.submitted[0]) && MentionsLimit(e.submitted[0])
      && cursor(e.submitted[0]).Fetched?
      && cursor(e.submitted[0]).description.Some?
      && e.result.value == MakeQueryResult(cursor(e.submitted[0]).description.value, cursor(e.submitted[0]).rows)
    ensures e.submitted != [] && e.result.None? ==>
      cursor(e.submitted[0]).Raised? || cursor(e.submitted[0]).description.None?
  {
    match PrepareStatement(sql, maxRows)
    case Rejected(_) => Execution([], None)
    case Submit(statement) =>
      var reply := cursor(statement);
      if reply.Fetched? && reply.description.Some? then
        Execution([statement], Some(MakeQueryResult(reply.description.value, reply.rows)))
      else
        Execution([statement], None)
  }

  /** A blank query is refused as empty.
      The text is a parameter pinned by the precondition, so that the proof refers to it
      by name instead of repeating the literal. */
  lemma PrepareExampleBlank(q: string)
    requires q == "   "
    ensures PrepareStatement(q, DefaultMaxRows) == Rejected(EmptyQuery)
  {
  }

  /** A data-changing statement is refused before anything is submitted.
      The text is a parameter pinned by the precondition, so that the proof refers to it
      by name instead of repeating the literal. */
  lemma PrepareExampleUpdate(q: string)
    requires q == "UPDATE t SET x=1"
    ensures PrepareStatement(q, DefaultMaxRows) == Rejected(NotSelect)
  {
    SelectExampleUpdate();
    assert !IsSpace(q[0]);
  }

  /** A query that already has a LIMIT is submitted as written.
      The text is a parameter pinned by the precondition, so that the proof refers to it
      by name instead of repeating the literal. */
  lemma PrepareExampleLimited(q: string)
    requires q == "SELECT * FROM t LIMIT 5"
    ensures PrepareStatement(q, DefaultMaxRows) == Submit(q)
  {
    ExampleStartsWithSelect(q);
    LimitedExampleMentionsLimit(q);
    PreparedAsWritten(q, DefaultMaxRows);
  }

  lemma PreparedAsWritten(sql: string, maxRows: int)
    requires IsSelectQuery(sql) && MentionsLimit(sql)
    ensures PrepareStatement(sql, maxRows) == Submit(sql)
  {
  }

  lemma ExampleStartsWithSelect(q: string)
    requires q == "SELECT * FROM t LIMIT 5" || q == "select * from t;;"
    ensures IsSelectQuery(q)
  {
    UpperPrefixMatches(q, SelectKeyword);
    SelectAfterLeadingSpaces("", q);
    assert "" + q == q;
  }

  lemma LimitedExampleMentionsLimit(q: string)
    requires q == "SELECT * FROM t LIMIT 5"
    ensures MentionsLimit(q)
  {
    assert Upper(q)[16..21] == LimitKeyword;
    ContainsAt(Upper(q), LimitKeyword, 16);
  }

  /** Trailing semicolons give way to the default cap.
      The text is a parameter pinned by the precondition, so that the proof refers to it
      by name instead of repeating the literal. */
  lemma PrepareExampleSemicolons(q: string)
    requires q == "select * from t;;"
    ensures PrepareStatement(q, DefaultMaxRows) == Submit("select * from t LIMIT 1000")
  {
    ExampleStartsWithSelect(q);
    SemicolonExampleHasNoLimit(q);
    var kept := "select * from t";
    ExampleSemicolonsCut(q, kept);
    PreparedWithCap(q, DefaultMaxRows, kept);
    DefaultCapClause(DefaultMaxRows);
    CappedExampleText(kept, RowCapClause(DefaultMaxRows));
  }

  lemma CappedExampleText(kept: string, cap: string)
    requires kept == "select * from t" && cap == " LIMIT 1000"
    ensures kept + cap == "select * from t LIMIT 1000"
  {
  }

  lemma DefaultCapClause(m: int)
    requires m == 1000
    ensures RowCapClause(m) == " LIMIT 1000"
  {
    assert NatToDecimal(1) == "1";
    assert NatToDecimal(10) == "10";
    assert NatToDecimal(100) == "100";
    assert NatToDecimal(1000) == "1000";
  }

  lemma SemicolonExampleHasNoLimit(q: string)
    requires q == "select * from t;;"
    ensures !MentionsLimit(q)
  {
    var u := Upper(q);
    forall i | 0 <= i < |u| - 1 && u[i] == LimitKeyword[0]
      ensures u[i + 1] != LimitKeyword[1]
    {
      assert UpperChar(q[i]) == 'L';
      assert i == 2;
    }
    AbsentPair(u, LimitKeyword);
  }

  lemma PreparedWithCap(sql: string, maxRows: int, kept: string)
    requires IsSelectQuery(sql) && !MentionsLimit(sql) && TrimTrailing(sql, ';') == kept
    ensures PrepareStatement(sql, maxRows) == Submit(kept + RowCapClause(maxRows))
  {
  }

  lemma ExampleSemicolonsCut(q: string, kept: string)
    requires q == "select * from t;;" && kept == "select * from t"
    ensures TrimTrailing(q, ';') == kept
  {
    var r := TrimTrailing(q, ';');
    AllEqualFrom(q, |r|, ';');
    assert q[14] == 't';
    assert r != [] ==> r[|r| - 1] == q[|r| - 1];
    assert |r| == 15;
    assert r == q[..15] == kept;
  }

  /** A text in which the first two characters of the pattern never stand side by side
      does not contain the pattern. */
  lemma {:induction false} AbsentPair(s: string, p: string)
    requires |p| >= 2
    requires forall i :: 0 <= i < |s| - 1 && s[i] == p[0] ==> s[i + 1] != p[1]
    ensures !Contains(s, p)
    decreases |s|
  {
    if s != [] {
      assert |p| <= |s| ==> s[..|p|][0] == s[0] && s[..|p|][1] == s[1];
      AbsentPair(s[1..], p);
    }
  }
}
