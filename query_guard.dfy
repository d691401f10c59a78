/**
 * The SELECT allow-list of `HANACloudExecutor.is_select_query`: the text is split
 * into its whitespace-free words, the words are joined with single spaces, the
 * result is upper-cased and tested for the prefix `SELECT`.
 *
 * Python's `sql.strip()` before `split()` is not modelled separately: `split()`
 * drops the same leading and trailing whitespace that `strip()` does.
 */
module QueryGuard {
  import opened Text

  const SelectKeyword: string := "SELECT"

  /** The whitespace-collapsed, upper-cased text of `sql`. */
  function CleanedSql(sql: string): string {
    Upper(Join(Split(sql), " "))
  }

  predicate IsSelectQuery(sql: string) {
    StartsWith(CleanedSql(sql), SelectKeyword)
  }

  /** The reference definition: with leading whitespace dropped and upper-cased, `sql` begins with SELECT. */
  predicate BeginsWithSelect(sql: string) {
    StartsWith(Upper(TrimLeading(sql)), SelectKeyword)
  }

  lemma KeywordHasNoSpace()
    ensures NoSpace(SelectKeyword)
  {
  }

  /** After a whitespace-free first word, whatever follows a space cannot matter to a
      whitespace-free prefix test. */
  lemma FirstWordDecides(w: string, x: string, p: string)
    requires NoSpace(w) && NoSpace(p)
    requires x == [] || IsSpace(x[0])
    ensures StartsWith(Upper(w + x), p) == (|p| <= |w| && Upper(w)[..|p|] == p)
  {
    var u := Upper(w + x);
    if |p| <= |w| {
      assert u[..|p|] == Upper(w)[..|p|];
    } else if |p| <= |u| {
      assert u[|w|] == UpperChar(x[0]);
      assert u[..|p|][|w|] != p[|w|];
    }
  }

  /** Collapsing whitespace does not change what a whitespace-free prefix test sees. */
  lemma CollapsedPrefix(sql: string, p: string)
    requires NoSpace(p)
    ensures StartsWith(Upper(Join(Split(sql), " ")), p) == StartsWith(Upper(TrimLeading(sql)), p)
  {
    var t := TrimLeading(sql);
    if t != [] {
      var w := LeadingWord(t);
      var ws := Split(t[|w|..]);
      assert Split(sql) == [w] + ws;
      var x := JoinFirst(w, ws, " ");
      var y := t[|w|..];
      SplitAt(t, |w|);
      FirstWordDecides(w, x, p);
      FirstWordDecides(w, y, p);
    } else {
      assert Split(sql) == [];
    }
  }

  lemma IsSelectQueryCharacterised(sql: string)
    ensures IsSelectQuery(sql) == BeginsWithSelect(sql)
  {
    KeywordHasNoSpace();
    CollapsedPrefix(sql, SelectKeyword);
  }

  /** Joining a first word to the rest yields the word, then either nothing or a separator. */
  lemma JoinFirst(w: string, ws: seq<string>, sep: string) returns (x: string)
    ensures Join([w] + ws, sep) == w + x
    ensures x == [] || x[..|sep|] == sep
    ensures ws != [] ==> x == sep + Join(ws, sep)
    ensures ws == [] ==> x == []
  {
    if ws == [] {
      x := [];
      assert [w] + ws == [w];
    } else {
      x := sep + Join(ws, sep);
      assert ([w] + ws)[1..] == ws;
      assert Join([w] + ws, sep) == w + sep + Join(ws, sep);
      assert x[..|sep|] == sep;
    }
  }

  /** A SELECT query has something other than whitespace in it. */
  lemma SelectIsNotBlank(sql: string)
    ensures IsSelectQuery(sql) ==> !AllSpace(sql)
  {
    IsSelectQueryCharacterised(sql);
    var t := TrimLeading(sql);
    if t != [] {
      assert sql[|sql| - |t|] == t[0];
    }
  }

  lemma {:induction false} UpperCommutesWithTrim(s: string)
    ensures Upper(TrimLeading(s)) == TrimLeading(Upper(s))
    decreases |s|
  {
    if s != [] && IsSpace(s[0]) {
      assert Upper(s)[1..] == Upper(s[1..]);
      UpperCommutesWithTrim(s[1..]);
    }
  }

  /** Case does not matter: texts with the same upper-case form are judged alike. */
  lemma SelectIgnoresCase(s: string, t: string)
    requires Upper(s) == Upper(t)
    ensures IsSelectQuery(s) == IsSelectQuery(t)
  {
    IsSelectQueryCharacterised(s);
    IsSelectQueryCharacterised(t);
    UpperCommutesWithTrim(s);
    UpperCommutesWithTrim(t);
  }

  lemma PrefixDecides(u: string, v: string, p: string)
    requires |p| <= |u| && |p| <= |v| && u[..|p|] == v[..|p|]
    ensures StartsWith(Upper(u), p) == StartsWith(Upper(v), p)
  {
    assert Upper(u)[..|p|] == Upper(v)[..|p|];
  }

  lemma SpaceBlocksPrefix(u: string, m: nat, p: string)
    requires NoSpace(p) && m < |p| && m < |u| && IsSpace(u[m])
    ensures !StartsWith(Upper(u), p)
  {
  }

  /** Whitespace is collapsed: a whitespace character inserted at the start, at the end or
      next to other whitespace does not change the verdict (nor, read backwards, does
      removing one from such a place). */
  lemma SelectIgnoresExtraSpace(s: string, i: nat, c: char)
    requires i <= |s| && IsSpace(c)
    requires i == 0 || i == |s| || IsSpace(s[i - 1]) || IsSpace(s[i])
    ensures IsSelectQuery(s[..i] + [c] + s[i..]) == IsSelectQuery(s)
  {
    IsSelectQueryCharacterised(s);
    IsSelectQueryCharacterised(s[..i] + [c] + s[i..]);
    if i <= |s| - |TrimLeading(s)| {
      SpaceInLeadingRun(s, i, c);
    } else {
      SpaceInsideText(s, i, c);
    }
  }

  /** Inserting into the leading whitespace leaves the trimmed text alone. */
  lemma SpaceInLeadingRun(s: string, i: nat, c: char)
    requires IsSpace(c) && i <= |s| - |TrimLeading(s)|
    ensures TrimLeading(s[..i] + [c] + s[i..]) == TrimLeading(s)
  {
    var k := |s| - |TrimLeading(s)|;
    LeadingRunWithSpace(s, i, c);
    InsertRegroup(s, i, c, k);
    TrimLeadingAfterSpaces(s[..i] + [c] + s[i..k], s[k..]);
    TrimLeadingIsIdempotent(s);
  }

  lemma LeadingRunWithSpace(s: string, i: nat, c: char)
    requires IsSpace(c) && i <= |s| - |TrimLeading(s)|
    ensures AllSpace(s[..i] + [c] + s[i..|s| - |TrimLeading(s)|])
  {
    var k := |s| - |TrimLeading(s)|;
    var before, after := s[..i], s[i..k];
    assert forall m :: 0 <= m < i ==> before[m] == s[..k][m];
    assert forall m :: 0 <= m < k - i ==> after[m] == s[..k][i + m];
  }

  /** Inserting after the leading whitespace, next to other whitespace or at the end. */
  lemma SpaceInsideText(s: string, i: nat, c: char)
    requires IsSpace(c) && |s| - |TrimLeading(s)| < i <= |s|
    requires i == |s| || IsSpace(s[i - 1]) || IsSpace(s[i])
    ensures BeginsWithSelect(s[..i] + [c] + s[i..]) == BeginsWithSelect(s)
  {
    KeywordHasNoSpace();
    var t := TrimLeading(s);
    var j := i - (|s| - |t|);
    TrimAfterInsertion(s, i, c);
    NeighboursInTrimmed(s, i);
    InsertedSpaceKeepsPrefix(t, j, c, SelectKeyword);
  }

  /** An insertion past the leading whitespace lands in the trimmed text. */
  lemma TrimAfterInsertion(s: string, i: nat, c: char)
    requires |s| - |TrimLeading(s)| < i <= |s|
    ensures var t := TrimLeading(s); var j := i - (|s| - |t|);
      TrimLeading(s[..i] + [c] + s[i..]) == t[..j] + [c] + t[j..]
  {
    var t := TrimLeading(s);
    var k := |s| - |t|;
    var j := i - k;
    var t' := t[..j] + [c] + t[j..];
    InsertShift(s, i, c, k);
    TrimLeadingAfterSpaces(s[..k], t');
    assert t'[0] == t[0];
    TrimLeadingStops(t');
  }

  lemma NeighboursInTrimmed(s: string, i: nat)
    requires |s| - |TrimLeading(s)| < i <= |s|
    requires i == |s| || IsSpace(s[i - 1]) || IsSpace(s[i])
    ensures var t := TrimLeading(s); var j := i - (|s| - |t|);
      j == |t| || IsSpace(t[j - 1]) || IsSpace(t[j])
  {
    var t := TrimLeading(s);
    var j := i - (|s| - |t|);
    assert j < |t| ==> t[j - 1] == s[i - 1] && t[j] == s[i];
  }

  /** A whitespace character inserted next to whitespace or at the end keeps a whitespace-free
      prefix where it was, or breaks it exactly when it was already broken. */
  lemma InsertedSpaceKeepsPrefix(t: string, j: nat, c: char, p: string)
    requires NoSpace(p) && IsSpace(c) && 1 <= j <= |t|
    requires j == |t| || IsSpace(t[j - 1]) || IsSpace(t[j])
    ensures StartsWith(Upper(t[..j] + [c] + t[j..]), p) == StartsWith(Upper(t), p)
  {
    var t' := t[..j] + [c] + t[j..];
    assert t'[j] == c;
    if j >= |p| {
      assert t'[..|p|] == t[..|p|];
      PrefixDecides(t', t, p);
    } else {
      SpaceBlocksPrefix(t', j, p);
      if j < |t| && IsSpace(t[j - 1]) {
        SpaceBlocksPrefix(t, j - 1, p);
      } else if j < |t| {
        SpaceBlocksPrefix(t, j, p);
      }
    }
  }

  lemma UpperPrefixMatches(u: string, p: string)
    requires |p| <= |u| && forall m :: 0 <= m < |p| ==> UpperChar(u[m]) == p[m]
    ensures StartsWith(Upper(u), p)
  {
    assert Upper(u)[..|p|] == p;
  }

  lemma UpperPrefixDiffers(u: string, p: string, m: nat)
    requires m < |p| && m < |u| && UpperChar(u[m]) != p[m]
    ensures !StartsWith(Upper(u), p)
  {
    assert |p| <= |Upper(u)| ==> Upper(u)[..|p|][m] == UpperChar(u[m]);
  }

  /** Leading whitespace is skipped and case is ignored.
      The text is a parameter pinned by the precondition, so that the proof refers to it
      by name instead of repeating the literal. */
  lemma SelectExampleLowerCase(q: string)
    requires q == "  select   * from t"
    ensures IsSelectQuery(q)
  {
    var u := "select   * from t";
    assert q == "  " + u;
    LowerCaseSelectWord(u);
    SelectAfterLeadingSpaces("  ", u);
  }

  lemma LowerCaseSelectWord(u: string)
    requires u == "select   * from t"
    ensures StartsWith(Upper(u), SelectKeyword)
  {
    UpperPrefixMatches(u, SelectKeyword);
  }

  lemma SelectAfterLeadingSpaces(spaces: string, u: string)
    requires AllSpace(spaces) && StartsWith(Upper(u), SelectKeyword)
    ensures IsSelectQuery(spaces + u)
  {
    TrimLeadingAfterSpaces(spaces, u);
    assert UpperChar(u[0]) == Upper(u)[..|SelectKeyword|][0] == 'S';
    TrimLeadingStops(u);
    IsSelectQueryCharacterised(spaces + u);
  }

  /** A data-changing statement is refused. */
  lemma SelectExampleUpdate()
    ensures !IsSelectQuery("UPDATE t SET x=1")
  {
    var u := "UPDATE t SET x=1";
    IsSelectQueryCharacterised(u);
    TrimLeadingStops(u);
    UpperPrefixDiffers(u, SelectKeyword, 0);
  }

  /** A SELECT behind a leading comment is refused: the text starts with "--". */
  lemma SelectExampleComment()
    ensures !IsSelectQuery("-- SELECT\nDROP TABLE t")
  {
    var u := "-- SELECT\nDROP TABLE t";
    IsSelectQueryCharacterised(u);
    TrimLeadingStops(u);
    UpperPrefixDiffers(u, SelectKeyword, 0);
  }
}
