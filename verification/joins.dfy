/**
 `pd.merge(left, right, on = 'year', how = 'inner')`: a row survives for
 every pair of a left row and a right row that carry the same year. Left
 rows keep their order; the key column appears once, in the left
 table's position, followed by the right table's other columns.
 */
module Joins {
  import opened Tables

  /** The labels of `names` other than `drop`, in order. */
  function Without(names: seq<string>, drop: string): (r: seq<string>)
    ensures forall c :: c in r <==> c in names && c != drop
    ensures Distinct(names) ==> Distinct(r)
  {
    if names == [] then []
    else
      var rest := Without(names[1..], drop);
      assert Distinct(names) ==> names[0] !in rest;
      (if names[0] == drop then [] else [names[0]]) + rest
  }

  /** The row merged from a left row and a right row of the same year. */
  function Merge(left: Row, right: Row): (r: Row)
    requires YearColumn in left && YearColumn in right && Year(left) == Year(right)
    ensures r.Keys == left.Keys + right.Keys
    ensures YearColumn in r && Year(r) == Year(left)
    ensures forall c :: c in left && c !in right ==> r[c] == left[c]
    ensures forall c :: c in right ==> r[c] == right[c]
  {
    left + right
  }

  /** The merged rows for one left row: one per right row with its year. */
  function Matches(left: Row, rights: seq<Row>): (r: seq<Row>)
    requires YearColumn in left && HasYears(rights)
    ensures HasYears(r)
  {
    if rights == [] then []
    else
      var rest := Matches(left, rights[1..]);
      (if Year(rights[0]) == Year(left) then [Merge(left, rights[0])] else []) + rest
  }

  /** Every merged row for `left` comes from a right row with its year. */
  lemma {:induction false} MatchesSound(left: Row, rights: seq<Row>)
    requires YearColumn in left && HasYears(rights)
    ensures forall row :: row in Matches(left, rights) ==>
      exists right :: right in rights && Year(right) == Year(left) && row == Merge(left, right)
  {
    if rights != [] {
      MatchesSound(left, rights[1..]);
    }
  }

  /** The merged rows of the inner join, left row by left row. */
  function JoinRows(lefts: seq<Row>, rights: seq<Row>): (r: seq<Row>)
    requires HasYears(lefts) && HasYears(rights)
    ensures HasYears(r)
  {
    if lefts == [] then []
    else Matches(lefts[0], rights) + JoinRows(lefts[1..], rights)
  }

  /** Every joined row merges a left row and a right row of equal year. */
  lemma {:induction false} JoinRowsSound(lefts: seq<Row>, rights: seq<Row>)
    requires HasYears(lefts) && HasYears(rights)
    ensures forall row :: row in JoinRows(lefts, rights) ==>
      exists left, right :: left in lefts && right in rights && Year(left) == Year(right) && row == Merge(left, right)
  {
    if lefts != [] {
      MatchesSound(lefts[0], rights);
      JoinRowsSound(lefts[1..], rights);
    }
  }

  /** Every right row with the left row's year yields a merged row. */
  lemma {:induction false} MatchesComplete(left: Row, rights: seq<Row>, right: Row)
    requires YearColumn in left && HasYears(rights)
    requires right in rights && Year(right) == Year(left)
    ensures Merge(left, right) in Matches(left, rights)
  {
    if rights[0] != right {
      MatchesComplete(left, rights[1..], right);
    }
  }

  /** Every pair of a left row and a right row of equal year yields a
      joined row. */
  lemma {:induction false} JoinRowsComplete(lefts: seq<Row>, rights: seq<Row>, left: Row, right: Row)
    requires HasYears(lefts) && HasYears(rights)
    requires left in lefts && right in rights && Year(left) == Year(right)
    ensures Merge(left, right) in JoinRows(lefts, rights)
  {
    if lefts[0] == left {
      MatchesComplete(left, rights, right);
    } else {
      JoinRowsComplete(lefts[1..], rights, left, right);
    }
  }

  /** The columns of the merged table. */
  function JoinHeader(left: seq<string>, right: seq<string>): seq<string> {
    left + Without(right, YearColumn)
  }

  lemma JoinPreservesShape(l: Table, r: Table)
    requires YearColumn in l.columns && YearColumn in r.columns
    requires ColumnSet(l.columns) * ColumnSet(r.columns) == {YearColumn}
    ensures Distinct(JoinHeader(l.columns, r.columns))
    ensures forall row :: row in JoinRows(l.rows, r.rows) ==>
      row.Keys == ColumnSet(JoinHeader(l.columns, r.columns))
  {
    JoinRowsSound(l.rows, r.rows);
    var header := JoinHeader(l.columns, r.columns);
    var rest := Without(r.columns, YearColumn);
    assert header == l.columns + rest;
    assert Distinct(l.columns) && Distinct(r.columns);
    assert Distinct(rest);
    assert forall c :: c in rest ==> c !in ColumnSet(l.columns) by {
      forall c | c in rest ensures c !in ColumnSet(l.columns) {
        assert c in ColumnSet(r.columns) && c != YearColumn;
        assert c !in ColumnSet(l.columns) * ColumnSet(r.columns);
      }
    }
    forall i, j | 0 <= i < j < |header|
      ensures header[i] != header[j]
    {
      if j < |l.columns| {
        assert header[i] == l.columns[i] && header[j] == l.columns[j];
        assert header[i] != header[j];
      } else if i >= |l.columns| {
        assert header[i] == rest[i - |l.columns|] && header[j] == rest[j - |l.columns|];
        assert header[i] != header[j];
      } else {
        var c := header[j];
        assert c == rest[j - |l.columns|];
        assert c in ColumnSet(r.columns) && c != YearColumn;
        assert header[i] in ColumnSet(l.columns);
      }
    }
    assert ColumnSet(header) == ColumnSet(l.columns) + ColumnSet(r.columns);
    assert forall row :: row in l.rows ==> row.Keys == ColumnSet(l.columns);
    assert forall row :: row in r.rows ==> row.Keys == ColumnSet(r.columns);
  }

  /** The inner join of two tables on `year`. */
  function Join(l: Table, r: Table): (out: Table)
    requires YearColumn in l.columns && YearColumn in r.columns
    requires ColumnSet(l.columns) * ColumnSet(r.columns) == {YearColumn}
    ensures out.columns == l.columns + Without(r.columns, YearColumn)
    ensures out.rows == JoinRows(l.rows, r.rows)
    ensures Years(out.rows) == Years(l.rows) * Years(r.rows)
  {
    JoinPreservesShape(l, r);
    assert forall row :: row in l.rows ==> row.Keys == ColumnSet(l.columns);
    assert forall row :: row in r.rows ==> row.Keys == ColumnSet(r.columns);
    JoinYearsShared(l.rows, r.rows);
    JoinKeepsSharedYears(l.rows, r.rows);
    var rows := JoinRows(l.rows, r.rows);
    assert forall k :: 0 <= k < |rows| ==> rows[k] in rows;
    Frame(JoinHeader(l.columns, r.columns), rows)
  }

  /** Every year of the join is a year of both sides. */
  lemma JoinYearsShared(lefts: seq<Row>, rights: seq<Row>)
    requires HasYears(lefts) && HasYears(rights)
    ensures HasYears(JoinRows(lefts, rights))
    ensures Years(JoinRows(lefts, rights)) <= Years(lefts) * Years(rights)
  {
    JoinRowsSound(lefts, rights);
  }

  /** Every year the two sides share is a year of the join. */
  lemma JoinKeepsSharedYears(lefts: seq<Row>, rights: seq<Row>)
    requires HasYears(lefts) && HasYears(rights)
    ensures Years(lefts) * Years(rights) <= Years(JoinRows(lefts, rights))
  {
    var out := JoinRows(lefts, rights);
    forall v | v in Years(lefts) * Years(rights)
      ensures v in Years(out)
    {
      var left :| left in lefts && YearColumn in left && left[YearColumn] == v;
      var right :| right in rights && YearColumn in right && right[YearColumn] == v;
      var row := Merge(left, right);
      JoinRowsComplete(lefts, rights, left, right);
      assert row in out && row[YearColumn] == v;
    }
  }

  /** A left row whose year the right side lacks has no partner. */
  lemma {:induction false} NoMatchesForAbsentYear(left: Row, rights: seq<Row>)
    requires YearColumn in left && HasYears(rights) && Year(left) !in Years(rights)
    ensures Matches(left, rights) == []
  {
    if rights != [] {
      assert rights[0] in rights;
      assert Years(rights[1..]) <= Years(rights);
      NoMatchesForAbsentYear(left, rights[1..]);
    }
  }

  /** A right side with at most one row per year gives one left row at
      most one partner. */
  lemma {:induction false} MatchesAtMostOne(left: Row, rights: seq<Row>)
    requires YearColumn in left && UniqueYears(rights)
    ensures |Matches(left, rights)| <= 1
  {
    if rights != [] {
      var tail := rights[1..];
      UniqueYearsTail(rights);
      MatchesAtMostOne(left, tail);
      if Year(rights[0]) == Year(left) {
        NoMatchesForAbsentYear(left, tail);
      }
    }
  }

  /** With at most one row per year on each side, the join has at most
      one row per year. */
  lemma {:induction false} JoinKeepsYearsUnique(lefts: seq<Row>, rights: seq<Row>)
    requires UniqueYears(lefts) && UniqueYears(rights)
    ensures UniqueYears(JoinRows(lefts, rights))
  {
    JoinYearsShared(lefts, rights);
    if lefts != [] {
      var tail := lefts[1..];
      UniqueYearsTail(lefts);
      JoinKeepsYearsUnique(tail, rights);
      JoinYearsShared(tail, rights);
      var here := Matches(lefts[0], rights);
      MatchesAtMostOne(lefts[0], rights);
      MatchesSound(lefts[0], rights);
      assert Years(here) <= {Year(lefts[0])} by {
        forall row | row in here ensures row[YearColumn] == Year(lefts[0]) {
          var right :| right in rights && Year(right) == Year(lefts[0]) && row == Merge(lefts[0], right);
        }
      }
      assert UniqueYears(here);
      UniqueYearsConcat(here, JoinRows(tail, rights));
    }
  }

  /** Each year the two sides share, and no other, appears exactly once in
      the join when each side has at most one row per year. */
  lemma JoinHasSharedYearsOnce(lefts: seq<Row>, rights: seq<Row>, v: Value)
    requires UniqueYears(lefts) && UniqueYears(rights)
    ensures Occurrences(JoinRows(lefts, rights), v) == if v in Years(lefts) && v in Years(rights) then 1 else 0
  {
    JoinYearsShared(lefts, rights);
    JoinKeepsSharedYears(lefts, rights);
    JoinKeepsYearsUnique(lefts, rights);
    UniqueYearsOccurOnce(JoinRows(lefts, rights), v);
  }
}
