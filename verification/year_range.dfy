/**
 `merged[(merged['year'] >= lo) & (merged['year'] <= hi)]`: keeps the rows
 whose year lies in the closed range, in their original order. Comparing a
 text year with an integer raises.
 */
module YearRange {
  import opened Wrappers
  import opened Tables

  /** The year is an integer inside `lo..hi`, both ends included. */
  predicate InRange(v: Value, lo: int, hi: int) {
    v.Int? && lo <= v.n <= hi
  }

  /** Every row's year is an integer, so the comparison does not raise. */
  predicate IntegerYears(rows: seq<Row>)
    requires HasYears(rows)
  {
    forall row :: row in rows ==> Year(row).Int?
  }

  /** The rows whose year lies in the range. */
  function KeepYears(rows: seq<Row>, lo: int, hi: int): (r: seq<Row>)
    requires HasYears(rows)
    ensures HasYears(r)
    ensures forall row :: row in r ==> row in rows && InRange(Year(row), lo, hi)
    ensures forall row :: row in rows && InRange(Year(row), lo, hi) ==> row in r
  {
    if rows == [] then []
    else
      var rest := KeepYears(rows[1..], lo, hi);
      if InRange(Year(rows[0]), lo, hi) then
        assert ([rows[0]] + rest)[1..] == rest;
        [rows[0]] + rest
      else rest
  }

  /** The range filter on a table. Fails when some year is not an integer. */
  function FilterYears(t: Table, lo: int, hi: int): (r: Result<Table, Error>)
    requires YearColumn in t.columns
    ensures HasYears(t.rows)
    ensures r.Failure? <==> !IntegerYears(t.rows)
    ensures r.Success? ==> r.value.columns == t.columns && r.value.rows == KeepYears(t.rows, lo, hi)
  {
    assert forall row :: row in t.rows ==> row.Keys == ColumnSet(t.columns);
    if exists row :: row in t.rows && !Year(row).Int? then
      Failure(NonIntegerYear)
    else
      var rows := KeepYears(t.rows, lo, hi);
      assert forall k :: 0 <= k < |rows| ==> rows[k] in t.rows;
      Success(Frame(t.columns, rows))
  }

  /** A year in range keeps all its rows; a year out of range keeps none. */
  lemma {:induction false} KeptOccurrences(rows: seq<Row>, lo: int, hi: int, v: Value)
    requires HasYears(rows)
    ensures Occurrences(KeepYears(rows, lo, hi), v) == if InRange(v, lo, hi) then Occurrences(rows, v) else 0
  {
    if rows != [] {
      KeptOccurrences(rows[1..], lo, hi, v);
      var rest := KeepYears(rows[1..], lo, hi);
      if InRange(Year(rows[0]), lo, hi) {
        assert ([rows[0]] + rest)[1..] == rest;
      }
    }
  }

  /** The years kept are exactly the years in range. */
  lemma KeptYears(rows: seq<Row>, lo: int, hi: int)
    requires HasYears(rows)
    ensures Years(KeepYears(rows, lo, hi)) == set v | v in Years(rows) && InRange(v, lo, hi)
  {
  }

  /** Keeping the years in range a second time changes nothing. */
  lemma {:induction false} KeepYearsIdempotent(rows: seq<Row>, lo: int, hi: int)
    requires HasYears(rows)
    ensures KeepYears(KeepYears(rows, lo, hi), lo, hi) == KeepYears(rows, lo, hi)
  {
    if rows != [] {
      KeepYearsIdempotent(rows[1..], lo, hi);
      var rest := KeepYears(rows[1..], lo, hi);
      if InRange(Year(rows[0]), lo, hi) {
        assert ([rows[0]] + rest)[1..] == rest;
      }
    }
  }

  /** Filtering an already filtered table returns it unchanged. */
  lemma FilterYearsIdempotent(t: Table, lo: int, hi: int)
    requires YearColumn in t.columns && FilterYears(t, lo, hi).Success?
    ensures FilterYears(FilterYears(t, lo, hi).value, lo, hi) == FilterYears(t, lo, hi)
  {
    KeepYearsIdempotent(t.rows, lo, hi);
  }
}
