/**
 The data-frame fragment the loader relies on: tables with a header and
 rows keyed by column name, column renaming and column projection.
 */
module Tables {
  import opened Wrappers

  /** A cell. Years are integers; every other cell (a floating-point
      measurement, a text cell, a missing value) is an opaque token that
      the loader carries through unchanged. A column read from a file is
      assumed to be typed as a whole: its cells are all `Int` only when
      every one of them is an integer. */
  datatype Value = Int(n: int) | Opaque(token: nat)

  /** One row of a table, keyed by column label. */
  type Row = map<string, Value>

  /** A header and the rows under it. */
  datatype Frame = Frame(columns: seq<string>, rows: seq<Row>)

  /** The label of the join key once the sources are renamed. */
  const YearColumn := "year"

  /** What can go wrong while a table is being loaded and cleaned. */
  datatype Error =
    | Unreadable(file: string)
    | DuplicateColumns(header: seq<string>)
    | MissingColumns(names: seq<string>)
    | NonIntegerYear

  predicate Distinct(names: seq<string>) {
    forall i, j :: 0 <= i < j < |names| ==> names[i] != names[j]
  }

  function ColumnSet(names: seq<string>): set<string> {
    set c | c in names
  }

  /** A rectangular table: labels are distinct and every row holds exactly
      one cell per label. */
  predicate WellFormed(f: Frame) {
    && Distinct(f.columns)
    && forall i :: 0 <= i < |f.rows| ==> f.rows[i].Keys == ColumnSet(f.columns)
  }

  type Table = f: Frame | WellFormed(f) witness Frame([], [])

  /** `pd.DataFrame()`: no columns and no rows. */
  const EmptyTable: Table := Frame([], [])

  // ----- renaming -----

  /** The label a column carries after `rename(columns = renames)`:
      labels outside the rename map keep their name. */
  function Target(name: string, renames: map<string, string>): string {
    if name in renames then renames[name] else name
  }

  /** No two of these labels are renamed to the same label. */
  predicate InjectiveOn(names: set<string>, renames: map<string, string>) {
    forall a, b :: a in names && b in names && Target(a, renames) == Target(b, renames) ==> a == b
  }

  /** Renames the cells of one row; each cell keeps its value. */
  function RenameRow(row: Row, renames: map<string, string>): (r: Row)
    requires InjectiveOn(row.Keys, renames)
    ensures forall k :: k in row && k !in renames ==> k in r && r[k] == row[k]
    ensures forall k :: k in row && k in renames ==> renames[k] in r && r[renames[k]] == row[k]
    ensures forall n :: n in r ==> exists k :: k in row && Target(k, renames) == n
  {
    map k | k in row :: Target(k, renames) := row[k]
  }

  function RenameHeader(columns: seq<string>, renames: map<string, string>): (r: seq<string>)
    ensures |r| == |columns|
    ensures forall i :: 0 <= i < |columns| ==> r[i] == Target(columns[i], renames)
  {
    seq(|columns|, i requires 0 <= i < |columns| => Target(columns[i], renames))
  }

  /** Renaming a well-formed table without collisions gives a well-formed table. */
  lemma RenamePreservesShape(t: Table, renames: map<string, string>)
    requires InjectiveOn(ColumnSet(t.columns), renames)
    ensures Distinct(RenameHeader(t.columns, renames))
    ensures forall i :: 0 <= i < |t.rows| ==>
      RenameRow(t.rows[i], renames).Keys == ColumnSet(RenameHeader(t.columns, renames))
  {
  }

  /** `DataFrame.rename(columns = renames)`. Two columns renamed to the same
      label make the table unusable, reported as `DuplicateColumns`. */
  function Rename(t: Table, renames: map<string, string>): (r: Result<Table, Error>)
    ensures r.Success? <==> InjectiveOn(ColumnSet(t.columns), renames)
    ensures r.Success? ==> |r.value.columns| == |t.columns|
    ensures r.Success? ==> forall p :: 0 <= p < |t.columns| ==> r.value.columns[p] == Target(t.columns[p], renames)
    ensures r.Success? ==> |r.value.rows| == |t.rows|
    ensures r.Success? ==> forall i :: 0 <= i < |t.rows| ==> r.value.rows[i] == RenameRow(t.rows[i], renames)
  {
    var header := RenameHeader(t.columns, renames);
    if !InjectiveOn(ColumnSet(t.columns), renames) then
      Failure(DuplicateColumns(header))
    else
      RenamePreservesShape(t, renames);
      var rows := seq(|t.rows|, i requires 0 <= i < |t.rows| => RenameRow(t.rows[i], renames));
      Success(Frame(header, rows))
  }

  // ----- projection -----

  /** The wanted labels that are not present, in the order they were asked for. */
  function Absent(wanted: seq<string>, present: set<string>): (r: seq<string>)
    ensures forall c :: c in r <==> c in wanted && c !in present
  {
    if wanted == [] then []
    else (if wanted[0] in present then [] else [wanted[0]]) + Absent(wanted[1..], present)
  }

  function ProjectRow(row: Row, wanted: seq<string>): (r: Row)
    requires forall c :: c in wanted ==> c in row
    ensures r.Keys == ColumnSet(wanted)
    ensures forall c :: c in r ==> r[c] == row[c]
  {
    map c | c in wanted :: row[c]
  }

  /** `df[wanted]`: strict column selection. Any absent label raises, and
      no narrower table is produced. */
  function Project(t: Table, wanted: seq<string>): (r: Result<Table, Error>)
    requires Distinct(wanted)
    ensures r.Success? <==> forall c :: c in wanted ==> c in t.columns
    ensures r.Failure? ==> r.error.MissingColumns? && |r.error.names| > 0
    ensures r.Failure? ==> forall c :: c in r.error.names <==> c in wanted && c !in t.columns
    ensures r.Success? ==> r.value.columns == wanted && |r.value.rows| == |t.rows|
    ensures r.Success? ==> forall i, c :: 0 <= i < |t.rows| && c in wanted ==> r.value.rows[i][c] == t.rows[i][c]
  {
    var missing := Absent(wanted, ColumnSet(t.columns));
    if |missing| > 0 then
      assert missing[0] in wanted && missing[0] !in ColumnSet(t.columns);
      Failure(MissingColumns(missing))
    else
      var rows := seq(|t.rows|, i requires 0 <= i < |t.rows| => ProjectRow(t.rows[i], wanted));
      Success(Frame(wanted, rows))
  }

  // ----- the year column -----

  /** Every row carries a year. */
  predicate HasYears(rows: seq<Row>) {
    forall row :: row in rows ==> YearColumn in row
  }

  function Year(row: Row): Value
    requires YearColumn in row
  {
    row[YearColumn]
  }

  /** The years that occur in a sequence of rows. */
  function Years(rows: seq<Row>): set<Value> {
    set row | row in rows && YearColumn in row :: row[YearColumn]
  }

  /** At most one row per year. */
  predicate UniqueYears(rows: seq<Row>) {
    && HasYears(rows)
    && forall i, j :: 0 <= i < j < |rows| ==> Year(rows[i]) != Year(rows[j])
  }

  /** How many rows carry year `v`. */
  function Occurrences(rows: seq<Row>, v: Value): nat {
    if rows == [] then 0
    else (if YearColumn in rows[0] && rows[0][YearColumn] == v then 1 else 0) + Occurrences(rows[1..], v)
  }

  /** With at most one row per year, every year that occurs occurs exactly once. */
  lemma {:induction false} UniqueYearsOccurOnce(rows: seq<Row>, v: Value)
    requires UniqueYears(rows)
    ensures Occurrences(rows, v) == if v in Years(rows) then 1 else 0
  {
    if rows != [] {
      var tail := rows[1..];
      assert UniqueYears(tail) by {
        forall i, j | 0 <= i < j < |tail| ensures Year(tail[i]) != Year(tail[j]) {
          assert tail[i] == rows[i + 1] && tail[j] == rows[j + 1];
        }
      }
      UniqueYearsOccurOnce(tail, v);
      assert Years(rows) == {Year(rows[0])} + Years(tail) by {
        assert rows == [rows[0]] + tail;
      }
    }
  }

  /** Dropping the first row keeps years unique. */
  lemma UniqueYearsTail(rows: seq<Row>)
    requires UniqueYears(rows) && rows != []
    ensures UniqueYears(rows[1..])
    ensures Year(rows[0]) !in Years(rows[1..])
  {
  }

  /** Two row sequences with unique and disjoint years concatenate to one with unique years. */
  lemma UniqueYearsConcat(a: seq<Row>, b: seq<Row>)
    requires UniqueYears(a) && UniqueYears(b) && Years(a) !! Years(b)
    ensures UniqueYears(a + b)
  {
    var ab := a + b;
    forall row | row in ab ensures YearColumn in row {
    }
    forall i, j | 0 <= i < j < |ab| ensures Year(ab[i]) != Year(ab[j]) {
      if i < |a| && j >= |a| {
        assert ab[i] in a && ab[j] == b[j - |a|] && ab[j] in b;
        assert Year(ab[i]) in Years(a) && Year(ab[j]) in Years(b);
      } else if i >= |a| {
        assert ab[i] == b[i - |a|] && ab[j] == b[j - |a|];
      }
    }
  }
}
