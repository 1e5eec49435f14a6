/**
 `load_data(region_key)`: look the region up, read its two exports, rename
 their headers to the internal names, keep the expected columns, inner-join
 on `year`, keep 2015..2023, and turn any failure into an empty table.
 */
module Loader {
  import opened Wrappers
  import opened Tables
  import opened Joins
  import opened YearRange
  import opened Catalog

  /** Header renames for the incidence export. */
  const IncidenceRenames: map<string, string> := map[
    "Category" := "year",
    "Estimated TB incidence per 100 000 population" := "tb_incidence",
    "Uncertainty interval (low)" := "tb_incidence_low",
    "Uncertainty interval (high)" := "tb_incidence_high"
  ]

  /** Columns kept from the incidence export. */
  const IncidenceColumns: seq<string> := ["year", "tb_incidence", "tb_incidence_low", "tb_incidence_high"]

  /** Header renames for the RR-TB prevalence export. */
  const RrRenames: map<string, string> := map[
    "Category" := "year",
    "Previously treated pulmonary bacteriologically confirmed cases" := "rr_prev_prevtx",
    "New pulmonary bacteriologically confirmed cases" := "rr_prev_new"
  ]

  /** Columns kept from the RR-TB prevalence export. */
  const RrColumns: seq<string> := ["year", "rr_prev_prevtx", "rr_prev_new"]

  /** The schema of every non-empty result. */
  const OutputColumns: seq<string> :=
    ["year", "tb_incidence", "tb_incidence_low", "tb_incidence_high", "rr_prev_prevtx", "rr_prev_new"]

  const FirstYear := 2015
  const LastYear := 2023

  /** `pd.read_csv`: the table stored under a file name, or `None` when the
      file cannot be found or parsed. */
  type Reader = string -> Option<Table>

  /** Some column of `header` is renamed to `c`. */
  predicate Supplies(header: seq<string>, renames: map<string, string>, c: string) {
    exists s :: s in header && Target(s, renames) == c
  }

  /** Renaming `header` causes no collision and supplies every wanted column. */
  predicate Cleans(header: seq<string>, renames: map<string, string>, wanted: seq<string>) {
    && InjectiveOn(ColumnSet(header), renames)
    && forall c :: c in wanted ==> Supplies(header, renames, c)
  }

  /** Rename the headers of one export, then keep exactly the wanted columns. */
  function Clean(raw: Table, renames: map<string, string>, wanted: seq<string>): (r: Result<Table, Error>)
    requires Distinct(wanted)
    ensures r.Success? <==> Cleans(raw.columns, renames, wanted)
    ensures r.Success? ==> r.value.columns == wanted && |r.value.rows| == |raw.rows|
    ensures r.Success? ==> forall i, s :: 0 <= i < |raw.rows| && s in raw.columns && Target(s, renames) in wanted ==>
      r.value.rows[i][Target(s, renames)] == raw.rows[i][s]
  {
    var renamed := Rename(raw, renames);
    if renamed.Failure? then
      Failure(renamed.error)
    else
      var t := renamed.value;
      assert forall c :: c in t.columns <==> Supplies(raw.columns, renames, c) by {
        forall c ensures c in t.columns <==> Supplies(raw.columns, renames, c) {
          if c in t.columns {
            var p :| 0 <= p < |t.columns| && t.columns[p] == c;
            assert raw.columns[p] in raw.columns;
          }
          if Supplies(raw.columns, renames, c) {
            var s :| s in raw.columns && Target(s, renames) == c;
            var p :| 0 <= p < |raw.columns| && raw.columns[p] == s;
            assert t.columns[p] == c;
          }
        }
      }
      var r := Project(t, wanted);
      assert r.Success? ==> forall i, s :: 0 <= i < |raw.rows| && s in raw.columns && Target(s, renames) in wanted ==>
        r.value.rows[i][Target(s, renames)] == raw.rows[i][s] by {
        if r.Success? {
          forall i, s | 0 <= i < |raw.rows| && s in raw.columns && Target(s, renames) in wanted
            ensures r.value.rows[i][Target(s, renames)] == raw.rows[i][s]
          {
            assert raw.rows[i].Keys == ColumnSet(raw.columns);
            assert s in raw.rows[i];
          }
        }
      }
      r
  }

  /** Read one export; a file that cannot be read raises. */
  function Fetch(read: Reader, file: string): (r: Result<Table, Error>)
    ensures r.Success? <==> read(file).Some?
    ensures r.Success? ==> r.value == read(file).value
    ensures r.Failure? ==> r.error == Unreadable(file)
  {
    match read(file)
    case Some(t) => Success(t)
    case None => Failure(Unreadable(file))
  }

  /** The two cleaned schemas share only the join key. */
  lemma SchemasShareOnlyYear()
    ensures ColumnSet(IncidenceColumns) * ColumnSet(RrColumns) == {YearColumn}
    ensures IncidenceColumns + Without(RrColumns, YearColumn) == OutputColumns
  {
  }

  /** Every row of two cleaned exports carries a year. */
  lemma CleanedHaveYears(inc: Table, rr: Table)
    requires inc.columns == IncidenceColumns && rr.columns == RrColumns
    ensures HasYears(inc.rows) && HasYears(rr.rows)
  {
    assert forall row :: row in inc.rows ==> row.Keys == ColumnSet(inc.columns);
    assert forall row :: row in rr.rows ==> row.Keys == ColumnSet(rr.columns);
  }

  /** The merge-and-filter stage of `load_data` on two cleaned exports. */
  function MergeAndFilter(inc: Table, rr: Table): (r: Result<Table, Error>)
    requires inc.columns == IncidenceColumns && rr.columns == RrColumns
    ensures HasYears(inc.rows) && HasYears(rr.rows)
    ensures r.Failure? <==> exists v :: v in Years(inc.rows) * Years(rr.rows) && !v.Int?
    ensures r.Success? ==> r.value.columns == OutputColumns
    ensures r.Success? ==>
      Years(r.value.rows) == set v | v in Years(inc.rows) * Years(rr.rows) && InRange(v, FirstYear, LastYear)
    ensures r.Success? && UniqueYears(inc.rows) && UniqueYears(rr.rows) ==>
      forall v :: Occurrences(r.value.rows, v) ==
        if v in Years(inc.rows) && v in Years(rr.rows) && InRange(v, FirstYear, LastYear) then 1 else 0
    ensures r.Success? ==> forall row :: row in r.value.rows ==>
      exists i, j :: i in inc.rows && j in rr.rows && Year(i) == Year(j) && row == Merge(i, j)
    ensures r.Success? ==> forall i, j ::
      i in inc.rows && j in rr.rows && Year(i) == Year(j) && InRange(Year(i), FirstYear, LastYear) ==>
        Merge(i, j) in r.value.rows
  {
    SchemasShareOnlyYear();
    JoinedRowsMerged(inc, rr);
    JoinedRowsComplete(inc.rows, rr.rows);
    JoinedIntegerYears(inc, rr);
    JoinedYearsInRange(inc, rr);
    OnceInRange(inc, rr);
    FilterYears(Join(inc, rr), FirstYear, LastYear)
  }

  /** Every row kept after the join and the range filter merges an
      incidence row and an RR-TB row of the same year. */
  lemma JoinedRowsMerged(inc: Table, rr: Table)
    requires inc.columns == IncidenceColumns && rr.columns == RrColumns
    ensures HasYears(inc.rows) && HasYears(rr.rows)
    ensures HasYears(JoinRows(inc.rows, rr.rows))
    ensures forall row :: row in KeepYears(JoinRows(inc.rows, rr.rows), FirstYear, LastYear) ==>
      exists i, j :: i in inc.rows && j in rr.rows && Year(i) == Year(j) && row == Merge(i, j)
  {
    CleanedHaveYears(inc, rr);
    JoinRowsSound(inc.rows, rr.rows);
  }

  /** Every left row and right row of the same year inside 2015..2023
      survive the join and the range filter, merged. */
  lemma JoinedRowsComplete(lefts: seq<Row>, rights: seq<Row>)
    requires HasYears(lefts) && HasYears(rights)
    ensures HasYears(JoinRows(lefts, rights))
    ensures forall i, j :: i in lefts && j in rights && Year(i) == Year(j) && InRange(Year(i), FirstYear, LastYear) ==>
      Merge(i, j) in KeepYears(JoinRows(lefts, rights), FirstYear, LastYear)
  {
    forall i, j | i in lefts && j in rights && Year(i) == Year(j) && InRange(Year(i), FirstYear, LastYear)
      ensures Merge(i, j) in KeepYears(JoinRows(lefts, rights), FirstYear, LastYear)
    {
      JoinRowsComplete(lefts, rights, i, j);
    }
  }

  /** The joined rows of two cleaned exports hold a non-integer year
      exactly when the exports share one. */
  lemma JoinedIntegerYears(inc: Table, rr: Table)
    requires inc.columns == IncidenceColumns && rr.columns == RrColumns
    ensures HasYears(inc.rows) && HasYears(rr.rows)
    ensures HasYears(JoinRows(inc.rows, rr.rows))
    ensures !IntegerYears(JoinRows(inc.rows, rr.rows)) <==> exists v :: v in Years(inc.rows) * Years(rr.rows) && !v.Int?
  {
    CleanedHaveYears(inc, rr);
    var joined := JoinRows(inc.rows, rr.rows);
    JoinYearsShared(inc.rows, rr.rows);
    JoinKeepsSharedYears(inc.rows, rr.rows);
    var shared := Years(inc.rows) * Years(rr.rows);
    if !IntegerYears(joined) {
      var row :| row in joined && !Year(row).Int?;
      assert Year(row) in Years(joined);
    }
    if exists v :: v in shared && !v.Int? {
      var v :| v in shared && !v.Int?;
      var row :| row in joined && YearColumn in row && row[YearColumn] == v;
    }
  }

  /** The range filter keeps, of two cleaned exports' join, exactly the
      shared years inside the range. */
  lemma JoinedYearsInRange(inc: Table, rr: Table)
    requires inc.columns == IncidenceColumns && rr.columns == RrColumns
    ensures HasYears(inc.rows) && HasYears(rr.rows)
    ensures Years(KeepYears(JoinRows(inc.rows, rr.rows), FirstYear, LastYear)) ==
      set v | v in Years(inc.rows) * Years(rr.rows) && InRange(v, FirstYear, LastYear)
  {
    CleanedHaveYears(inc, rr);
    JoinYearsShared(inc.rows, rr.rows);
    JoinKeepsSharedYears(inc.rows, rr.rows);
    KeptYears(JoinRows(inc.rows, rr.rows), FirstYear, LastYear);
  }

  /** After the join and the range filter, with one row per year in each
      export, each shared year inside the range appears exactly once. */
  lemma OnceInRange(inc: Table, rr: Table)
    requires inc.columns == IncidenceColumns && rr.columns == RrColumns
    ensures HasYears(inc.rows) && HasYears(rr.rows)
    ensures UniqueYears(inc.rows) && UniqueYears(rr.rows) ==>
      forall v :: Occurrences(KeepYears(JoinRows(inc.rows, rr.rows), FirstYear, LastYear), v) ==
        if v in Years(inc.rows) && v in Years(rr.rows) && InRange(v, FirstYear, LastYear) then 1 else 0
  {
    CleanedHaveYears(inc, rr);
    JoinYearsShared(inc.rows, rr.rows);
    if UniqueYears(inc.rows) && UniqueYears(rr.rows) {
      forall v
        ensures Occurrences(KeepYears(JoinRows(inc.rows, rr.rows), FirstYear, LastYear), v) ==
          if v in Years(inc.rows) && v in Years(rr.rows) && InRange(v, FirstYear, LastYear) then 1 else 0
      {
        JoinHasSharedYearsOnce(inc.rows, rr.rows, v);
        KeptOccurrences(JoinRows(inc.rows, rr.rows), FirstYear, LastYear, v);
      }
    }
  }

  /** The body of the `try` block in `load_data`, for a region's two files. */
  function Load(files: Sources, read: Reader): (r: Result<Table, Error>)
    ensures r.Success? ==> r.value.columns == OutputColumns
    ensures r.Success? ==> forall row :: row in r.value.rows ==> YearColumn in row && InRange(row[YearColumn], FirstYear, LastYear)
  {
    var incRaw :- Fetch(read, files.incidence);
    var rrRaw :- Fetch(read, files.rr);
    var inc :- Clean(incRaw, IncidenceRenames, IncidenceColumns);
    var rr :- Clean(rrRaw, RrRenames, RrColumns);
    MergeAndFilter(inc, rr)
  }

  /** `load_data(region_key)`: the cleaned and merged table of the region,
      or the empty table for an unknown region or any failure. */
  function LoadData(key: string, read: Reader): (r: Table)
    ensures key !in DataFiles ==> r == EmptyTable
    ensures r == EmptyTable || r.columns == OutputColumns
    ensures forall row :: row in r.rows ==> YearColumn in row && InRange(row[YearColumn], FirstYear, LastYear)
  {
    match Lookup(key)
    case None => EmptyTable
    case Some(files) =>
      match Load(files, read)
      case Success(t) => t
      case Failure(_) => EmptyTable
  }

  /** The internal names of the report headers. Only `Category` becomes
      `year`; a `Year` header is not an alias and keeps its name. */
  lemma CanonicalNames()
    ensures Target("Category", IncidenceRenames) == YearColumn && Target("Category", RrRenames) == YearColumn
    ensures Target("Year", IncidenceRenames) == "Year" && Target("Year", RrRenames) == "Year"
    ensures forall s :: s in IncidenceRenames ==> IncidenceRenames[s] in IncidenceColumns
    ensures forall s :: s in RrRenames ==> RrRenames[s] in RrColumns
    ensures forall c :: c in IncidenceColumns ==> exists s :: s in IncidenceRenames && IncidenceRenames[s] == c
    ensures forall c :: c in RrColumns ==> exists s :: s in RrRenames && RrRenames[s] == c
  {
    assert IncidenceRenames["Category"] == "year";
    assert IncidenceRenames["Estimated TB incidence per 100 000 population"] == "tb_incidence";
    assert IncidenceRenames["Uncertainty interval (low)"] == "tb_incidence_low";
    assert IncidenceRenames["Uncertainty interval (high)"] == "tb_incidence_high";
    assert RrRenames["Category"] == "year";
    assert RrRenames["Previously treated pulmonary bacteriologically confirmed cases"] == "rr_prev_prevtx";
    assert RrRenames["New pulmonary bacteriologically confirmed cases"] == "rr_prev_new";
  }

  /** A source without a `Category` column (and without a literal `year`
      column) cannot supply the join key: a `Year` header does not help. */
  lemma YearNeedsCategory(header: seq<string>)
    requires "Category" !in header && YearColumn !in header
    ensures !Cleans(header, IncidenceRenames, IncidenceColumns)
    ensures !Cleans(header, RrRenames, RrColumns)
  {
    assert YearColumn in IncidenceColumns && YearColumn in RrColumns;
    assert !Supplies(header, IncidenceRenames, YearColumn);
    assert !Supplies(header, RrRenames, YearColumn);
  }

  /** An unknown region gives the empty table without reading any file:
      the result does not depend on the reader. */
  lemma UnknownRegionReadsNothing(key: string, read: Reader, other: Reader)
    requires key !in DataFiles
    ensures LoadData(key, read) == LoadData(key, other) == EmptyTable
  {
  }

  /** A missing or unreadable file, a colliding rename or a missing column
      in either export fails the whole load: no partial incidence or RR
      data is returned. */
  lemma SourceFailureGivesEmpty(key: string, read: Reader)
    requires key in DataFiles
    requires
      var files := DataFiles[key];
      || read(files.incidence).None?
      || read(files.rr).None?
      || !Cleans(read(files.incidence).value.columns, IncidenceRenames, IncidenceColumns)
      || !Cleans(read(files.rr).value.columns, RrRenames, RrColumns)
    ensures Load(DataFiles[key], read).Failure?
    ensures LoadData(key, read) == EmptyTable
  {
  }

  /** End to end: when both exports of a region are read and cleaned, the
      loaded table holds exactly the years the two share within 2015..2023
      (each once when each export has one row per year), unless some shared
      year is not an integer, in which case the load is empty. Every loaded
      row merges an incidence row and an RR-TB row of its year, and every
      such pair in range is loaded. */
  lemma LoadDataYears(key: string, read: Reader, inc: Table, rr: Table)
    requires key in DataFiles
    requires read(DataFiles[key].incidence).Some? && read(DataFiles[key].rr).Some?
    requires Clean(read(DataFiles[key].incidence).value, IncidenceRenames, IncidenceColumns) == Success(inc)
    requires Clean(read(DataFiles[key].rr).value, RrRenames, RrColumns) == Success(rr)
    ensures HasYears(inc.rows) && HasYears(rr.rows)
    ensures (exists v :: v in Years(inc.rows) * Years(rr.rows) && !v.Int?) ==> LoadData(key, read) == EmptyTable
    ensures (forall v :: v in Years(inc.rows) * Years(rr.rows) ==> v.Int?) ==>
      && LoadData(key, read).columns == OutputColumns
      && Years(LoadData(key, read).rows) == set v | v in Years(inc.rows) * Years(rr.rows) && InRange(v, FirstYear, LastYear)
    ensures (forall v :: v in Years(inc.rows) * Years(rr.rows) ==> v.Int?) && UniqueYears(inc.rows) && UniqueYears(rr.rows) ==>
      forall v :: Occurrences(LoadData(key, read).rows, v) ==
        if v in Years(inc.rows) && v in Years(rr.rows) && InRange(v, FirstYear, LastYear) then 1 else 0
    ensures forall row :: row in LoadData(key, read).rows ==>
      exists i, j :: i in inc.rows && j in rr.rows && Year(i) == Year(j) && row == Merge(i, j)
    ensures (forall v :: v in Years(inc.rows) * Years(rr.rows) ==> v.Int?) ==>
      forall i, j :: i in inc.rows && j in rr.rows && Year(i) == Year(j) && InRange(Year(i), FirstYear, LastYear) ==>
        Merge(i, j) in LoadData(key, read).rows
  {
  }
}
