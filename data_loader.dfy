/** load_and_prepare_data (app/data_loader.py:6-49) as the source runs it:
    the usage frame is changed in place step by step, the boundary frame is
    projected and then corrected entry by entry in two loops, and the two are
    merged. `Prepare` is the same pipeline as one function on values;
    `LoadAndPrepare` is proved to compute it, and the lemmas below state what
    its result satisfies. */
module DataLoader {
  import opened Tables
  import opened Cleaning
  import opened Boundary
  import opened Merging

  /** A data frame that the pipeline changes in place. */
  class Frame {
    var columns: seq<string>
    var rows: seq<seq<Cell>>

    ghost predicate Valid()
      reads this
    {
      Rectangular(Table(columns, rows))
    }

    function View(): Table
      reads this
    {
      Table(columns, rows)
    }

    constructor (t: Table)
      requires Rectangular(t)
      ensures Valid() && View() == t
    {
      columns := t.columns;
      rows := t.rows;
    }

    /** data.replace(r"^\.+$", nan, regex=True, inplace=True), line 17. */
    method ReplaceSentinels()
      requires Valid()
      modifies this
      ensures Valid() && View() == Clean(old(View()))
    {
      rows := Clean(View()).rows;
    }

    /** data.drop(name, axis=1, inplace=True), line 18: the frame loses the
        column, or is left as it was and the KeyError is returned. */
    method DropColumnInPlace(name: string) returns (err: Option<Error>)
      requires Valid()
      modifies this
      ensures Valid()
      ensures match DropColumn(old(View()), name)
        case Ok(t) => err.None? && View() == t
        case Err(e) => err == Some(e) && View() == old(View())
    {
      var r := DropColumn(View(), name);
      match r
      case Ok(t) =>
        columns, rows := t.columns, t.rows;
        err := None;
      case Err(e) =>
        err := Some(e);
    }

    /** data[years] = data[years].astype(float), line 23: every cell of those
        columns converted, or nothing changed and the error returned. */
    method CoerceInPlace(years: seq<string>, parse: Parser) returns (err: Option<Error>)
      requires Valid()
      modifies this
      ensures Valid()
      ensures match Coerce(old(View()), years, parse)
        case Ok(t) => err.None? && View() == t
        case Err(e) => err == Some(e) && View() == old(View())
    {
      var r := Coerce(View(), years, parse);
      match r
      case Ok(t) =>
        rows := t.rows;
        err := None;
      case Err(e) =>
        err := Some(e);
    }

    /** world.loc[world[keyName] == key, targetName] = value, lines 41 and 46. */
    method AssignWhere(keyName: string, key: string, targetName: string, value: string)
      requires Valid() && keyName in columns && targetName in columns
      modifies this
      ensures Valid() && columns == old(columns)
      ensures View() == SetWhere(old(View()), IndexOf(columns, keyName).value, key, IndexOf(columns, targetName).value, value)
    {
      var k := IndexOf(columns, keyName).value;
      var c := IndexOf(columns, targetName).value;
      rows := SetWhere(View(), k, key, c, value).rows;
    }

    /** `for key, value in fixes.items(): world.loc[...] = value`, lines 40-41
        and 45-46: the entries are applied one after another, in table order. */
    method ApplyCorrectionsInPlace(fixes: Corrections, keyName: string, targetName: string)
      requires Valid() && keyName in columns && targetName in columns
      modifies this
      ensures Valid() && columns == old(columns)
      ensures View() == ApplyCorrections(old(View()), IndexOf(columns, keyName).value, IndexOf(columns, targetName).value, fixes)
    {
      var k := IndexOf(columns, keyName).value;
      var c := IndexOf(columns, targetName).value;
      var i := 0;
      while i < |fixes|
        invariant 0 <= i <= |fixes|
        invariant Valid() && columns == old(columns)
        invariant View() == ApplyCorrections(old(View()), k, c, fixes[..i])
      {
        assert fixes[..i + 1][..i] == fixes[..i];
        AssignWhere(keyName, fixes[i].0, targetName, fixes[i].1);
        i := i + 1;
      }
      assert fixes[..i] == fixes;
    }

    /** Lines 36-46: the code corrections keyed by country name, then the
        continent corrections keyed by the corrected code. */
    method ReconcileInPlace(codeFixes: Corrections, continentFixes: Corrections)
      requires Valid() && "ADMIN" in columns && "ADM0_A3" in columns && "CONTINENT" in columns
      modifies this
      ensures Valid() && View() == ReconcileWith(old(View()), codeFixes, continentFixes)
    {
      ApplyCorrectionsInPlace(codeFixes, "ADMIN", "ADM0_A3");
      ApplyCorrectionsInPlace(continentFixes, "ADM0_A3", "CONTINENT");
    }
  }

  /** Lines 17-23 on values: the usage table cleaned, without "2023", and
      with its year columns numeric. */
  function CleanedUsage(usage: Table, parse: Parser): (r: Result<Table>)
    requires Rectangular(usage)
    ensures r.Ok? ==> Rectangular(r.value) && |r.value.rows| == |usage.rows|
  {
    var dropped :- DropColumn(Clean(usage), "2023");
    Coerce(dropped, YearColumns(dropped.columns), parse)
  }

  /** Lines 29-46 on values: the boundary table projected and reconciled. */
  function ReconciledBoundary(world: Table): (r: Result<Table>)
    requires Rectangular(world)
    ensures r.Ok? ==> Rectangular(r.value) && r.value.columns == BoundaryColumns && |r.value.rows| == |world.rows|
  {
    var projected :- Select(world, BoundaryColumns);
    Ok(Reconcile(projected))
  }

  /** The whole preparation as one function: errors surface in the source's
      order, the usage table's before the boundary table's. */
  function Prepare(usage: Table, world: Table, parse: Parser): (r: Result<Merged>)
    requires Rectangular(usage) && Rectangular(world)
    ensures r.Ok? ==> WellFormed(r.value) && |r.value.rows| >= |usage.rows|
  {
    var numeric :- CleanedUsage(usage, parse);
    var boundary :- ReconciledBoundary(world);
    LeftJoin(numeric, "Country Code", boundary, "ADM0_A3")
  }

  /** Lines 17-23 as the source runs them, on a frame changed in place. */
  method LoadUsage(usage: Table, parse: Parser) returns (r: Result<Table>)
    requires Rectangular(usage)
    ensures r == CleanedUsage(usage, parse)
  {
    var data := new Frame(usage);
    data.ReplaceSentinels();
    var err := data.DropColumnInPlace("2023");
    if err.Some? {
      return Err(err.value);
    }
    var years := YearColumns(data.columns);
    err := data.CoerceInPlace(years, parse);
    if err.Some? {
      return Err(err.value);
    }
    r := Ok(data.View());
  }

  /** Lines 29-46 as the source runs them: the projection, then the two
      correction loops on a frame changed in place. */
  method LoadBoundary(world: Table) returns (r: Result<Table>)
    requires Rectangular(world)
    ensures r == ReconciledBoundary(world)
  {
    var projected := Select(world, BoundaryColumns);
    if projected.Err? {
      return Err(projected.error);
    }
    var w := new Frame(projected.value);
    w.ReconcileInPlace(CodeCorrections, ContinentCorrections);
    r := Ok(w.View());
  }

  /** load_and_prepare_data up to the merge, with the two raw tables given
      (reading the files is not modelled). */
  method LoadAndPrepare(usage: Table, world: Table, parse: Parser) returns (r: Result<Merged>)
    requires Rectangular(usage) && Rectangular(world)
    ensures r == Prepare(usage, world, parse)
  {
    var numeric := LoadUsage(usage, parse);
    if numeric.Err? {
      return Err(numeric.error);
    }
    var boundary := LoadBoundary(world);
    if boundary.Err? {
      return Err(boundary.error);
    }
    r := LeftJoin(numeric.value, "Country Code", boundary.value, "ADM0_A3");
  }

  // ---------------------------------------------------------------------
  // What the prepared table satisfies
  // ---------------------------------------------------------------------

  /** Without a "2023" column the drop raises, before anything else happens. */
  lemma PrepareNeeds2023Column(usage: Table, world: Table, parse: Parser)
    requires Rectangular(usage) && Rectangular(world)
    requires "2023" !in usage.columns
    ensures Prepare(usage, world, parse) == Err(KeyError("2023"))
  {
  }

  /** A year cell holding text that is neither a missing sentinel nor a number
      makes the cleaning fail with NotNumeric: it is never read as missing or
      as zero. */
  lemma CleanedUsageRejectsNonNumericToken(usage: Table, parse: Parser, i: nat, j: nat)
    requires Rectangular(usage) && "2023" in usage.columns
    requires i < |usage.rows| && j < |usage.columns|
    requires usage.columns[j] != "Country Name" && usage.columns[j] != "Country Code" && usage.columns[j] != "2023"
    requires usage.rows[i][j].Text? && !IsSentinel(usage.rows[i][j].text) && parse(usage.rows[i][j].text).None?
    ensures CleanedUsage(usage, parse).Err? && CleanedUsage(usage, parse).error.NotNumeric?
  {
    var cleaned := Clean(usage);
    assert cleaned.rows[i][j] == usage.rows[i][j];
    DropThenCoerceRejects(cleaned, "2023", parse, i, j);
    var dropped := DropColumn(cleaned, "2023").value;
    assert CleanedUsage(usage, parse) == Coerce(dropped, YearColumns(dropped.columns), parse);
  }

  /** ... and so does the whole preparation, whatever the boundary table. */
  lemma PrepareRejectsNonNumericToken(usage: Table, world: Table, parse: Parser, i: nat, j: nat)
    requires Rectangular(usage) && Rectangular(world)
    requires "2023" in usage.columns
    requires i < |usage.rows| && j < |usage.columns|
    requires usage.columns[j] != "Country Name" && usage.columns[j] != "Country Code" && usage.columns[j] != "2023"
    requires usage.rows[i][j].Text? && !IsSentinel(usage.rows[i][j].text) && parse(usage.rows[i][j].text).None?
    ensures Prepare(usage, world, parse).Err? && Prepare(usage, world, parse).error.NotNumeric?
  {
    CleanedUsageRejectsNonNumericToken(usage, parse, i, j);
  }

  /** A cleaned usage table has lost exactly the "2023" column, and every
      cell under a year label is a number or missing. */
  lemma CleanedUsageIsNumeric(usage: Table, parse: Parser)
    requires Rectangular(usage) && CleanedUsage(usage, parse).Ok?
    ensures var t := CleanedUsage(usage, parse).value;
      Rectangular(t) && t.columns == Without(usage.columns, {"2023"}) && YearCellsNumeric(t)
  {
    var cleaned := Clean(usage);
    var dropped := DropColumn(cleaned, "2023").value;
    assert CleanedUsage(usage, parse) == Coerce(dropped, YearColumns(dropped.columns), parse);
    DropThenCoerceIsNumeric(cleaned, "2023", parse);
  }

  /** The country codes come through the drop and the coercion untouched:
      row i's code is the code of the sentinel-cleaned usage row i. */
  lemma CleanedUsageKeepsCodes(usage: Table, parse: Parser)
    requires Rectangular(usage) && CleanedUsage(usage, parse).Ok? && "Country Code" in usage.columns
    ensures ColumnUnchanged(Clean(usage), CleanedUsage(usage, parse).value, "Country Code")
  {
    var cleaned := Clean(usage);
    var dropped := DropColumn(cleaned, "2023").value;
    assert CleanedUsage(usage, parse) == Coerce(dropped, YearColumns(dropped.columns), parse);
    DropThenCoerceKeepsColumn(cleaned, "2023", parse, "Country Code");
  }

  /** The shape of the prepared table: indexed by country code, its labels
      are the usage labels (without "2023" and the code) followed by the
      fourteen boundary labels other than the code, and every usage cell
      outside the two name columns is a number or missing. */
  ghost predicate PreparedLayout(m: Merged) {
    var w := |m.columns| - 14;
    WellFormed(m) && w >= 0 && m.indexName == "Country Code" && "2023" !in m.columns &&
    m.columns[w..] == RemoveAt(BoundaryColumns, 6) &&
    forall k, j :: 0 <= k < |m.rows| && 0 <= j < w && m.columns[j] != "Country Name" && m.columns[j] != "Country Code" ==>
      m.rows[k].cells[j].Num? || m.rows[k].cells[j].Absent?
  }

  /** Joining a numeric usage table without "2023" with a table carrying the
      boundary labels gives the prepared layout, the usage labels first in
      their own order. */
  lemma JoinedTable(numeric: Table, boundary: Table)
    requires Rectangular(numeric) && Rectangular(boundary) && boundary.columns == BoundaryColumns
    requires "2023" !in numeric.columns && YearCellsNumeric(numeric)
    requires LeftJoin(numeric, "Country Code", boundary, "ADM0_A3").Ok?
    ensures var m := LeftJoin(numeric, "Country Code", boundary, "ADM0_A3").value;
      PreparedLayout(m) && |m.columns| - 14 == |numeric.columns| - 1 &&
      m.columns[..|m.columns| - 14] == RemoveAt(numeric.columns, IndexOf(numeric.columns, "Country Code").value)
  {
    var m := LeftJoin(numeric, "Country Code", boundary, "ADM0_A3").value;
    var li := IndexOf(numeric.columns, "Country Code").value;
    CodeColumnPosition();
    var leftRest := RemoveAt(numeric.columns, li);
    assert m.columns == leftRest + RemoveAt(BoundaryColumns, 6);
    var w := |leftRest|;
    assert m.columns[..w] == leftRest && m.columns[w..] == RemoveAt(BoundaryColumns, 6);
    assert "2023" !in m.columns by {
      RemoveAtKeepsOthers(numeric.columns, li);
      assert "2023" !in leftRest;
      LabelsBesideCode();
      assert "2023" !in RemoveAt(BoundaryColumns, 6);
    }
    forall k, j | 0 <= k < |m.rows| && 0 <= j < w && m.columns[j] != "Country Name" && m.columns[j] != "Country Code"
      ensures m.rows[k].cells[j].Num? || m.rows[k].cells[j].Absent?
    {
      JoinedYearCell(numeric, boundary, k, j);
    }
  }

  /** One usage cell of a joined row is the cell of its usage row under the
      same label, so a year cell stays a number or missing. */
  lemma JoinedYearCell(numeric: Table, boundary: Table, k: nat, j: nat)
    requires Rectangular(numeric) && Rectangular(boundary) && YearCellsNumeric(numeric)
    requires LeftJoin(numeric, "Country Code", boundary, "ADM0_A3").Ok?
    requires var m := LeftJoin(numeric, "Country Code", boundary, "ADM0_A3").value;
      k < |m.rows| && j < |numeric.columns| - 1 && m.columns[j] != "Country Name" && m.columns[j] != "Country Code"
    ensures var m := LeftJoin(numeric, "Country Code", boundary, "ADM0_A3").value;
      m.rows[k].cells[j].Num? || m.rows[k].cells[j].Absent?
  {
    var m := LeftJoin(numeric, "Country Code", boundary, "ADM0_A3").value;
    var li := IndexOf(numeric.columns, "Country Code").value;
    var w := |numeric.columns| - 1;
    var i := JoinedRowSource(numeric, boundary, k);
    var src := if j < li then j else j + 1;
    var cells := m.rows[k].cells;
    assert cells[..w][j] == cells[j];
    assert RemoveAt(numeric.rows[i], li)[j] == numeric.rows[i][src];
    assert m.columns[j] == RemoveAt(numeric.columns, li)[j];
    assert numeric.columns[src] == m.columns[j];
  }

  /** The usage row a joined row comes from. */
  lemma JoinedRowSource(numeric: Table, boundary: Table, k: nat) returns (i: nat)
    requires Rectangular(numeric) && Rectangular(boundary)
    requires LeftJoin(numeric, "Country Code", boundary, "ADM0_A3").Ok?
    requires k < |LeftJoin(numeric, "Country Code", boundary, "ADM0_A3").value.rows|
    ensures i < |numeric.rows|
    ensures LeftJoin(numeric, "Country Code", boundary, "ADM0_A3").value.rows[k].cells[..|numeric.columns| - 1] ==
      RemoveAt(numeric.rows[i], IndexOf(numeric.columns, "Country Code").value)
  {
    LeftJoinProvenance(numeric, "Country Code", boundary, "ADM0_A3", k);
    var li := IndexOf(numeric.columns, "Country Code").value;
    var o := LeftJoin(numeric, "Country Code", boundary, "ADM0_A3").value.rows[k];
    i :| 0 <= i < |numeric.rows| && o.key == numeric.rows[i][li] && o.cells[..|numeric.columns| - 1] == RemoveAt(numeric.rows[i], li);
  }

  /** The prepared table has the layout PreparedLayout describes. */
  lemma PreparedTable(usage: Table, world: Table, parse: Parser)
    requires Rectangular(usage) && Rectangular(world)
    requires Prepare(usage, world, parse).Ok?
    ensures PreparedLayout(Prepare(usage, world, parse).value)
  {
    var numeric := CleanedUsage(usage, parse).value;
    var boundary := ReconciledBoundary(world).value;
    assert Prepare(usage, world, parse) == LeftJoin(numeric, "Country Code", boundary, "ADM0_A3");
    CleanedUsageIsNumeric(usage, parse);
    JoinedTable(numeric, boundary);
  }

  /** Row i of `m` stands for usage row i: it is indexed by that row's
      country code, cleaned, starts with the other fields of row i of the
      cleaned usage table `numeric`, and ends with the boundary fields of the
      boundary row with that code, or with missing boundary fields (geometry
      included) if there is none. */
  ghost predicate RowsFollowUsage(usage: Table, numeric: Table, m: Merged, boundary: Table) {
    Rectangular(usage) && "Country Code" in usage.columns &&
    Rectangular(numeric) && "Country Code" in numeric.columns && |numeric.rows| == |usage.rows| &&
    Rectangular(boundary) && |boundary.columns| == 15 &&
    WellFormed(m) && |m.columns| == |numeric.columns| - 1 + 14 && |m.rows| == |usage.rows| &&
    forall i :: 0 <= i < |usage.rows| ==>
      m.rows[i].key == CleanCell(usage.rows[i][IndexOf(usage.columns, "Country Code").value]) &&
      m.rows[i].cells[..|m.columns| - 14] == RemoveAt(numeric.rows[i], IndexOf(numeric.columns, "Country Code").value) &&
      m.rows[i].cells[|m.columns| - 14..] == Partner(boundary.rows, 6, 15, m.rows[i].key)
  }

  /** Joining a table whose key column is that of `keyed`, row by row,
      with a fifteen-column table keyed by its seventh column whose keys are
      unique: row i of the result is indexed by row i's key in `keyed` and
      starts with row i's other fields in `numeric` and ends with its partner's
      fourteen other fields. */
  lemma JoinFollowsKeys(keyed: Table, numeric: Table, key: string, boundary: Table, boundaryKey: string)
    requires ColumnUnchanged(keyed, numeric, key)
    requires Rectangular(boundary) && |boundary.columns| == 15 && IndexOf(boundary.columns, boundaryKey) == Some(6)
    requires UniqueKeys(boundary.rows, 6)
    requires LeftJoin(numeric, key, boundary, boundaryKey).Ok?
    ensures var m := LeftJoin(numeric, key, boundary, boundaryKey).value;
      var c := IndexOf(keyed.columns, key).value;
      var li := IndexOf(numeric.columns, key).value;
      WellFormed(m) && |m.columns| == |numeric.columns| - 1 + 14 && |m.rows| == |keyed.rows| &&
      forall i :: 0 <= i < |keyed.rows| ==>
        m.rows[i].key == keyed.rows[i][c] &&
        m.rows[i].cells[..|m.columns| - 14] == RemoveAt(numeric.rows[i], li) &&
        m.rows[i].cells[|m.columns| - 14..] == Partner(boundary.rows, 6, 15, m.rows[i].key)
  {
    LeftJoinOneToOne(numeric, key, boundary, boundaryKey);
    var m := LeftJoin(numeric, key, boundary, boundaryKey).value;
    var li := IndexOf(numeric.columns, key).value;
    var w := |numeric.columns| - 1;
    assert |m.columns| - 14 == w;
    forall i | 0 <= i < |keyed.rows|
      ensures m.rows[i].cells[..w] == RemoveAt(numeric.rows[i], li)
      ensures m.rows[i].cells[w..] == Partner(boundary.rows, 6, 15, m.rows[i].key)
    {
      var row := numeric.rows[i];
      assert m.rows[i].cells == RemoveAt(row, li) + Partner(boundary.rows, 6, 15, row[li]);
    }
  }

  /** The join of the cleaned usage table with a boundary table whose codes
      are unique follows the usage table row by row. */
  lemma JoinedRowsFollowUsage(usage: Table, parse: Parser, boundary: Table)
    requires Rectangular(usage) && CleanedUsage(usage, parse).Ok?
    requires Rectangular(boundary) && boundary.columns == BoundaryColumns && UniqueKeys(boundary.rows, 6)
    requires LeftJoin(CleanedUsage(usage, parse).value, "Country Code", boundary, "ADM0_A3").Ok?
    ensures RowsFollowUsage(usage, CleanedUsage(usage, parse).value, LeftJoin(CleanedUsage(usage, parse).value, "Country Code", boundary, "ADM0_A3").value, boundary)
  {
    var numeric := CleanedUsage(usage, parse).value;
    CleanedUsageIsNumeric(usage, parse);
    assert "Country Code" in usage.columns;
    CleanedUsageKeepsCodes(usage, parse);
    CleanedJoinFollowsUsage(usage, numeric, boundary);
  }

  /** The same for any table whose code column is the cleaned usage codes. */
  lemma CleanedJoinFollowsUsage(usage: Table, numeric: Table, boundary: Table)
    requires Rectangular(usage) && ColumnUnchanged(Clean(usage), numeric, "Country Code")
    requires Rectangular(boundary) && boundary.columns == BoundaryColumns && UniqueKeys(boundary.rows, 6)
    requires LeftJoin(numeric, "Country Code", boundary, "ADM0_A3").Ok?
    ensures RowsFollowUsage(usage, numeric, LeftJoin(numeric, "Country Code", boundary, "ADM0_A3").value, boundary)
  {
    var cleaned := Clean(usage);
    CodeColumnPosition();
    JoinFollowsKeys(cleaned, numeric, "Country Code", boundary, "ADM0_A3");
    var c := IndexOf(usage.columns, "Country Code").value;
    assert forall i :: 0 <= i < |usage.rows| ==> cleaned.rows[i][c] == CleanCell(usage.rows[i][c]);
  }

  /** When the reconciled boundary codes are unique, the prepared table has
      exactly one row per usage row, in usage-table order, as RowsFollowUsage
      states. */
  lemma PreparedOneRowPerUsageRow(usage: Table, world: Table, parse: Parser)
    requires Rectangular(usage) && Rectangular(world)
    requires Prepare(usage, world, parse).Ok?
    requires ReconciledBoundary(world).Ok? && UniqueKeys(ReconciledBoundary(world).value.rows, 6)
    ensures RowsFollowUsage(usage, CleanedUsage(usage, parse).value, Prepare(usage, world, parse).value, ReconciledBoundary(world).value)
  {
    JoinedRowsFollowUsage(usage, parse, ReconciledBoundary(world).value);
  }

}
