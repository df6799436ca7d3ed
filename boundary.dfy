/** The boundary table before the merge (app/data_loader.py:29-46): the
    projection onto fifteen columns, and the two fixed correction tables that
    rewrite country codes by name and continents by code. */
module Boundary {
  import opened Tables

  // ---------------------------------------------------------------------
  // Projection, data_loader.py:29-33
  // ---------------------------------------------------------------------

  /** The columns kept from the boundary file, in this order. */
  const BoundaryColumns: seq<string> := [
    "SOVEREIGNT", "ADMIN", "NAME", "CONTINENT", "SU_A3", "ISO_A3",
    "ADM0_A3", "POP_EST", "POP_RANK", "POP_YEAR", "GDP_MD", "GDP_YEAR",
    "geometry", "ECONOMY", "INCOME_GRP"
  ]

  /** The country code is the seventh boundary column, and it is not repeated. */
  lemma CodeColumnPosition()
    ensures IndexOf(BoundaryColumns, "ADM0_A3") == Some(6)
    ensures forall k :: 0 <= k < |BoundaryColumns| && k != 6 ==> BoundaryColumns[k] != "ADM0_A3"
  {
    FirstOccurrence(BoundaryColumns, "ADM0_A3", 6);
  }

  /** The fourteen boundary labels a joined row carries after the code;
      none of them is a usage label such as a year or the country names. */
  lemma LabelsBesideCode()
    ensures RemoveAt(BoundaryColumns, 6) == [
      "SOVEREIGNT", "ADMIN", "NAME", "CONTINENT", "SU_A3", "ISO_A3",
      "POP_EST", "POP_RANK", "POP_YEAR", "GDP_MD", "GDP_YEAR",
      "geometry", "ECONOMY", "INCOME_GRP"]
    ensures "2023" !in RemoveAt(BoundaryColumns, 6)
  {
  }

  /** The position of each of `names` in `columns`, or KeyError for the first
      name that is not a column. */
  function Positions(columns: seq<string>, names: seq<string>): (r: Result<seq<nat>>)
    ensures r.Ok? <==> forall n :: n in names ==> n in columns
    ensures r.Err? ==> r.error.KeyError? && r.error.key in names && r.error.key !in columns
    ensures r.Ok? ==> |r.value| == |names|
    ensures r.Ok? ==> forall k :: 0 <= k < |names| ==> r.value[k] < |columns| && r.value[k] == IndexOf(columns, names[k]).value
    decreases |names|
  {
    if |names| == 0 then Ok([])
    else
      var init := names[..|names| - 1];
      var last := names[|names| - 1];
      assert names == init + [last];
      var found :- Positions(columns, init);
      match IndexOf(columns, last)
      case None => Err(KeyError(last))
      case Some(p) => Ok(found + [p])
  }

  /** world[names]: a new table with exactly the listed columns, in the listed
      order, each holding the cells of the first column of that label; a
      listed label that is missing raises KeyError. */
  function Select(t: Table, names: seq<string>): (r: Result<Table>)
    requires Rectangular(t)
    ensures r.Ok? <==> forall n :: n in names ==> n in t.columns
    ensures r.Err? ==> r.error.KeyError? && r.error.key in names && r.error.key !in t.columns
    ensures r.Ok? ==> r.value.columns == names && Rectangular(r.value) && |r.value.rows| == |t.rows|
    ensures r.Ok? ==> forall i, k :: 0 <= i < |t.rows| && 0 <= k < |names| ==>
      r.value.rows[i][k] == t.rows[i][IndexOf(t.columns, names[k]).value]
  {
    var idx :- Positions(t.columns, names);
    var rows := seq(|t.rows|, i requires 0 <= i < |t.rows| => Pick(t.rows[i], idx));
    assert forall i :: 0 <= i < |rows| ==> |rows[i]| == |names|;
    Ok(Table(names, rows))
  }

  // ---------------------------------------------------------------------
  // Key reconciliation, data_loader.py:36-46
  // ---------------------------------------------------------------------

  /** A correction table: (key, new value) pairs in dictionary order. */
  type Corrections = seq<(string, string)>

  /** Administrative name -> corrected three-letter code. */
  const CodeCorrections: Corrections := [
    ("France", "FRA"), ("Norway", "NOR"), ("Kosovo", "XKX"), ("Palestine", "PSE"),
    ("South Sudan", "SSD"), ("Jersey", "CHI")
  ]

  /** Code -> continent, for island nations the boundary file leaves unclassified. */
  const ContinentCorrections: Corrections := [
    ("MDV", "Asia"), ("MUS", "Africa"), ("SYC", "Africa")
  ]

  /** world.loc[world[key column] == key, target column] = value: rows whose
      key cell is the text `key` get the text `value` in the target column;
      every other row, and every other column, is untouched. */
  function SetWhere(t: Table, keyCol: nat, key: string, targetCol: nat, value: string): (r: Table)
    requires Rectangular(t) && keyCol < |t.columns| && targetCol < |t.columns|
    ensures r.columns == t.columns && |r.rows| == |t.rows| && Rectangular(r)
    ensures forall i :: 0 <= i < |t.rows| ==>
      r.rows[i] == if t.rows[i][keyCol] == Text(key) then t.rows[i][targetCol := Text(value)] else t.rows[i]
  {
    Table(t.columns, seq(|t.rows|, i requires 0 <= i < |t.rows| =>
      if t.rows[i][keyCol] == Text(key) then t.rows[i][targetCol := Text(value)] else t.rows[i]))
  }

  /** The `for key, value in fixes.items()` loop: one SetWhere per entry, in order. */
  function ApplyCorrections(t: Table, keyCol: nat, targetCol: nat, fixes: Corrections): (r: Table)
    requires Rectangular(t) && keyCol < |t.columns| && targetCol < |t.columns|
    ensures r.columns == t.columns && |r.rows| == |t.rows| && Rectangular(r)
    decreases |fixes|
  {
    if |fixes| == 0 then t
    else
      var last := fixes[|fixes| - 1];
      SetWhere(ApplyCorrections(t, keyCol, targetCol, fixes[..|fixes| - 1]), keyCol, last.0, targetCol, last.1)
  }

  /** The value the correction table assigns to a key cell: that of the last
      entry whose key is the cell's text (dictionary keys are unique, so for
      the fixed tables it is the only one). */
  function Lookup(fixes: Corrections, key: Cell): (r: Option<string>)
    ensures r.None? <==> forall k :: 0 <= k < |fixes| ==> key != Text(fixes[k].0)
    decreases |fixes|
  {
    if |fixes| == 0 then None
    else if key == Text(fixes[|fixes| - 1].0) then Some(fixes[|fixes| - 1].1)
    else Lookup(fixes[..|fixes| - 1], key)
  }

  /** Dictionary keys are unique: then the lookup of an entry's key is that entry's value. */
  predicate DistinctEntries(fixes: Corrections) {
    forall k, l :: 0 <= k < l < |fixes| ==> fixes[k].0 != fixes[l].0
  }

  lemma {:induction false} LookupEntry(fixes: Corrections, k: nat)
    requires DistinctEntries(fixes) && k < |fixes|
    ensures Lookup(fixes, Text(fixes[k].0)) == Some(fixes[k].1)
    decreases |fixes|
  {
    if k < |fixes| - 1 {
      var prefix := fixes[..|fixes| - 1];
      assert Text(fixes[k].0) != Text(fixes[|fixes| - 1].0);
      LookupEntry(prefix, k);
    }
  }

  /** A row after the corrections: its target cell holds the looked-up value
      if its key has an entry, and nothing else differs. */
  function Corrected(row: seq<Cell>, keyCol: nat, targetCol: nat, fixes: Corrections): seq<Cell>
    requires keyCol < |row| && targetCol < |row|
  {
    match Lookup(fixes, row[keyCol])
    case None => row
    case Some(v) => row[targetCol := Text(v)]
  }

  /** When the key column is not the column being rewritten, applying the
      entries one after another leaves each row as the dictionary lookup of its
      key says: matching rows get the entry's value, all other rows and all
      other columns are unchanged, and a key found nowhere changes nothing. */
  lemma {:induction false} ApplyCorrectionsIsLookup(t: Table, keyCol: nat, targetCol: nat, fixes: Corrections, i: nat)
    requires Rectangular(t) && keyCol < |t.columns| && targetCol < |t.columns| && keyCol != targetCol
    requires i < |t.rows|
    ensures ApplyCorrections(t, keyCol, targetCol, fixes).rows[i] == Corrected(t.rows[i], keyCol, targetCol, fixes)
    decreases |fixes|
  {
    if |fixes| > 0 {
      var prefix := fixes[..|fixes| - 1];
      ApplyCorrectionsIsLookup(t, keyCol, targetCol, prefix, i);
      var row := t.rows[i];
      assert ApplyCorrections(t, keyCol, targetCol, prefix).rows[i][keyCol] == row[keyCol];
    }
  }

  /** The source's two loops in order: codes by administrative name first,
      then continents by the corrected code. */
  function ReconcileWith(t: Table, codeFixes: Corrections, continentFixes: Corrections): (r: Table)
    requires Rectangular(t) && "ADMIN" in t.columns && "ADM0_A3" in t.columns && "CONTINENT" in t.columns
    ensures r.columns == t.columns && |r.rows| == |t.rows| && Rectangular(r)
  {
    var admin := IndexOf(t.columns, "ADMIN").value;
    var code := IndexOf(t.columns, "ADM0_A3").value;
    var continent := IndexOf(t.columns, "CONTINENT").value;
    var coded := ApplyCorrections(t, admin, code, codeFixes);
    ApplyCorrections(coded, code, continent, continentFixes)
  }

  /** Reconciliation with the source's two fixed tables. */
  function Reconcile(t: Table): (r: Table)
    requires Rectangular(t) && "ADMIN" in t.columns && "ADM0_A3" in t.columns && "CONTINENT" in t.columns
    ensures r.columns == t.columns && |r.rows| == |t.rows| && Rectangular(r)
  {
    ReconcileWith(t, CodeCorrections, ContinentCorrections)
  }

  /** Every row after reconciliation: the code is the correction for its
      administrative name (or the raw code), the continent is the correction
      for that corrected code (or the raw continent), and every other cell is
      the raw one. */
  lemma ReconcileRow(t: Table, codeFixes: Corrections, continentFixes: Corrections, i: nat)
    requires Rectangular(t) && "ADMIN" in t.columns && "ADM0_A3" in t.columns && "CONTINENT" in t.columns
    requires i < |t.rows|
    ensures var admin := IndexOf(t.columns, "ADMIN").value;
      var code := IndexOf(t.columns, "ADM0_A3").value;
      var continent := IndexOf(t.columns, "CONTINENT").value;
      var row := t.rows[i];
      var code' := match Lookup(codeFixes, row[admin]) case None => row[code] case Some(c) => Text(c);
      var continent' := match Lookup(continentFixes, code') case None => row[continent] case Some(c) => Text(c);
      ReconcileWith(t, codeFixes, continentFixes).rows[i] == row[code := code'][continent := continent']
  {
    var admin := IndexOf(t.columns, "ADMIN").value;
    var code := IndexOf(t.columns, "ADM0_A3").value;
    var continent := IndexOf(t.columns, "CONTINENT").value;
    assert admin != code && code != continent by {
      assert t.columns[admin] == "ADMIN" && t.columns[code] == "ADM0_A3" && t.columns[continent] == "CONTINENT";
    }
    var coded := ApplyCorrections(t, admin, code, codeFixes);
    ApplyCorrectionsIsLookup(t, admin, code, codeFixes, i);
    ApplyCorrectionsIsLookup(coded, code, continent, continentFixes, i);
  }

  /** Python dictionaries have unique keys, and so do the two fixed tables. */
  lemma FixedTablesHaveDistinctEntries()
    ensures DistinctEntries(CodeCorrections) && DistinctEntries(ContinentCorrections)
  {
  }

  /** The six named territories end with the codes the usage table uses. */
  lemma ReconcileFixesCodes(t: Table, i: nat)
    requires Rectangular(t) && "ADMIN" in t.columns && "ADM0_A3" in t.columns && "CONTINENT" in t.columns
    requires i < |t.rows|
    ensures var admin := IndexOf(t.columns, "ADMIN").value;
      var code := IndexOf(t.columns, "ADM0_A3").value;
      var row, row' := t.rows[i], Reconcile(t).rows[i];
      (row[admin] == Text("France") ==> row'[code] == Text("FRA")) &&
      (row[admin] == Text("Norway") ==> row'[code] == Text("NOR")) &&
      (row[admin] == Text("Kosovo") ==> row'[code] == Text("XKX")) &&
      (row[admin] == Text("Palestine") ==> row'[code] == Text("PSE")) &&
      (row[admin] == Text("South Sudan") ==> row'[code] == Text("SSD")) &&
      (row[admin] == Text("Jersey") ==> row'[code] == Text("CHI"))
  {
    var admin := IndexOf(t.columns, "ADMIN").value;
    var code := IndexOf(t.columns, "ADM0_A3").value;
    var continent := IndexOf(t.columns, "CONTINENT").value;
    assert code != continent by {
      assert t.columns[code] == "ADM0_A3" && t.columns[continent] == "CONTINENT";
    }
    ReconcileRow(t, CodeCorrections, ContinentCorrections, i);
    var row := t.rows[i];
    var code' := match Lookup(CodeCorrections, row[admin]) case None => row[code] case Some(c) => Text(c);
    assert Reconcile(t).rows[i][code] == code';
    FixedTablesHaveDistinctEntries();
    LookupEntry(CodeCorrections, 0);
    LookupEntry(CodeCorrections, 1);
    LookupEntry(CodeCorrections, 2);
    LookupEntry(CodeCorrections, 3);
    LookupEntry(CodeCorrections, 4);
    LookupEntry(CodeCorrections, 5);
  }

  /** The three island nations end with their continents. The continent
      fixes see the corrected code, so a row is judged by its code after the
      first table: a "France" row whose raw code is "MDV" keeps its continent. */
  lemma ReconcileFixesContinents(t: Table, i: nat)
    requires Rectangular(t) && "ADMIN" in t.columns && "ADM0_A3" in t.columns && "CONTINENT" in t.columns
    requires i < |t.rows|
    ensures var admin := IndexOf(t.columns, "ADMIN").value;
      var code := IndexOf(t.columns, "ADM0_A3").value;
      var continent := IndexOf(t.columns, "CONTINENT").value;
      var row, row' := t.rows[i], Reconcile(t).rows[i];
      (row'[code] == Text("MDV") ==> row'[continent] == Text("Asia")) &&
      (row'[code] == Text("MUS") ==> row'[continent] == Text("Africa")) &&
      (row'[code] == Text("SYC") ==> row'[continent] == Text("Africa")) &&
      (row[admin] == Text("France") ==> row'[continent] == row[continent])
  {
    ReconcileRow(t, CodeCorrections, ContinentCorrections, i);
    ReconcileFixesCodes(t, i);
    FixedTablesHaveDistinctEntries();
    forall k | 0 <= k < |ContinentCorrections|
      ensures Lookup(ContinentCorrections, Text(ContinentCorrections[k].0)) == Some(ContinentCorrections[k].1)
    {
      LookupEntry(ContinentCorrections, k);
    }
  }

  /** A row whose name and code are in neither table comes out unchanged. */
  lemma ReconcileLeavesOthers(t: Table, i: nat)
    requires Rectangular(t) && "ADMIN" in t.columns && "ADM0_A3" in t.columns && "CONTINENT" in t.columns
    requires i < |t.rows|
    requires forall k :: 0 <= k < |CodeCorrections| ==> t.rows[i][IndexOf(t.columns, "ADMIN").value] != Text(CodeCorrections[k].0)
    requires forall k :: 0 <= k < |ContinentCorrections| ==> t.rows[i][IndexOf(t.columns, "ADM0_A3").value] != Text(ContinentCorrections[k].0)
    ensures Reconcile(t).rows[i] == t.rows[i]
  {
    ReconcileRow(t, CodeCorrections, ContinentCorrections, i);
  }
}
