/** Cleaning the usage table (app/data_loader.py:17-23): missing-value
    sentinels become absent, the "2023" column is dropped, and the year
    columns are coerced to numbers. Each step is specified here as a function
    on a `Table`; the in-place methods that perform them are in DataLoader. */
module Cleaning {
  import opened Tables

  // ---------------------------------------------------------------------
  // The "missing" sentinel, data_loader.py:17
  // ---------------------------------------------------------------------

  /** Number of '.' characters at the front of `s`. */
  function LeadingDots(s: string): (k: nat)
    ensures k <= |s|
    ensures forall i :: 0 <= i < k ==> s[i] == '.'
    ensures k < |s| ==> s[k] != '.'
  {
    if |s| > 0 && s[0] == '.' then 1 + LeadingDots(s[1..]) else 0
  }

  /** Whether the pattern ^\.+$ is found in `s`, as Python's regular
      expressions search it: one or more dots from the start, then the end of
      the text, where `$` also accepts a single final line feed. */
  predicate IsSentinel(s: string) {
    var k := LeadingDots(s);
    k >= 1 && (k == |s| || (k == |s| - 1 && s[k] == '\n'))
  }

  /** A text is a sentinel exactly when it is one or more dots, optionally
      followed by one final line feed. */
  lemma SentinelIsRunOfDots(s: string)
    ensures IsSentinel(s) <==>
      (|s| >= 1 && forall i :: 0 <= i < |s| ==> s[i] == '.') ||
      (|s| >= 2 && s[|s| - 1] == '\n' && forall i :: 0 <= i < |s| - 1 ==> s[i] == '.')
  {
  }

  /** The empty text and texts that merely contain dots are not sentinels. */
  lemma SentinelExamples()
    ensures IsSentinel(".") && IsSentinel("..") && IsSentinel("...")
    ensures !IsSentinel("") && !IsSentinel("5.0") && !IsSentinel(".5") && !IsSentinel("5.")
    ensures !IsSentinel(". .") && !IsSentinel("..x")
    ensures IsSentinel("..\n") && !IsSentinel("..\n\n") && !IsSentinel("\n")
  {
    assert LeadingDots("5.0") == 0;
    assert LeadingDots("5.") == 0;
    assert LeadingDots("\n") == 0;
    assert LeadingDots(".5") == 1 by { assert ".5"[1..] == "5"; }
    assert LeadingDots(". .") == 1 by { assert ". ."[1..] == " ."; }
    assert LeadingDots("..x") == 2 by { assert "..x"[1..] == ".x"; assert ".x"[1..] == "x"; }
    assert LeadingDots("..\n\n") == 2 by { assert "..\n\n"[1..] == ".\n\n"; assert ".\n\n"[1..] == "\n\n"; }
    assert LeadingDots("..\n") == 2 by { assert "..\n"[1..] == ".\n"; assert ".\n"[1..] == "\n"; }
    assert LeadingDots("..") == 2 by { assert ".."[1..] == "."; assert "."[1..] == ""; }
    assert LeadingDots("...") == 3 by { assert "..."[1..] == ".."; }
  }

  /** data.replace(r"^\.+$", nan, regex=True) on one cell: only text cells
      are matched; numbers, absent cells and shapes pass through. */
  function CleanCell(c: Cell): (r: Cell)
    ensures r == Absent <==> c == Absent || (c.Text? && IsSentinel(c.text))
    ensures r != Absent ==> r == c
  {
    if c.Text? && IsSentinel(c.text) then Absent else c
  }

  /** The replacement applied to every cell of the table, name columns included. */
  function Clean(t: Table): (r: Table)
    ensures r.columns == t.columns && |r.rows| == |t.rows|
    ensures forall i :: 0 <= i < |t.rows| ==> |r.rows[i]| == |t.rows[i]|
    ensures forall i, j :: 0 <= i < |t.rows| && 0 <= j < |t.rows[i]| ==>
      r.rows[i][j] == CleanCell(t.rows[i][j])
  {
    Table(t.columns, seq(|t.rows|, i requires 0 <= i < |t.rows| =>
      seq(|t.rows[i]|, j requires 0 <= j < |t.rows[i]| => CleanCell(t.rows[i][j]))))
  }

  /** After cleaning, no text cell is a sentinel; every other cell is kept. */
  lemma CleanRemovesSentinels(t: Table, i: nat, j: nat)
    requires i < |t.rows| && j < |t.rows[i]|
    ensures var c := Clean(t).rows[i][j];
      (c.Text? ==> !IsSentinel(c.text)) &&
      (t.rows[i][j].Text? && IsSentinel(t.rows[i][j].text) <==> c == Absent && t.rows[i][j] != Absent)
  {
  }

  /** Replacing the sentinels a second time changes nothing. */
  lemma CleanIdempotent(t: Table)
    ensures Clean(Clean(t)) == Clean(t)
  {
    var once := Clean(t);
    var twice := Clean(once);
    assert |twice.rows| == |once.rows|;
    forall i | 0 <= i < |once.rows|
      ensures twice.rows[i] == once.rows[i]
    {
      assert |twice.rows[i]| == |once.rows[i]|;
    }
  }

  // ---------------------------------------------------------------------
  // Dropping the "2023" column, data_loader.py:18
  // ---------------------------------------------------------------------

  /** data.drop(name, axis=1): every column labelled `name` goes, the others
      keep their order and their cells; a label that is not there raises
      KeyError. */
  function DropColumn(t: Table, name: string): (r: Result<Table>)
    requires Rectangular(t)
    ensures r.Ok? <==> name in t.columns
    ensures r.Err? ==> r.error == KeyError(name)
    ensures r.Ok? ==> Rectangular(r.value) && |r.value.rows| == |t.rows|
    ensures r.Ok? ==> r.value.columns == Without(t.columns, {name}) && name !in r.value.columns
    ensures r.Ok? ==> |r.value.columns| == |KeptIndices(t.columns, {name})|
    ensures r.Ok? ==> var kept := KeptIndices(t.columns, {name});
      forall i, k :: 0 <= i < |t.rows| && 0 <= k < |kept| ==> r.value.rows[i][k] == t.rows[i][kept[k]]
  {
    if name !in t.columns then Err(KeyError(name))
    else
      var kept := KeptIndices(t.columns, {name});
      var columns := Pick(t.columns, kept);
      var rows := PickColumns(t.rows, |t.columns|, kept);
      PickKeptIsWithout(t.columns, {name});
      assert columns == Without(t.columns, {name});
      assert |columns| == |kept|;
      assert forall i :: 0 <= i < |rows| ==> |rows[i]| == |kept|;
      assert forall i, k :: 0 <= i < |t.rows| && 0 <= k < |kept| ==> rows[i][k] == t.rows[i][kept[k]];
      Ok(Table(columns, rows))
  }

  /** Every row cut down to the cells at positions `kept`. */
  function PickColumns(rows: seq<seq<Cell>>, width: nat, kept: seq<nat>): (r: seq<seq<Cell>>)
    requires forall i :: 0 <= i < |rows| ==> |rows[i]| == width
    requires forall k :: 0 <= k < |kept| ==> kept[k] < width
    ensures |r| == |rows|
    ensures forall i :: 0 <= i < |rows| ==> r[i] == Pick(rows[i], kept)
  {
    seq(|rows|, i requires 0 <= i < |rows| => Pick(rows[i], kept))
  }

  /** Every cell outside the dropped column survives the drop, under its own
      label, at the returned position. */
  lemma DropKeepsCell(t: Table, name: string, i: nat, j: nat) returns (k: nat)
    requires Rectangular(t) && name in t.columns
    requires i < |t.rows| && j < |t.columns| && t.columns[j] != name
    ensures var r := DropColumn(t, name).value;
      k < |r.columns| && r.columns[k] == t.columns[j] && r.rows[i][k] == t.rows[i][j]
  {
    var r := DropColumn(t, name).value;
    var kept := KeptIndices(t.columns, {name});
    assert j in kept;
    k :| 0 <= k < |kept| && kept[k] == j;
    PickKeptIsWithout(t.columns, {name});
    assert r.columns[k] == t.columns[j];
  }

  /** A label other than the dropped one keeps its first occurrence: the
      first position of `c` after the drop is the kept position that was its
      first position before. */
  lemma DropKeepsFirstPosition(s: seq<string>, name: string, c: string)
    requires c in s && c != name
    ensures c in Without(s, {name})
    ensures var kept := KeptIndices(s, {name});
      var p := IndexOf(Without(s, {name}), c).value;
      p < |kept| && kept[p] == IndexOf(s, c).value
  {
    var kept := KeptIndices(s, {name});
    var w := Without(s, {name});
    PickKeptIsWithout(s, {name});
    KeptIndicesIncrease(s, {name});
    var first := IndexOf(s, c).value;
    assert first in kept;
    var k :| 0 <= k < |kept| && kept[k] == first;
    assert w[k] == c;
    forall k' | 0 <= k' < k ensures w[k'] != c {
      assert kept[k'] < first;
      assert s[kept[k']] in s[..first];
    }
    FirstOccurrence(w, c, k);
  }

  /** Both tables have a column labelled `c` and the same number of rows,
      and row by row the cell under the first `c` is the same. */
  predicate ColumnUnchanged(before: Table, after: Table, c: string) {
    Rectangular(before) && Rectangular(after) && |after.rows| == |before.rows| &&
    c in before.columns && c in after.columns &&
    forall i :: 0 <= i < |after.rows| ==>
      after.rows[i][IndexOf(after.columns, c).value] == before.rows[i][IndexOf(before.columns, c).value]
  }

  /** A column other than the dropped one survives the drop whole: row by
      row, the cell under its first occurrence is the cell that was there
      before. */
  lemma DropKeepsColumn(t: Table, name: string, c: string)
    requires Rectangular(t) && name in t.columns && c in t.columns && c != name
    ensures ColumnUnchanged(t, DropColumn(t, name).value, c)
  {
    var r := DropColumn(t, name).value;
    DropKeepsFirstPosition(t.columns, name, c);
    var kept := KeptIndices(t.columns, {name});
    var p := IndexOf(r.columns, c).value;
    assert p < |kept| && kept[p] == IndexOf(t.columns, c).value;
  }

  // ---------------------------------------------------------------------
  // Year columns and numeric coercion, data_loader.py:21-23
  // ---------------------------------------------------------------------

  const NonNumericColumns: set<string> := {"Country Name", "Country Code"}

  /** The list comprehension of line 22: every label except the two name
      columns, in table order. */
  function YearColumns(columns: seq<string>): (years: seq<string>)
    ensures forall c :: c in years <==> c in columns && c != "Country Name" && c != "Country Code"
    ensures |years| <= |columns|
  {
    Without(columns, NonNumericColumns)
  }

  /** The year columns of a split table are those of each part, one after the
      other: the comprehension keeps table order. */
  lemma YearColumnsKeepOrder(a: seq<string>, b: seq<string>)
    ensures YearColumns(a + b) == YearColumns(a) + YearColumns(b)
  {
    WithoutAppend(a, b, NonNumericColumns);
  }

  /** Python's float() on a text, given as a parameter: `None` when it
      raises, `Some(None)` when it reads NaN (spellings such as "nan", "NAN"
      or " nan"), `Some(Some(x))` when it reads the number x. */
  type Parser = string -> Option<Option<real>>

  /** Whether astype(float) accepts a cell: absent cells and numbers stay as
      they are, and a text converts when `parse` reads a number or NaN from it. */
  predicate Convertible(c: Cell, parse: Parser) {
    c.Absent? || c.Num? || (c.Text? && parse(c.text).Some?)
  }

  /** One cell through astype(float): a text read as NaN becomes missing,
      since pandas treats NaN as missing; a text read as a number becomes that
      number. */
  function ToFloat(c: Cell, parse: Parser): (r: Cell)
    requires Convertible(c, parse)
    ensures r.Absent? <==> c.Absent? || (c.Text? && parse(c.text) == Some(None))
    ensures r.Num? <==> !r.Absent?
    ensures c.Num? ==> r == c
    ensures c.Text? && parse(c.text).value.Some? ==> r == Num(parse(c.text).value.value)
  {
    if c.Text? then
      match parse(c.text).value
      case None => Absent
      case Some(x) => Num(x)
    else c
  }

  /** Whether every cell of the named columns is convertible. */
  predicate AllConvertible(t: Table, years: seq<string>, parse: Parser)
    requires Rectangular(t)
  {
    forall i, j :: 0 <= i < |t.rows| && 0 <= j < |t.columns| && t.columns[j] in years ==>
      Convertible(t.rows[i][j], parse)
  }

  /** The first cell of `row`, from position `j` on, that lies in one of the
      named columns and does not convert. */
  function FirstBadInRow(row: seq<Cell>, columns: seq<string>, years: seq<string>,
                         parse: Parser, j: nat): (r: Option<Cell>)
    requires |row| == |columns| && j <= |row|
    ensures r.None? <==> forall k :: j <= k < |row| && columns[k] in years ==> Convertible(row[k], parse)
    ensures r.Some? ==> exists k :: j <= k < |row| && columns[k] in years && row[k] == r.value && !Convertible(r.value, parse)
    decreases |row| - j
  {
    if j == |row| then None
    else if columns[j] in years && !Convertible(row[j], parse) then Some(row[j])
    else FirstBadInRow(row, columns, years, parse, j + 1)
  }

  /** The first non-convertible cell of the named columns, row by row from row `i` on. */
  function FirstBad(t: Table, years: seq<string>, parse: Parser, i: nat): (r: Option<Cell>)
    requires Rectangular(t) && i <= |t.rows|
    ensures r.None? <==> forall i', j :: i <= i' < |t.rows| && 0 <= j < |t.columns| && t.columns[j] in years ==>
      Convertible(t.rows[i'][j], parse)
    ensures r.Some? ==> !Convertible(r.value, parse)
    ensures r.Some? ==> exists i', j :: i <= i' < |t.rows| && 0 <= j < |t.columns| && t.columns[j] in years && t.rows[i'][j] == r.value
    decreases |t.rows| - i
  {
    if i == |t.rows| then None
    else match FirstBadInRow(t.rows[i], t.columns, years, parse, 0)
      case Some(c) => Some(c)
      case None => FirstBad(t, years, parse, i + 1)
  }

  /** data[years] = data[years].astype(float): all or nothing. When every cell
      of those columns converts, they become numbers or absent and every other
      cell is untouched; otherwise the conversion raises and names a cell that
      did not convert. A non-sentinel token that is not a number is never
      turned into absent or zero. */
  function Coerce(t: Table, years: seq<string>, parse: Parser): (r: Result<Table>)
    requires Rectangular(t)
    ensures r.Ok? <==> AllConvertible(t, years, parse)
    ensures r.Err? ==> r.error.NotNumeric? && !Convertible(r.error.cell, parse)
    ensures r.Err? ==> exists i, j :: 0 <= i < |t.rows| && 0 <= j < |t.columns| && t.columns[j] in years && t.rows[i][j] == r.error.cell
    ensures r.Ok? ==> r.value.columns == t.columns && |r.value.rows| == |t.rows| && Rectangular(r.value)
    ensures r.Ok? ==> forall i, j :: 0 <= i < |t.rows| && 0 <= j < |t.columns| ==>
      if t.columns[j] in years then
        (r.value.rows[i][j].Num? || r.value.rows[i][j].Absent?) &&
        Convertible(t.rows[i][j], parse) && r.value.rows[i][j] == ToFloat(t.rows[i][j], parse)
      else r.value.rows[i][j] == t.rows[i][j]
  {
    match FirstBad(t, years, parse, 0)
    case Some(c) => Err(NotNumeric(c))
    case None =>
      Ok(Table(t.columns, seq(|t.rows|, i requires 0 <= i < |t.rows| =>
        seq(|t.columns|, j requires 0 <= j < |t.columns| =>
          if t.columns[j] in years then ToFloat(t.rows[i][j], parse) else t.rows[i][j]))))
  }

  /** The conversion leaves a column outside `years` as it was, row by row. */
  lemma CoerceKeepsColumn(t: Table, years: seq<string>, parse: Parser, c: string)
    requires Rectangular(t) && Coerce(t, years, parse).Ok? && c in t.columns && c !in years
    ensures ColumnUnchanged(t, Coerce(t, years, parse).value, c)
  {
  }

  /** Every cell under a year label is a number or missing. */
  predicate YearCellsNumeric(t: Table)
    requires Rectangular(t)
  {
    forall i, j :: 0 <= i < |t.rows| && 0 <= j < |t.columns| && t.columns[j] in YearColumns(t.columns) ==>
      t.rows[i][j].Num? || t.rows[i][j].Absent?
  }

  /** Coercing every year column keeps the labels and leaves only numbers
      and missing cells under the year labels. */
  lemma CoercedYearsAreNumeric(t: Table, parse: Parser)
    requires Rectangular(t) && Coerce(t, YearColumns(t.columns), parse).Ok?
    ensures var r := Coerce(t, YearColumns(t.columns), parse).value;
      Rectangular(r) && r.columns == t.columns && YearCellsNumeric(r)
  {
  }

  /** One cell of a named column that does not convert makes the whole
      conversion fail. */
  lemma CoerceRejects(t: Table, years: seq<string>, parse: Parser, i: nat, j: nat)
    requires Rectangular(t) && i < |t.rows| && j < |t.columns| && t.columns[j] in years
    requires !Convertible(t.rows[i][j], parse)
    ensures Coerce(t, years, parse).Err? && Coerce(t, years, parse).error.NotNumeric?
  {
  }

  // ---------------------------------------------------------------------
  // Dropping a column and then coercing the year columns, data_loader.py:18-23
  // ---------------------------------------------------------------------

  /** A cell that does not convert, under a year label other than the dropped
      one, makes the coercion after the drop fail. */
  lemma DropThenCoerceRejects(t: Table, name: string, parse: Parser, i: nat, j: nat)
    requires Rectangular(t) && name in t.columns && i < |t.rows| && j < |t.columns|
    requires t.columns[j] != name && t.columns[j] != "Country Name" && t.columns[j] != "Country Code"
    requires !Convertible(t.rows[i][j], parse)
    ensures var d := DropColumn(t, name).value;
      Coerce(d, YearColumns(d.columns), parse).Err? && Coerce(d, YearColumns(d.columns), parse).error.NotNumeric?
  {
    var k := DropKeepsCell(t, name, i, j);
    var d := DropColumn(t, name).value;
    CoerceRejects(d, YearColumns(d.columns), parse, i, k);
  }

  /** After the drop and the coercion, the labels are those of `t` without
      `name`, and every year cell is a number or missing. */
  lemma DropThenCoerceIsNumeric(t: Table, name: string, parse: Parser)
    requires Rectangular(t) && name in t.columns
    requires var d := DropColumn(t, name).value; Coerce(d, YearColumns(d.columns), parse).Ok?
    ensures var d := DropColumn(t, name).value;
      var r := Coerce(d, YearColumns(d.columns), parse).value;
      Rectangular(r) && r.columns == Without(t.columns, {name}) && YearCellsNumeric(r)
  {
    CoercedYearsAreNumeric(DropColumn(t, name).value, parse);
  }

  /** A name column other than the dropped one comes through the drop and the
      coercion unchanged, row by row. */
  lemma DropThenCoerceKeepsColumn(t: Table, name: string, parse: Parser, c: string)
    requires Rectangular(t) && name in t.columns && c in t.columns && c != name
    requires c == "Country Name" || c == "Country Code"
    requires var d := DropColumn(t, name).value; Coerce(d, YearColumns(d.columns), parse).Ok?
    ensures var d := DropColumn(t, name).value;
      ColumnUnchanged(t, Coerce(d, YearColumns(d.columns), parse).value, c)
  {
    var d := DropColumn(t, name).value;
    DropKeepsColumn(t, name, c);
    CoerceKeepsColumn(d, YearColumns(d.columns), parse, c);
  }
}
