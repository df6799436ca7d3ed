/** The map callbacks (app/callbacks.py:11-27): whether the second year
    selector is shown, and which per-country values colour the map under which
    title. Both read the merged table and change nothing. */
module Callbacks {
  import opened Tables
  import opened Merging

  /** toggle_year_dropdown: the CSS display value of the compare-year selector. */
  function ToggleYearDropdown(mode: string): (display: string)
    ensures display == "block" <==> mode == "compare"
    ensures display == "none" <==> mode != "compare"
  {
    if mode == "compare" then "block" else "none"
  }

  /** merged[name]: the cells of the first column labelled `name`, one per
      row; the index is not a column, and a missing label raises KeyError. */
  function Column(m: Merged, name: string): (r: Result<seq<Cell>>)
    requires WellFormed(m)
    ensures r.Ok? <==> name in m.columns
    ensures r.Err? ==> r.error == KeyError(name)
    ensures r.Ok? ==> |r.value| == |m.rows|
    ensures r.Ok? ==> forall i :: 0 <= i < |m.rows| ==> r.value[i] == m.rows[i].cells[IndexOf(m.columns, name).value]
  {
    match IndexOf(m.columns, name)
    case None => Err(KeyError(name))
    case Some(j) => Ok(seq(|m.rows|, i requires 0 <= i < |m.rows| => m.rows[i].cells[j]))
  }

  /** Whether pandas can subtract the two cells: object-dtype arithmetic
      first tries every pair, and on a TypeError retries only on the pairs
      where neither side is missing, so a missing side always succeeds. */
  predicate Subtractable(a: Cell, b: Cell) {
    a.Absent? || b.Absent? || (a.Num? && b.Num?)
  }

  /** One cell of merged[year] - merged[compare_year]: missing when either
      side is missing, a difference of numbers, and a type error for two
      present cells that are not both numbers. */
  function Minus(a: Cell, b: Cell): (r: Result<Cell>)
    ensures r.Ok? <==> Subtractable(a, b)
    ensures r.Err? ==> r.error == OperandTypeError(a, b)
    ensures r.Ok? ==> (r.value.Absent? <==> a.Absent? || b.Absent?)
    ensures r.Ok? && a.Num? && b.Num? ==> r.value == Num(a.value - b.value)
  {
    if a.Absent? || b.Absent? then Ok(Absent)
    else if a.Num? && b.Num? then Ok(Num(a.value - b.value))
    else Err(OperandTypeError(a, b))
  }

  /** The pointwise difference of two aligned series. */
  function Difference(a: seq<Cell>, b: seq<Cell>): (r: Result<seq<Cell>>)
    requires |a| == |b|
    ensures r.Ok? <==> forall i :: 0 <= i < |a| ==> Subtractable(a[i], b[i])
    ensures r.Ok? ==> |r.value| == |a| && forall i :: 0 <= i < |a| ==> Minus(a[i], b[i]) == Ok(r.value[i])
  {
    if |a| == 0 then Ok([])
    else
      var head :- Minus(a[0], b[0]);
      var tail :- Difference(a[1..], b[1..]);
      assert forall i :: 1 <= i < |a| ==> a[i] == a[1..][i - 1] && b[i] == b[1..][i - 1];
      Ok([head] + tail)
  }

  /** What update_map hands to the choropleth: the colour of each row of
      the merged table, and the title. */
  datatype MapView = MapView(colour: seq<Cell>, title: string)

  /** update_map's choice of colour data and title: "single" colours by the
      chosen year; every other mode colours by year minus compare year. */
  function UpdateMap(m: Merged, mode: string, year: string, compareYear: string): (r: Result<MapView>)
    requires WellFormed(m)
    ensures r.Ok? ==> |r.value.colour| == |m.rows|
  {
    if mode == "single" then
      var colour :- Column(m, year);
      Ok(MapView(colour, "Internet Usage in " + year))
    else
      var a :- Column(m, year);
      var b :- Column(m, compareYear);
      var colour :- Difference(a, b);
      Ok(MapView(colour, "Change in Internet Usage (" + year + " - " + compareYear + ")"))
  }

  /** Single mode: the colour series is the chosen year's column as it is,
      row by row, and the title names that year; a year that is not a column
      raises KeyError. */
  lemma SingleModeView(m: Merged, year: string, compareYear: string)
    requires WellFormed(m)
    ensures var r := UpdateMap(m, "single", year, compareYear);
      (r.Ok? <==> year in m.columns) &&
      (r.Err? ==> r.error == KeyError(year)) &&
      (r.Ok? ==> r.value.title == "Internet Usage in " + year) &&
      (r.Ok? ==> forall i :: 0 <= i < |m.rows| ==> r.value.colour[i] == m.rows[i].cells[IndexOf(m.columns, year).value])
  {
  }

  /** Any other mode: with both years present and every pair of their cells
      subtractable, each row's colour is value[year] - value[compare_year]
      (missing if either is missing), and the title names both years in that
      order. */
  lemma CompareModeView(m: Merged, mode: string, year: string, compareYear: string, i: nat)
    requires WellFormed(m) && mode != "single"
    requires year in m.columns && compareYear in m.columns
    requires var y, c := IndexOf(m.columns, year).value, IndexOf(m.columns, compareYear).value;
      forall k :: 0 <= k < |m.rows| ==> Subtractable(m.rows[k].cells[y], m.rows[k].cells[c])
    requires i < |m.rows|
    ensures var r := UpdateMap(m, mode, year, compareYear);
      var a := m.rows[i].cells[IndexOf(m.columns, year).value];
      var b := m.rows[i].cells[IndexOf(m.columns, compareYear).value];
      r.Ok? &&
      r.value.title == "Change in Internet Usage (" + year + " - " + compareYear + ")" &&
      (r.value.colour[i].Absent? <==> a.Absent? || b.Absent?) &&
      (a.Num? && b.Num? ==> r.value.colour[i] == Num(a.value - b.value))
  {
    var a := Column(m, year).value;
    var b := Column(m, compareYear).value;
    assert forall k :: 0 <= k < |a| ==> Subtractable(a[k], b[k]);
    var d := Difference(a, b).value;
    assert Minus(a[i], b[i]) == Ok(d[i]);
  }

  /** The sign convention is fixed: swapping the two years negates every
      colour value and keeps every missing one missing. */
  lemma CompareModeAntisymmetric(m: Merged, mode: string, year: string, compareYear: string)
    requires WellFormed(m) && mode != "single"
    requires UpdateMap(m, mode, year, compareYear).Ok?
    ensures UpdateMap(m, mode, compareYear, year).Ok?
    ensures var there, back := UpdateMap(m, mode, year, compareYear).value, UpdateMap(m, mode, compareYear, year).value;
      forall i :: 0 <= i < |m.rows| ==>
        (there.colour[i].Absent? <==> back.colour[i].Absent?) &&
        (there.colour[i].Num? ==> back.colour[i] == Num(-there.colour[i].value))
  {
    var a := Column(m, year).value;
    var b := Column(m, compareYear).value;
    var d := Difference(a, b).value;
    var e := Difference(b, a).value;
    forall i | 0 <= i < |m.rows|
      ensures (d[i].Absent? <==> e[i].Absent?) && (d[i].Num? ==> e[i] == Num(-d[i].value))
    {
      assert Minus(a[i], b[i]) == Ok(d[i]);
      assert Minus(b[i], a[i]) == Ok(e[i]);
    }
  }

  /** The two callbacks read the mode differently: a mode that is neither
      "single" nor "compare" hides the compare-year selector, yet the map is
      coloured by the difference against that hidden selector's year. */
  lemma OtherModeHidesSelectorButCompares(m: Merged, mode: string, year: string, compareYear: string)
    requires WellFormed(m) && mode != "single" && mode != "compare"
    requires UpdateMap(m, mode, year, compareYear).Ok?
    ensures ToggleYearDropdown(mode) == "none"
    ensures UpdateMap(m, mode, year, compareYear).value.title == "Change in Internet Usage (" + year + " - " + compareYear + ")"
  {
  }
}
