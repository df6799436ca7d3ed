/** The merge of the cleaned usage table with the reconciled boundary table
    (app/data_loader.py:49): both tables are indexed by their code column and
    the usage table is left-joined with the boundary table on that index. */
module Merging {
  import opened Tables

  /** One row of the merged table: its index value (the usage row's country
      code) and its cells, usage fields first, boundary fields after. */
  datatype Record = Record(key: Cell, cells: seq<Cell>)

  /** A table indexed by a key column. */
  datatype Merged = Merged(indexName: string, columns: seq<string>, rows: seq<Record>)

  predicate WellFormed(m: Merged) {
    forall i :: 0 <= i < |m.rows| ==> |m.rows[i].cells| == |m.columns|
  }

  /** `n` missing cells: the boundary part of a usage row that found no partner. */
  function Absents(n: nat): (r: seq<Cell>)
    ensures |r| == n && forall k :: 0 <= k < n ==> r[k] == Absent
  {
    seq(n, k => Absent)
  }

  /** The cells of column `col`, top to bottom. */
  function KeyColumn(rows: seq<seq<Cell>>, col: nat): (keys: seq<Cell>)
    requires forall j :: 0 <= j < |rows| ==> col < |rows[j]|
    ensures |keys| == |rows| && forall j :: 0 <= j < |rows| ==> keys[j] == rows[j][col]
  {
    seq(|rows|, j requires 0 <= j < |rows| => rows[j][col])
  }

  /** The positions, from `from` on, of the rows whose cell in column `col`
      is `key`, increasing. */
  function MatchIndices(rows: seq<seq<Cell>>, col: nat, key: Cell, from: nat): (idx: seq<nat>)
    requires forall j :: 0 <= j < |rows| ==> col < |rows[j]|
    requires from <= |rows|
    ensures |idx| <= |rows| - from
    ensures forall k :: 0 <= k < |idx| ==> from <= idx[k] < |rows| && rows[idx[k]][col] == key
    decreases |rows| - from
  {
    if from == |rows| then []
    else (if rows[from][col] == key then [from] else []) + MatchIndices(rows, col, key, from + 1)
  }

  /** No matching position is missed. */
  lemma {:induction false} MatchIndicesComplete(rows: seq<seq<Cell>>, col: nat, key: Cell, from: nat, j: nat)
    requires forall j :: 0 <= j < |rows| ==> col < |rows[j]|
    requires from <= j < |rows| && rows[j][col] == key
    ensures j in MatchIndices(rows, col, key, from)
    decreases |rows| - from
  {
    if j > from {
      MatchIndicesComplete(rows, col, key, from + 1, j);
    }
  }

  /** Each matching position is listed once, in table order. */
  lemma {:induction false} MatchIndicesIncrease(rows: seq<seq<Cell>>, col: nat, key: Cell, from: nat)
    requires forall j :: 0 <= j < |rows| ==> col < |rows[j]|
    requires from <= |rows|
    ensures Increasing(MatchIndices(rows, col, key, from))
    decreases |rows| - from
  {
    if from < |rows| {
      MatchIndicesIncrease(rows, col, key, from + 1);
      if rows[from][col] == key {
        IncreasingCons(from, MatchIndices(rows, col, key, from + 1));
      }
    }
  }

  /** No position is listed exactly when no row from `from` on carries the key. */
  lemma MatchIndicesEmpty(rows: seq<seq<Cell>>, col: nat, key: Cell, from: nat)
    requires forall j :: 0 <= j < |rows| ==> col < |rows[j]|
    requires from <= |rows|
    ensures |MatchIndices(rows, col, key, from)| == 0 <==> forall j :: from <= j < |rows| ==> rows[j][col] != key
  {
    var idx := MatchIndices(rows, col, key, from);
    if |idx| > 0 {
      assert from <= idx[0] < |rows| && rows[idx[0]][col] == key;
    }
    if j :| from <= j < |rows| && rows[j][col] == key {
      MatchIndicesComplete(rows, col, key, from, j);
    }
  }

  /** When the key is carried by row `j` alone, its position is the only one listed. */
  lemma {:induction false} MatchIndicesSingle(rows: seq<seq<Cell>>, col: nat, key: Cell, from: nat, j: nat)
    requires forall i :: 0 <= i < |rows| ==> col < |rows[i]|
    requires from <= |rows| && j < |rows| && rows[j][col] == key
    requires forall i :: from <= i < |rows| && i != j ==> rows[i][col] != key
    ensures MatchIndices(rows, col, key, from) == if from <= j then [j] else []
    decreases |rows| - from
  {
    if from < |rows| {
      MatchIndicesSingle(rows, col, key, from + 1, j);
    }
  }

  /** The rows, from position `from` on, whose cell in column `col` is `key`. */
  function MatchingFrom(rows: seq<seq<Cell>>, col: nat, key: Cell, from: nat): (ms: seq<seq<Cell>>)
    requires forall j :: 0 <= j < |rows| ==> col < |rows[j]|
    requires from <= |rows|
    ensures |ms| <= |rows| - from
    ensures forall k :: 0 <= k < |ms| ==> ms[k] in rows && ms[k][col] == key
    ensures |ms| == 0 <==> forall j :: from <= j < |rows| ==> rows[j][col] != key
    decreases |rows| - from
  {
    if from == |rows| then []
    else (if rows[from][col] == key then [rows[from]] else []) + MatchingFrom(rows, col, key, from + 1)
  }

  /** The boundary rows whose cell in column `col` is `key`. */
  function Matching(rows: seq<seq<Cell>>, col: nat, key: Cell): (ms: seq<seq<Cell>>)
    requires forall j :: 0 <= j < |rows| ==> col < |rows[j]|
    ensures |ms| <= |rows|
    ensures forall k :: 0 <= k < |ms| ==> ms[k] in rows && ms[k][col] == key
    ensures |ms| == 0 <==> forall j :: 0 <= j < |rows| ==> rows[j][col] != key
  {
    MatchingFrom(rows, col, key, 0)
  }

  /** Matching returns every row carrying the key, each once, in table
      order: exactly the rows at the positions MatchIndices lists. */
  lemma MatchingInTableOrder(rows: seq<seq<Cell>>, col: nat, key: Cell)
    requires forall j :: 0 <= j < |rows| ==> col < |rows[j]|
    ensures Matching(rows, col, key) == Pick(rows, MatchIndices(rows, col, key, 0))
  {
    MatchingFromIsPick(rows, col, key, 0);
  }

  lemma {:induction false} MatchingFromIsPick(rows: seq<seq<Cell>>, col: nat, key: Cell, from: nat)
    requires forall j :: 0 <= j < |rows| ==> col < |rows[j]|
    requires from <= |rows|
    ensures MatchingFrom(rows, col, key, from) == Pick(rows, MatchIndices(rows, col, key, from))
    decreases |rows| - from
  {
    if from < |rows| {
      MatchingFromIsPick(rows, col, key, from + 1);
      if rows[from][col] == key {
        PickCons(rows, from, MatchIndices(rows, col, key, from + 1));
      }
    }
  }

  /** The output rows for one usage row: one per matching boundary row, or a
      single row with every boundary field missing when none matches. */
  function JoinOne(row: seq<Cell>, li: nat, right: seq<seq<Cell>>, ri: nat, rightWidth: nat): (out: seq<Record>)
    requires li < |row| && ri < rightWidth
    requires forall j :: 0 <= j < |right| ==> |right[j]| == rightWidth
    ensures |out| >= 1
    ensures forall k :: 0 <= k < |out| ==>
      out[k].key == row[li] && |out[k].cells| == |row| - 1 + rightWidth - 1 &&
      out[k].cells[..|row| - 1] == RemoveAt(row, li)
  {
    var ms := Matching(right, ri, row[li]);
    var left := RemoveAt(row, li);
    if |ms| == 0 then [Record(row[li], left + Absents(rightWidth - 1))]
    else seq(|ms|, k requires 0 <= k < |ms| => Record(row[li], left + RemoveAt(ms[k], ri)))
  }

  /** The output rows for all usage rows, in usage-table order. */
  function JoinRows(left: seq<seq<Cell>>, li: nat, leftWidth: nat, right: seq<seq<Cell>>, ri: nat, rightWidth: nat): (out: seq<Record>)
    requires li < leftWidth && ri < rightWidth
    requires forall i :: 0 <= i < |left| ==> |left[i]| == leftWidth
    requires forall j :: 0 <= j < |right| ==> |right[j]| == rightWidth
    ensures |out| >= |left|
    ensures forall k :: 0 <= k < |out| ==> |out[k].cells| == leftWidth - 1 + rightWidth - 1
  {
    if |left| == 0 then []
    else JoinOne(left[0], li, right, ri, rightWidth) + JoinRows(left[1..], li, leftWidth, right, ri, rightWidth)
  }

  /** The first label of `a` that is also a label of `b`. */
  function Shared(a: seq<string>, b: seq<string>): (r: Option<string>)
    ensures r.None? <==> forall x :: x in a ==> x !in b
    ensures r.Some? ==> r.value in a && r.value in b
  {
    if |a| == 0 then None
    else if a[0] in b then Some(a[0])
    else Shared(a[1..], b)
  }

  /** left.set_index(leftKey).join(right.set_index(rightKey), how="left").
      Indexing by a missing column raises KeyError (the usage table is indexed
      first); labels shared by the two remaining column sets raise the
      overlap error; otherwise the index is the usage codes and the columns are
      the usage columns followed by the boundary columns, each without its key. */
  function LeftJoin(left: Table, leftKey: string, right: Table, rightKey: string): (r: Result<Merged>)
    requires Rectangular(left) && Rectangular(right)
    ensures leftKey !in left.columns ==> r == Err(KeyError(leftKey))
    ensures leftKey in left.columns && rightKey !in right.columns ==> r == Err(KeyError(rightKey))
    ensures leftKey in left.columns && rightKey in right.columns ==>
      var leftRest := RemoveAt(left.columns, IndexOf(left.columns, leftKey).value);
      var rightRest := RemoveAt(right.columns, IndexOf(right.columns, rightKey).value);
      (r.Ok? <==> forall c :: c in leftRest ==> c !in rightRest) &&
      (r.Err? ==> r.error.ColumnOverlap? && r.error.column in leftRest && r.error.column in rightRest) &&
      (r.Ok? ==> r.value.indexName == leftKey && r.value.columns == leftRest + rightRest)
    ensures r.Ok? ==> WellFormed(r.value) && |r.value.rows| >= |left.rows|
  {
    match IndexOf(left.columns, leftKey)
    case None => Err(KeyError(leftKey))
    case Some(li) =>
      match IndexOf(right.columns, rightKey)
      case None => Err(KeyError(rightKey))
      case Some(ri) =>
        var leftRest := RemoveAt(left.columns, li);
        var rightRest := RemoveAt(right.columns, ri);
        match Shared(leftRest, rightRest)
        case Some(c) => Err(ColumnOverlap(c))
        case None =>
          Ok(Merged(leftKey, leftRest + rightRest, JoinRows(left.rows, li, |left.columns|, right.rows, ri, |right.columns|)))
  }

  // ---------------------------------------------------------------------
  // Properties of the join
  // ---------------------------------------------------------------------

  /** No two rows share a key cell in column `col`. */
  predicate UniqueKeys(rows: seq<seq<Cell>>, col: nat)
    requires forall j :: 0 <= j < |rows| ==> col < |rows[j]|
  {
    var keys := KeyColumn(rows, col);
    forall a, b :: 0 <= a < b < |keys| ==> keys[a] != keys[b]
  }

  /** With unique keys, the matches for a key are the one row that has it, or none. */
  lemma MatchingUnique(rows: seq<seq<Cell>>, col: nat, key: Cell)
    requires forall j :: 0 <= j < |rows| ==> col < |rows[j]|
    requires UniqueKeys(rows, col)
    ensures Matching(rows, col, key) ==
      match IndexOf(KeyColumn(rows, col), key)
      case None => []
      case Some(j) => [rows[j]]
  {
    var keys := KeyColumn(rows, col);
    match IndexOf(keys, key)
    case None =>
      assert forall j :: 0 <= j < |rows| ==> keys[j] == rows[j][col];
    case Some(j) =>
      forall i | 0 <= i < |rows| && i != j ensures rows[i][col] != key {
        assert keys[i] != keys[j];
      }
      MatchIndicesSingle(rows, col, key, 0, j);
      MatchingInTableOrder(rows, col, key);
  }

  /** The boundary cells a usage row with key `key` receives when boundary
      keys are unique: those of the row with that key, or all missing. */
  function Partner(right: seq<seq<Cell>>, ri: nat, rightWidth: nat, key: Cell): (cells: seq<Cell>)
    requires ri < rightWidth
    requires forall j :: 0 <= j < |right| ==> |right[j]| == rightWidth
  {
    match IndexOf(KeyColumn(right, ri), key)
    case None => Absents(rightWidth - 1)
    case Some(j) => RemoveAt(right[j], ri)
  }

  /** With unique keys, one usage row yields exactly one output row. */
  lemma JoinOneUnique(row: seq<Cell>, li: nat, right: seq<seq<Cell>>, ri: nat, rightWidth: nat)
    requires li < |row| && ri < rightWidth
    requires forall j :: 0 <= j < |right| ==> |right[j]| == rightWidth
    requires UniqueKeys(right, ri)
    ensures JoinOne(row, li, right, ri, rightWidth) == [Record(row[li], RemoveAt(row, li) + Partner(right, ri, rightWidth, row[li]))]
  {
    MatchingUnique(right, ri, row[li]);
  }

  lemma {:induction false} JoinRowsOneToOne(left: seq<seq<Cell>>, li: nat, leftWidth: nat, right: seq<seq<Cell>>, ri: nat, rightWidth: nat)
    requires li < leftWidth && ri < rightWidth
    requires forall i :: 0 <= i < |left| ==> |left[i]| == leftWidth
    requires forall j :: 0 <= j < |right| ==> |right[j]| == rightWidth
    requires UniqueKeys(right, ri)
    ensures var out := JoinRows(left, li, leftWidth, right, ri, rightWidth);
      |out| == |left| &&
      forall i :: 0 <= i < |left| ==>
        out[i] == Record(left[i][li], RemoveAt(left[i], li) + Partner(right, ri, rightWidth, left[i][li]))
  {
    if |left| > 0 {
      JoinRowsOneToOne(left[1..], li, leftWidth, right, ri, rightWidth);
      JoinOneUnique(left[0], li, right, ri, rightWidth);
      var out := JoinRows(left, li, leftWidth, right, ri, rightWidth);
      var tail := JoinRows(left[1..], li, leftWidth, right, ri, rightWidth);
      assert out == JoinOne(left[0], li, right, ri, rightWidth) + tail;
      assert out[0] == Record(left[0][li], RemoveAt(left[0], li) + Partner(right, ri, rightWidth, left[0][li]));
      forall i | 1 <= i < |left|
        ensures out[i] == Record(left[i][li], RemoveAt(left[i], li) + Partner(right, ri, rightWidth, left[i][li]))
      {
        assert out[i] == tail[i - 1];
        assert left[1..][i - 1] == left[i];
      }
    }
  }

  /** When boundary codes are unique, the merge has exactly one row per usage
      row, in usage-table order, indexed by that row's code; each row carries
      the usage fields and then either the fields of the boundary row with the
      same code or, if there is none, missing boundary fields (geometry
      included). */
  lemma LeftJoinOneToOne(left: Table, leftKey: string, right: Table, rightKey: string)
    requires Rectangular(left) && Rectangular(right)
    requires LeftJoin(left, leftKey, right, rightKey).Ok?
    requires UniqueKeys(right.rows, IndexOf(right.columns, rightKey).value)
    ensures var m := LeftJoin(left, leftKey, right, rightKey).value;
      var li := IndexOf(left.columns, leftKey).value;
      var ri := IndexOf(right.columns, rightKey).value;
      |m.rows| == |left.rows| &&
      forall i :: 0 <= i < |left.rows| ==>
        m.rows[i].key == left.rows[i][li] &&
        m.rows[i].cells == RemoveAt(left.rows[i], li) + Partner(right.rows, ri, |right.columns|, left.rows[i][li])
  {
    var li := IndexOf(left.columns, leftKey).value;
    var ri := IndexOf(right.columns, rightKey).value;
    JoinRowsOneToOne(left.rows, li, |left.columns|, right.rows, ri, |right.columns|);
  }

  /** Where one output row for a single usage row comes from. */
  lemma JoinOneProvenance(row: seq<Cell>, li: nat, right: seq<seq<Cell>>, ri: nat, rightWidth: nat, k: nat)
    requires li < |row| && ri < rightWidth
    requires forall j :: 0 <= j < |right| ==> |right[j]| == rightWidth
    requires k < |JoinOne(row, li, right, ri, rightWidth)|
    ensures var o := JoinOne(row, li, right, ri, rightWidth)[k];
      ((o.cells[|row| - 1..] == Absents(rightWidth - 1) && forall j :: 0 <= j < |right| ==> right[j][ri] != o.key) ||
       (exists j :: 0 <= j < |right| && right[j][ri] == o.key && o.cells[|row| - 1..] == RemoveAt(right[j], ri)))
  {
    var o := JoinOne(row, li, right, ri, rightWidth)[k];
    var ms := Matching(right, ri, row[li]);
    if |ms| > 0 {
      assert ms[k] in right;
      var j :| 0 <= j < |right| && right[j] == ms[k];
      assert o.cells[|row| - 1..] == RemoveAt(right[j], ri);
    } else {
      assert o.cells[|row| - 1..] == Absents(rightWidth - 1);
    }
  }

  /** Output row `k` is output row `m` of the usage row at position `i`. */
  lemma {:induction false} JoinRowsOrigin(left: seq<seq<Cell>>, li: nat, leftWidth: nat, right: seq<seq<Cell>>, ri: nat, rightWidth: nat, k: nat)
      returns (i: nat, m: nat)
    requires li < leftWidth && ri < rightWidth
    requires forall i :: 0 <= i < |left| ==> |left[i]| == leftWidth
    requires forall j :: 0 <= j < |right| ==> |right[j]| == rightWidth
    requires k < |JoinRows(left, li, leftWidth, right, ri, rightWidth)|
    ensures i < |left| && m < |JoinOne(left[i], li, right, ri, rightWidth)|
    ensures JoinRows(left, li, leftWidth, right, ri, rightWidth)[k] == JoinOne(left[i], li, right, ri, rightWidth)[m]
    decreases |left|
  {
    var head := JoinOne(left[0], li, right, ri, rightWidth);
    if k < |head| {
      i, m := 0, k;
    } else {
      var i', m' := JoinRowsOrigin(left[1..], li, leftWidth, right, ri, rightWidth, k - |head|);
      assert left[1..][i'] == left[i' + 1];
      i, m := i' + 1, m';
    }
  }

  /** The position of an output row of the usage row at position `i`. */
  lemma {:induction false} JoinRowsPosition(left: seq<seq<Cell>>, li: nat, leftWidth: nat, right: seq<seq<Cell>>, ri: nat, rightWidth: nat, i: nat)
      returns (k: nat)
    requires li < leftWidth && ri < rightWidth
    requires forall i :: 0 <= i < |left| ==> |left[i]| == leftWidth
    requires forall j :: 0 <= j < |right| ==> |right[j]| == rightWidth
    requires i < |left|
    ensures k < |JoinRows(left, li, leftWidth, right, ri, rightWidth)|
    ensures JoinRows(left, li, leftWidth, right, ri, rightWidth)[k] == JoinOne(left[i], li, right, ri, rightWidth)[0]
    decreases |left|
  {
    var out := JoinRows(left, li, leftWidth, right, ri, rightWidth);
    var head := JoinOne(left[0], li, right, ri, rightWidth);
    var tail := JoinRows(left[1..], li, leftWidth, right, ri, rightWidth);
    assert out == head + tail;
    if i == 0 {
      k := 0;
    } else {
      var k' := JoinRowsPosition(left[1..], li, leftWidth, right, ri, rightWidth, i - 1);
      assert left[1..][i - 1] == left[i];
      k := |head| + k';
      assert out[k] == tail[k'];
    }
  }

  /** No usage row is lost, whatever the boundary keys: each one is indexed
      by its code and carries its other fields in at least one output row. */
  lemma JoinRowsKeepEveryUsageRow(left: seq<seq<Cell>>, li: nat, leftWidth: nat, right: seq<seq<Cell>>, ri: nat, rightWidth: nat)
    requires li < leftWidth && ri < rightWidth
    requires forall i :: 0 <= i < |left| ==> |left[i]| == leftWidth
    requires forall j :: 0 <= j < |right| ==> |right[j]| == rightWidth
    ensures var out := JoinRows(left, li, leftWidth, right, ri, rightWidth);
      forall i :: 0 <= i < |left| ==>
        (exists k :: 0 <= k < |out| && out[k].key == left[i][li] && out[k].cells[..leftWidth - 1] == RemoveAt(left[i], li))
  {
    var out := JoinRows(left, li, leftWidth, right, ri, rightWidth);
    forall i | 0 <= i < |left|
      ensures exists k :: 0 <= k < |out| && out[k].key == left[i][li] && out[k].cells[..leftWidth - 1] == RemoveAt(left[i], li)
    {
      var k := JoinRowsPosition(left, li, leftWidth, right, ri, rightWidth, i);
      assert out[k] == JoinOne(left[i], li, right, ri, rightWidth)[0];
    }
  }

  /** The same for the merged table: the left join keeps every usage row. */
  lemma LeftJoinKeepsEveryUsageRow(left: Table, leftKey: string, right: Table, rightKey: string)
    requires Rectangular(left) && Rectangular(right)
    requires LeftJoin(left, leftKey, right, rightKey).Ok?
    ensures var m := LeftJoin(left, leftKey, right, rightKey).value;
      var li := IndexOf(left.columns, leftKey).value;
      forall i :: 0 <= i < |left.rows| ==>
        (exists k :: 0 <= k < |m.rows| && m.rows[k].key == left.rows[i][li] && m.rows[k].cells[..|left.columns| - 1] == RemoveAt(left.rows[i], li))
  {
    var li := IndexOf(left.columns, leftKey).value;
    var ri := IndexOf(right.columns, rightKey).value;
    JoinRowsKeepEveryUsageRow(left.rows, li, |left.columns|, right.rows, ri, |right.columns|);
  }

  /** For any input, where every merged row comes from: its key is a usage
      row's code, and its boundary fields are either all missing (no boundary
      row has that code) or those of a boundary row with exactly that code. So
      a boundary row whose code no usage row has contributes nothing. */
  lemma JoinRowsProvenance(left: seq<seq<Cell>>, li: nat, leftWidth: nat, right: seq<seq<Cell>>, ri: nat, rightWidth: nat, k: nat)
    requires li < leftWidth && ri < rightWidth
    requires forall i :: 0 <= i < |left| ==> |left[i]| == leftWidth
    requires forall j :: 0 <= j < |right| ==> |right[j]| == rightWidth
    requires k < |JoinRows(left, li, leftWidth, right, ri, rightWidth)|
    ensures var o := JoinRows(left, li, leftWidth, right, ri, rightWidth)[k];
      (exists i :: 0 <= i < |left| && o.key == left[i][li] && o.cells[..leftWidth - 1] == RemoveAt(left[i], li)) &&
      ((o.cells[leftWidth - 1..] == Absents(rightWidth - 1) && forall j :: 0 <= j < |right| ==> right[j][ri] != o.key) ||
       (exists j :: 0 <= j < |right| && right[j][ri] == o.key && o.cells[leftWidth - 1..] == RemoveAt(right[j], ri)))
  {
    var i, m := JoinRowsOrigin(left, li, leftWidth, right, ri, rightWidth, k);
    JoinOneProvenance(left[i], li, right, ri, rightWidth, m);
  }

  /** The same for the merged table, row `k`. */
  lemma LeftJoinProvenance(left: Table, leftKey: string, right: Table, rightKey: string, k: nat)
    requires Rectangular(left) && Rectangular(right)
    requires LeftJoin(left, leftKey, right, rightKey).Ok?
    requires k < |LeftJoin(left, leftKey, right, rightKey).value.rows|
    ensures var o := LeftJoin(left, leftKey, right, rightKey).value.rows[k];
      var li := IndexOf(left.columns, leftKey).value;
      var ri := IndexOf(right.columns, rightKey).value;
      var w := |left.columns| - 1;
      (exists i :: 0 <= i < |left.rows| && o.key == left.rows[i][li] && o.cells[..w] == RemoveAt(left.rows[i], li)) &&
      ((o.cells[w..] == Absents(|right.columns| - 1) && forall j :: 0 <= j < |right.rows| ==> right.rows[j][ri] != o.key) ||
       (exists j :: 0 <= j < |right.rows| && right.rows[j][ri] == o.key && o.cells[w..] == RemoveAt(right.rows[j], ri)))
  {
    var li := IndexOf(left.columns, leftKey).value;
    var ri := IndexOf(right.columns, rightKey).value;
    JoinRowsProvenance(left.rows, li, |left.columns|, right.rows, ri, |right.columns|, k);
  }
}
