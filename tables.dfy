/** Data frames as values: the cells, tables and errors every step of the
    data-preparation pipeline (app/data_loader.py) works on, and the few
    column-level helpers that several steps share. */
module Tables {

  datatype Option<+T> = None | Some(value: T)

  /** One cell of a data frame. `Absent` is pandas' missing marker (NaN/None);
      `Shape` is an opaque handle for a boundary polygon, carried around but
      never inspected. */
  datatype Cell = Absent | Text(text: string) | Num(value: real) | Shape(geometry: nat)

  /** The exceptions the pipeline and the map callback can raise. */
  datatype Error =
    | KeyError(key: string)                      // a column label that is not there
    | NotNumeric(cell: Cell)                     // astype(float) met a cell it cannot convert
    | ColumnOverlap(column: string)              // join without suffixes on a shared label
    | OperandTypeError(left: Cell, right: Cell)  // subtraction on a non-numeric cell

  datatype Result<+T> = Ok(value: T) | Err(error: Error) {
    predicate IsFailure() { Err? }
    function PropagateFailure<U>(): Result<U> requires Err? { Err(error) }
    function Extract(): T requires Ok? { value }
  }

  /** A data frame: column labels and rows of cells, one cell per label. */
  datatype Table = Table(columns: seq<string>, rows: seq<seq<Cell>>)

  predicate Rectangular(t: Table) {
    forall i :: 0 <= i < |t.rows| ==> |t.rows[i]| == |t.columns|
  }

  /** Position of the first occurrence of `x` in `s`. */
  function IndexOf<T(==)>(s: seq<T>, x: T): (r: Option<nat>)
    ensures r.None? <==> x !in s
    ensures r.Some? ==> r.value < |s| && s[r.value] == x && x !in s[..r.value]
  {
    var r := IndexFrom(s, x, 0);
    assert r.Some? ==> forall k :: 0 <= k < r.value ==> s[..r.value][k] == s[k];
    r
  }

  /** Position of the first occurrence of `x` in `s` at or after `from`. */
  function IndexFrom<T(==)>(s: seq<T>, x: T, from: nat): (r: Option<nat>)
    requires from <= |s|
    ensures r.None? <==> forall k :: from <= k < |s| ==> s[k] != x
    ensures r.Some? ==> from <= r.value < |s| && s[r.value] == x
    ensures r.Some? ==> forall k :: from <= k < r.value ==> s[k] != x
    decreases |s| - from
  {
    if from == |s| then None
    else if s[from] == x then Some(from)
    else IndexFrom(s, x, from + 1)
  }

  /** A position that holds `x` with no `x` before it is the one IndexOf finds. */
  lemma FirstOccurrence<T>(s: seq<T>, x: T, p: nat)
    requires p < |s| && s[p] == x
    requires forall k :: 0 <= k < p ==> s[k] != x
    ensures IndexOf(s, x) == Some(p)
  {
  }

  /** The elements of `s` at positions `idx`, in the order of `idx`. */
  function Pick<T>(s: seq<T>, idx: seq<nat>): (r: seq<T>)
    requires forall k :: 0 <= k < |idx| ==> idx[k] < |s|
    ensures |r| == |idx|
    ensures forall k :: 0 <= k < |idx| ==> r[k] == s[idx[k]]
  {
    seq(|idx|, k requires 0 <= k < |idx| => s[idx[k]])
  }

  /** Picking a first position, then others: that element, then theirs. */
  lemma PickCons<T>(s: seq<T>, i: nat, idx: seq<nat>)
    requires i < |s| && forall k :: 0 <= k < |idx| ==> idx[k] < |s|
    ensures Pick(s, [i] + idx) == [s[i]] + Pick(s, idx)
  {
    var r := Pick(s, [i] + idx);
    assert r[1..] == Pick(s, idx);
  }

  /** Strictly increasing positions. */
  predicate Increasing(idx: seq<nat>) {
    forall k, l :: 0 <= k < l < |idx| ==> idx[k] < idx[l]
  }

  /** A position below all of an increasing list's, put in front, keeps it increasing. */
  lemma IncreasingCons(i: nat, idx: seq<nat>)
    requires Increasing(idx) && forall k :: 0 <= k < |idx| ==> i < idx[k]
    ensures Increasing([i] + idx)
  {
    var r := [i] + idx;
    forall k, l | 0 <= k < l < |r| ensures r[k] < r[l] {
      assert r[l] == idx[l - 1];
      if k > 0 {
        assert r[k] == idx[k - 1];
      }
    }
  }

  /** `s` without its element at position `i` (what set_index does to a frame's columns). */
  function RemoveAt<T>(s: seq<T>, i: nat): (r: seq<T>)
    requires i < |s|
    ensures |r| == |s| - 1
    ensures forall k :: 0 <= k < i ==> r[k] == s[k]
    ensures forall k :: i <= k < |r| ==> r[k] == s[k + 1]
  {
    seq(|s| - 1, k requires 0 <= k < |s| - 1 => if k < i then s[k] else s[k + 1])
  }

  /** Removing an element adds nothing. */
  lemma RemoveAtKeepsOthers<T>(s: seq<T>, i: nat)
    requires i < |s|
    ensures forall x :: x in RemoveAt(s, i) ==> x in s
  {
    var r := RemoveAt(s, i);
    forall x | x in r ensures x in s {
      var k :| 0 <= k < |r| && r[k] == x;
      assert x == s[if k < i then k else k + 1];
    }
  }

  /** `s` with every element of `drop` filtered out, order kept. */
  function Without(s: seq<string>, drop: set<string>): (r: seq<string>)
    ensures forall x :: x in r <==> x in s && x !in drop
    ensures |r| <= |s|
    decreases |s|
  {
    if |s| == 0 then []
    else Without(s[..|s| - 1], drop) + (if s[|s| - 1] in drop then [] else [s[|s| - 1]])
  }

  /** Filtering distributes over concatenation, so `Without` keeps the relative
      order of the elements it keeps. */
  lemma {:induction false} WithoutAppend(a: seq<string>, b: seq<string>, drop: set<string>)
    ensures Without(a + b, drop) == Without(a, drop) + Without(b, drop)
    decreases |b|
  {
    if |b| == 0 {
      assert a + b == a;
    } else {
      var b' := b[..|b| - 1];
      assert (a + b)[..|a + b| - 1] == a + b';
      WithoutAppend(a, b', drop);
    }
  }

  /** The positions of the elements of `s` that are not in `drop`, increasing. */
  function KeptIndices(s: seq<string>, drop: set<string>): (idx: seq<nat>)
    ensures forall k :: 0 <= k < |idx| ==> idx[k] < |s| && s[idx[k]] !in drop
    ensures forall j :: 0 <= j < |s| && s[j] !in drop ==> j in idx
    decreases |s|
  {
    if |s| == 0 then []
    else KeptIndices(s[..|s| - 1], drop) + (if s[|s| - 1] in drop then [] else [|s| - 1])
  }

  /** The kept positions are strictly increasing: filtering keeps order. */
  lemma {:induction false} KeptIndicesIncrease(s: seq<string>, drop: set<string>)
    ensures forall k, l :: 0 <= k < l < |KeptIndices(s, drop)| ==> KeptIndices(s, drop)[k] < KeptIndices(s, drop)[l]
    decreases |s|
  {
    if |s| > 0 {
      var s' := s[..|s| - 1];
      KeptIndicesIncrease(s', drop);
      var idx', idx := KeptIndices(s', drop), KeptIndices(s, drop);
      assert idx[..|idx'|] == idx';
      forall k, l | 0 <= k < l < |idx| ensures idx[k] < idx[l] {
        assert idx[k] == idx'[k];
        if l < |idx'| {
          assert idx[l] == idx'[l];
        } else {
          assert idx[l] == |s| - 1;
        }
      }
    }
  }


  /** Picking the kept positions gives exactly the filtered sequence. */
  lemma {:induction false} PickKeptIsWithout(s: seq<string>, drop: set<string>)
    ensures Pick(s, KeptIndices(s, drop)) == Without(s, drop)
    decreases |s|
  {
    if |s| > 0 {
      PickKeptIsWithout(s[..|s| - 1], drop);
      PickKeptStep(s, drop);
    }
  }

  /** Taking the kept positions of `s` is taking those of all but its last
      element, then the last element if it is kept. */
  lemma PickKeptStep(s: seq<string>, drop: set<string>)
    requires |s| > 0
    ensures var s' := s[..|s| - 1];
      Pick(s, KeptIndices(s, drop)) == Pick(s', KeptIndices(s', drop)) + (if s[|s| - 1] in drop then [] else [s[|s| - 1]])
  {
    var s' := s[..|s| - 1];
    var idx', idx := KeptIndices(s', drop), KeptIndices(s, drop);
    assert forall k :: 0 <= k < |idx'| ==> s[idx'[k]] == s'[idx'[k]];
    assert Pick(s, idx') == Pick(s', idx');
    if s[|s| - 1] !in drop {
      assert Pick(s, idx) == Pick(s, idx') + [s[|s| - 1]];
    }
  }
}
