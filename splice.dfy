/** numpy's `insert` and `delete` as the seating code uses them: the position-utility matrix
    gets zero rows and columns spliced in at the aisle indices (model.py), the binary
    seating state has its aisle rows and columns deleted (model.py) and `insert_aisles`
    puts aisle columns back (model_comparison.py). */
module Splice {
  import opened Basics

  /** `np.insert(s, a, v)` when `a` is an index of `s`; the source appends when `a` is past
      the end. */
  function InsertAt<T>(s: seq<T>, a: nat, v: T): (r: seq<T>)
    ensures |r| == |s| + 1
    ensures r == s[..Min(a, |s|)] + [v] + s[Min(a, |s|)..]
  {
    if a < |s| then s[..a] + [v] + s[a..] else s + [v]
  }

  /** Inserts `v` at each index of `at` in turn, every index read against the sequence as
      the earlier insertions left it. */
  function InsertAll<T>(s: seq<T>, at: seq<nat>, v: T): (r: seq<T>)
    ensures |r| == |s| + |at|
  {
    if at == [] then s else InsertAt(InsertAll(s, at[..|at| - 1], v), at[|at| - 1], v)
  }

  /** `np.delete(s, idx)`: the entries whose index is not in `idx`, in their order. Indices
      past the end are ignored, as numpy before 1.19 does; later versions raise `IndexError`. */
  function DeleteAt<T>(s: seq<T>, idx: set<nat>): (r: seq<T>)
    ensures |r| <= |s|
  {
    if s == [] then []
    else DeleteAt(s[..|s| - 1], idx) + (if |s| - 1 in idx then [] else [s[|s| - 1]])
  }

  function Range(n: nat): (r: seq<nat>)
    ensures |r| == n && forall i :: 0 <= i < n ==> r[i] == i
  {
    seq(n, i => i)
  }

  /** The indices below `n` that `np.delete` keeps, in increasing order. */
  function Kept(n: nat, idx: set<nat>): seq<nat>
  {
    DeleteAt(Range(n), idx)
  }

  function SetOf(at: seq<nat>): set<nat>
  {
    set a | a in at
  }

  predicate StrictlyIncreasing(at: seq<nat>)
  {
    forall i, j :: 0 <= i < j < |at| ==> at[i] < at[j]
  }

  /** Each index lies inside, or just past the end of, the sequence it is inserted into. */
  predicate InsertableInto(at: seq<nat>, n: nat)
  {
    forall k :: 0 <= k < |at| ==> at[k] <= n + k
  }

  // ---------------------------------------------------------------------------
  // Deletion keeps exactly the entries at the kept indices.

  lemma {:induction false} DeleteIsKept<T>(s: seq<T>, idx: set<nat>)
    ensures |DeleteAt(s, idx)| == |Kept(|s|, idx)|
    ensures forall k :: 0 <= k < |DeleteAt(s, idx)| ==>
              Kept(|s|, idx)[k] < |s| && DeleteAt(s, idx)[k] == s[Kept(|s|, idx)[k]]
  {
    if s != [] {
      var n := |s|;
      DeleteIsKept(s[..n - 1], idx);
      KeptStep(n, idx);
    }
  }

  /** Index `n - 1` is kept after the others unless it is deleted. */
  lemma KeptStep(n: nat, idx: set<nat>)
    requires n > 0
    ensures Kept(n, idx) == Kept(n - 1, idx) + (if n - 1 in idx then [] else [n - 1])
  {
    assert Range(n)[..n - 1] == Range(n - 1);
  }

  /** The kept indices are exactly the indices below `n` outside `idx`, increasing. */
  lemma {:induction false} KeptMembers(n: nat, idx: set<nat>)
    ensures forall k :: 0 <= k < |Kept(n, idx)| ==> Kept(n, idx)[k] < n && Kept(n, idx)[k] !in idx
    ensures forall i :: 0 <= i < n && i !in idx ==> i in Kept(n, idx)
    ensures forall k, l :: 0 <= k < l < |Kept(n, idx)| ==> Kept(n, idx)[k] < Kept(n, idx)[l]
  {
    if n > 0 {
      KeptMembers(n - 1, idx);
      KeptStep(n, idx);
    }
  }

  /** The deleted indices below `n`, counted one index at a time. */
  lemma BelowStep(n: nat, idx: set<nat>)
    requires n > 0
    ensures |set i | i in idx && i < n| == |set i | i in idx && i < n - 1| + (if n - 1 in idx then 1 else 0)
  {
    var below := set i | i in idx && i < n - 1;
    if n - 1 in idx {
      assert (set i | i in idx && i < n) == below + {n - 1};
    } else {
      assert (set i | i in idx && i < n) == below;
    }
  }

  /** `np.delete` keeps as many indices as lie below `n` and outside `idx`. */
  lemma {:induction false} KeptCount(n: nat, idx: set<nat>)
    ensures |Kept(n, idx)| + |set i | i in idx && i < n| == n
  {
    if n > 0 {
      KeptCount(n - 1, idx);
      KeptStep(n, idx);
      BelowStep(n, idx);
    }
  }

  predicate Distinct(at: seq<nat>)
  {
    forall i, j :: 0 <= i < j < |at| ==> at[i] != at[j]
  }

  lemma {:induction false} SetOfDistinct(at: seq<nat>)
    requires Distinct(at)
    ensures |SetOf(at)| == |at|
  {
    if at != [] {
      var front := at[..|at| - 1];
      SetOfDistinct(front);
      assert SetOf(at) == SetOf(front) + {at[|at| - 1]};
      assert at[|at| - 1] !in SetOf(front);
    }
  }

  /** Deleting `n` distinct in-range indices leaves the others. */
  lemma KeptAfterDistinct(n: nat, at: seq<nat>)
    requires Distinct(at) && forall k :: 0 <= k < |at| ==> at[k] < n
    ensures |Kept(n, SetOf(at))| == n - |at|
  {
    KeptCount(n, SetOf(at));
    SetOfDistinct(at);
    assert (set i | i in SetOf(at) && i < n) == SetOf(at);
  }

  // ---------------------------------------------------------------------------
  // Deleting the inserted indices gives the original sequence back.

  lemma {:induction false} DeleteKeepsTail<T>(x: seq<T>, y: seq<T>, idx: set<nat>)
    requires forall i :: i in idx ==> i < |x|
    ensures DeleteAt(x + y, idx) == DeleteAt(x, idx) + y
  {
    if y != [] {
      var y' := y[..|y| - 1];
      DeleteKeepsTail(x, y', idx);
      assert (x + y)[..|x + y| - 1] == x + y';
      assert |x + y| - 1 !in idx && (x + y)[|x + y| - 1] == y[|y| - 1];
      assert y == y' + [y[|y| - 1]];
    } else {
      assert x + y == x;
    }
  }

  lemma {:induction false} DeleteIgnoresBeyond<T>(x: seq<T>, idx: set<nat>, j: nat)
    requires j >= |x|
    ensures DeleteAt(x, idx + {j}) == DeleteAt(x, idx)
  {
    if x != [] {
      DeleteIgnoresBeyond(x[..|x| - 1], idx, j);
    }
  }

  lemma {:induction false} DeleteNothing<T>(s: seq<T>)
    ensures DeleteAt(s, {}) == s
  {
    if s != [] {
      DeleteNothing(s[..|s| - 1]);
    }
  }

  /** Removing a value spliced in at `a`, together with indices all below `a`. */
  lemma {:induction false} DeleteSpliced<T>(r: seq<T>, a: nat, v: T, front: set<nat>)
    requires a <= |r| && forall i :: i in front ==> i < a
    ensures DeleteAt(r[..a] + [v] + r[a..], front + {a}) == DeleteAt(r, front)
  {
    var all := front + {a};
    var x := r[..a] + [v];
    assert r[..a] + [v] + r[a..] == x + r[a..];
    DeleteKeepsTail(x, r[a..], all);
    assert x[..|x| - 1] == r[..a];
    assert DeleteAt(x, all) == DeleteAt(r[..a], all);
    DeleteIgnoresBeyond(r[..a], front, a);
    DeleteKeepsTail(r[..a], r[a..], front);
    assert r[..a] + r[a..] == r;
  }

  lemma {:induction false} DeleteAfterInsert<T>(s: seq<T>, at: seq<nat>, v: T)
    requires StrictlyIncreasing(at) && InsertableInto(at, |s|)
    ensures DeleteAt(InsertAll(s, at, v), SetOf(at)) == s
  {
    if at == [] {
      assert SetOf(at) == {};
      DeleteNothing(s);
    } else {
      var n := |at|;
      var front, a := at[..n - 1], at[n - 1];
      DeleteAfterInsert(s, front, v);
      var r' := InsertAll(s, front, v);
      assert InsertAll(s, at, v) == r'[..a] + [v] + r'[a..];
      assert SetOf(at) == SetOf(front) + {a};
      DeleteSpliced(r', a, v, SetOf(front));
    }
  }

  /** After the insertions, `v` stands at every index of `at`. */
  lemma {:induction false} InsertedHoldValue<T>(s: seq<T>, at: seq<nat>, v: T)
    requires StrictlyIncreasing(at) && InsertableInto(at, |s|)
    ensures forall k :: 0 <= k < |at| ==> at[k] < |InsertAll(s, at, v)| && InsertAll(s, at, v)[at[k]] == v
  {
    if at != [] {
      var n := |at|;
      var front, a := at[..n - 1], at[n - 1];
      InsertedHoldValue(s, front, v);
      var r' := InsertAll(s, front, v);
      assert InsertAll(s, at, v) == r'[..a] + [v] + r'[a..];
      forall k | 0 <= k < n - 1
        ensures InsertAll(s, at, v)[at[k]] == v
      {
        assert front[k] == at[k] < a;
      }
    }
  }

  // ---------------------------------------------------------------------------
  // The same operations on two-dimensional arrays.

  /** `np.insert(g, a, v, axis=0)`, or a row of `v` appended when `a` is past the end. */
  function InsertRow<T>(g: Grid<T>, a: nat, v: T): (r: Grid<T>)
    requires g.Valid()
    ensures r.Valid() && r.rows == g.rows + 1 && r.cols == g.cols
  {
    Grid(g.rows + 1, g.cols, InsertAt(g.cells, a, seq(g.cols, _ => v)))
  }

  function InsertRows<T>(g: Grid<T>, at: seq<nat>, v: T): (r: Grid<T>)
    requires g.Valid()
    ensures r.Valid() && r.rows == g.rows + |at| && r.cols == g.cols
  {
    if at == [] then g else InsertRow(InsertRows(g, at[..|at| - 1], v), at[|at| - 1], v)
  }

  /** `np.insert(g, a, v, axis=1)`, or a column of `v` appended when `a` is past the end. */
  function InsertColumn<T>(g: Grid<T>, a: nat, v: T): (r: Grid<T>)
    requires g.Valid()
    ensures r.Valid() && r.rows == g.rows && r.cols == g.cols + 1
  {
    Grid(g.rows, g.cols + 1, seq(g.rows, i requires 0 <= i < g.rows => InsertAt(g.cells[i], a, v)))
  }

  function InsertColumns<T>(g: Grid<T>, at: seq<nat>, v: T): (r: Grid<T>)
    requires g.Valid()
    ensures r.Valid() && r.rows == g.rows && r.cols == g.cols + |at|
  {
    if at == [] then g else InsertColumn(InsertColumns(g, at[..|at| - 1], v), at[|at| - 1], v)
  }

  /** `np.delete(g, idx, axis=0)`. */
  function DeleteRows<T>(g: Grid<T>, idx: set<nat>): (r: Grid<T>)
    requires g.Valid()
    ensures r.Valid() && r.cols == g.cols && r.rows == |Kept(g.rows, idx)|
  {
    DeleteIsKept(g.cells, idx);
    Grid(|DeleteAt(g.cells, idx)|, g.cols, DeleteAt(g.cells, idx))
  }

  /** `np.delete(g, idx, axis=1)`. */
  function DeleteColumns<T>(g: Grid<T>, idx: set<nat>): (r: Grid<T>)
    requires g.Valid()
    ensures r.Valid() && r.rows == g.rows && r.cols == |Kept(g.cols, idx)|
  {
    var cells := seq(g.rows, i requires 0 <= i < g.rows => DeleteAt(g.cells[i], idx));
    assert forall i :: 0 <= i < g.rows ==> |cells[i]| == |Kept(g.cols, idx)| by {
      forall i | 0 <= i < g.rows { DeleteIsKept(g.cells[i], idx); }
    }
    Grid(g.rows, |Kept(g.cols, idx)|, cells)
  }

  /** Each row of the column-spliced array is the row with the same insertions. */
  lemma {:induction false} InsertColumnsRow<T>(g: Grid<T>, at: seq<nat>, v: T, i: nat)
    requires g.Valid() && i < g.rows
    ensures InsertColumns(g, at, v).cells[i] == InsertAll(g.cells[i], at, v)
  {
    if at != [] {
      InsertColumnsRow(g, at[..|at| - 1], v, i);
    }
  }

  /** Deleting the columns that `InsertColumns` put in gives the array back, and every
      inserted column holds `v`. */
  lemma DeleteColumnsAfterInsert<T>(g: Grid<T>, at: seq<nat>, v: T)
    requires g.Valid() && StrictlyIncreasing(at) && InsertableInto(at, g.cols)
    ensures DeleteColumns(InsertColumns(g, at, v), SetOf(at)) == g
    ensures forall i, k :: 0 <= i < g.rows && 0 <= k < |at| ==>
              at[k] < g.cols + |at| && InsertColumns(g, at, v).cells[i][at[k]] == v
  {
    var h := InsertColumns(g, at, v);
    var t := InsertAll(seq(g.cols, _ => v), at, v);
    DeleteAfterInsert(seq(g.cols, _ => v), at, v);
    DeleteIsKept(t, SetOf(at));
    var d := DeleteColumns(h, SetOf(at));
    assert d.cols == g.cols;
    forall i | 0 <= i < g.rows
      ensures d.cells[i] == g.cells[i]
      ensures forall k :: 0 <= k < |at| ==> at[k] < g.cols + |at| && h.cells[i][at[k]] == v
    {
      InsertColumnsRow(g, at, v, i);
      DeleteAfterInsert(g.cells[i], at, v);
      InsertedHoldValue(g.cells[i], at, v);
    }
  }

  /** Deleting the rows that `InsertRows` put in gives the array back, and every inserted
      row is all `v`. */
  lemma DeleteRowsAfterInsert<T>(g: Grid<T>, at: seq<nat>, v: T)
    requires g.Valid() && StrictlyIncreasing(at) && InsertableInto(at, g.rows)
    ensures DeleteRows(InsertRows(g, at, v), SetOf(at)) == g
    ensures forall k :: 0 <= k < |at| ==>
              at[k] < g.rows + |at| && InsertRows(g, at, v).cells[at[k]] == seq(g.cols, _ => v)
  {
    InsertRowsCells(g, at, v);
    DeleteAfterInsert(g.cells, at, seq(g.cols, _ => v));
    InsertedHoldValue(g.cells, at, seq(g.cols, _ => v));
  }

  lemma {:induction false} InsertRowsCells<T>(g: Grid<T>, at: seq<nat>, v: T)
    requires g.Valid()
    ensures InsertRows(g, at, v).cells == InsertAll(g.cells, at, seq(g.cols, _ => v))
  {
    if at != [] {
      InsertRowsCells(g, at[..|at| - 1], v);
    }
  }
}
