/** The measures that summarise a seating snapshot (model_comparison.py:22-173): run-length
    histograms of seated students, local binary pattern histograms, aisle re-insertion and
    the mean square error of two profiles. */
module Patterns {
  import opened Basics
  import opened Splice

  // ---------------------------------------------------------------------------
  // Histograms

  function Zeros(n: nat): (r: seq<nat>)
    ensures |r| == n && forall i :: 0 <= i < n ==> r[i] == 0
  {
    seq(n, _ => 0)
  }

  /** `counts[e] += 1`, dropping an event past the end. */
  function Bump(t: seq<nat>, e: nat): (r: seq<nat>)
    ensures |r| == |t|
  {
    if e < |t| then t[e := t[e] + 1] else t
  }

  /** `counts[e] += 1` for every event `e` in turn (an event past the end is dropped; the
      measures below never produce one). */
  function Tally(counts: seq<nat>, ev: seq<nat>): (r: seq<nat>)
    ensures |r| == |counts|
  {
    if ev == [] then counts else Bump(Tally(counts, ev[..|ev| - 1]), ev[|ev| - 1])
  }

  function SumNat(s: seq<nat>): nat
  {
    if s == [] then 0 else SumNat(s[..|s| - 1]) + s[|s| - 1]
  }

  /** `Σ L * counts[L]`. */
  function WeightedSum(counts: seq<nat>): nat
  {
    if counts == [] then 0 else WeightedSum(counts[..|counts| - 1]) + (|counts| - 1) * counts[|counts| - 1]
  }

  function Reals(s: seq<nat>): (r: seq<real>)
    ensures |r| == |s| && forall i :: 0 <= i < |s| ==> r[i] == s[i] as real
  {
    seq(|s|, i requires 0 <= i < |s| => s[i] as real)
  }

  lemma TallyStep(counts: seq<nat>, ev: seq<nat>, e: nat)
    ensures Tally(counts, ev + [e]) == Bump(Tally(counts, ev), e)
  {
    assert (ev + [e])[..|ev|] == ev;
  }

  lemma {:induction false} TallyAppend(counts: seq<nat>, a: seq<nat>, b: seq<nat>)
    ensures Tally(counts, a + b) == Tally(Tally(counts, a), b)
  {
    if b == [] {
      assert a + b == a;
    } else {
      var front := b[..|b| - 1];
      TallyAppend(counts, a, front);
      assert a + b == (a + front) + [b[|b| - 1]];
      TallyStep(counts, a + front, b[|b| - 1]);
    }
  }

  /** Each bin holds its starting count plus the number of events that hit it. */
  lemma {:induction false} TallyCounts(counts: seq<nat>, ev: seq<nat>)
    ensures forall L :: 0 <= L < |counts| ==> Tally(counts, ev)[L] == counts[L] + multiset(ev)[L]
  {
    if ev != [] {
      var front := ev[..|ev| - 1];
      TallyCounts(counts, front);
      assert ev == front + [ev[|ev| - 1]];
      assert multiset(ev) == multiset(front) + multiset{ev[|ev| - 1]};
    }
  }

  lemma {:induction false} SumNatAppend(a: seq<nat>, b: seq<nat>)
    ensures SumNat(a + b) == SumNat(a) + SumNat(b)
  {
    if b != [] {
      SumNatAppend(a, b[..|b| - 1]);
      assert (a + b)[..|a + b| - 1] == a + b[..|b| - 1];
    } else {
      assert a + b == a;
    }
  }

  lemma {:induction false} SumNatBump(t: seq<nat>, e: nat)
    requires e < |t|
    ensures SumNat(t[e := t[e] + 1]) == SumNat(t) + 1
  {
    var n := |t|;
    if e < n - 1 {
      SumNatBump(t[..n - 1], e);
      assert t[e := t[e] + 1][..n - 1] == t[..n - 1][e := t[e] + 1];
    } else {
      assert t[e := t[e] + 1][..n - 1] == t[..n - 1];
    }
  }

  lemma {:induction false} WeightedSumBump(t: seq<nat>, e: nat)
    requires e < |t|
    ensures WeightedSum(t[e := t[e] + 1]) == WeightedSum(t) + e
  {
    var n := |t|;
    if e < n - 1 {
      WeightedSumBump(t[..n - 1], e);
      assert t[e := t[e] + 1][..n - 1] == t[..n - 1][e := t[e] + 1];
    } else {
      assert t[e := t[e] + 1][..n - 1] == t[..n - 1];
    }
  }

  /** With every event inside the histogram, the bins sum to the number of events. */
  lemma {:induction false} TallySum(counts: seq<nat>, ev: seq<nat>)
    requires forall k :: 0 <= k < |ev| ==> ev[k] < |counts|
    ensures SumNat(Tally(counts, ev)) == SumNat(counts) + |ev|
  {
    if ev != [] {
      TallySum(counts, ev[..|ev| - 1]);
      SumNatBump(Tally(counts, ev[..|ev| - 1]), ev[|ev| - 1]);
    }
  }

  /** With every event inside the histogram, `Σ L * counts[L]` grows by the sum of the
      events. */
  lemma {:induction false} TallyWeighted(counts: seq<nat>, ev: seq<nat>)
    requires forall k :: 0 <= k < |ev| ==> ev[k] < |counts|
    ensures WeightedSum(Tally(counts, ev)) == WeightedSum(counts) + SumNat(ev)
  {
    if ev != [] {
      TallyWeighted(counts, ev[..|ev| - 1]);
      WeightedSumBump(Tally(counts, ev[..|ev| - 1]), ev[|ev| - 1]);
    }
  }

  lemma {:induction false} WeightedSumZeroth(c: seq<nat>)
    requires |c| >= 1
    ensures WeightedSum(c[0 := 0]) == WeightedSum(c)
  {
    if |c| > 1 {
      WeightedSumZeroth(c[..|c| - 1]);
      assert c[0 := 0][..|c| - 1] == c[..|c| - 1][0 := 0];
    } else {
      assert c[0 := 0][..0] == c[..0];
    }
  }

  lemma {:induction false} SumNatZeros(n: nat)
    ensures SumNat(Zeros(n)) == 0 && WeightedSum(Zeros(n)) == 0
  {
    if n > 0 {
      SumNatZeros(n - 1);
      assert Zeros(n)[..n - 1] == Zeros(n - 1);
    }
  }

  // ---------------------------------------------------------------------------
  // np.split

  /** Python's slice `s[lo:hi]` for non-negative bounds: both are clamped to the length. */
  function Slice<T>(s: seq<T>, lo: nat, hi: nat): (r: seq<T>)
    ensures |r| <= |s|
  {
    var a: nat := Min(lo, |s|);
    var b: nat := Min(hi, |s|);
    if a <= b then s[a..b] else []
  }

  /** The slices between consecutive division points. */
  function Pieces<T>(s: seq<T>, cuts: seq<nat>): (r: seq<seq<T>>)
    requires |cuts| >= 1
    ensures |r| == |cuts| - 1 && forall k :: 0 <= k < |r| ==> |r[k]| <= |s|
  {
    if |cuts| == 1 then []
    else Pieces(s, cuts[..|cuts| - 1]) + [Slice(s, cuts[|cuts| - 2], cuts[|cuts| - 1])]
  }

  /** `np.split(s, indices)`: the division points are 0, the indices and the length. */
  function Split<T>(s: seq<T>, indices: seq<nat>): (r: seq<seq<T>>)
    ensures |r| == |indices| + 1 && forall k :: 0 <= k < |r| ==> |r[k]| <= |s|
  {
    Pieces(s, [0] + indices + [|s|])
  }

  function Concat<T>(parts: seq<seq<T>>): seq<T>
  {
    if parts == [] then [] else Concat(parts[..|parts| - 1]) + parts[|parts| - 1]
  }

  predicate NonDecreasing(s: seq<nat>)
  {
    forall i, j :: 0 <= i < j < |s| ==> s[i] <= s[j]
  }

  lemma SliceJoin<T>(s: seq<T>, a: nat, b: nat, c: nat)
    requires Min(a, |s|) <= Min(b, |s|) <= Min(c, |s|)
    ensures Slice(s, a, b) + Slice(s, b, c) == Slice(s, a, c)
  {
    var a', b', c' := Min(a, |s|), Min(b, |s|), Min(c, |s|);
    assert s[a'..b'] + s[b'..c'] == s[a'..c'];
  }

  lemma {:induction false} PiecesConcat<T>(s: seq<T>, cuts: seq<nat>)
    requires |cuts| >= 1
    requires forall i, j :: 0 <= i < j < |cuts| ==> Min(cuts[i], |s|) <= Min(cuts[j], |s|)
    ensures Concat(Pieces(s, cuts)) == Slice(s, cuts[0], cuts[|cuts| - 1])
  {
    var n := |cuts|;
    if n > 1 {
      var front := cuts[..n - 1];
      PiecesConcat(s, front);
      var parts := Pieces(s, cuts);
      assert parts[..|parts| - 1] == Pieces(s, front);
      SliceJoin(s, cuts[0], cuts[n - 2], cuts[n - 1]);
    }
  }

  /** With non-decreasing indices the pieces of `np.split` put together give the whole
      sequence back. */
  lemma SplitCovers<T>(s: seq<T>, indices: seq<nat>)
    requires NonDecreasing(indices)
    ensures Concat(Split(s, indices)) == s
  {
    var cuts := [0] + indices + [|s|];
    forall i, j | 0 <= i < j < |cuts| ensures Min(cuts[i], |s|) <= Min(cuts[j], |s|) {
      if 0 < i && j < |cuts| - 1 {
        assert cuts[i] == indices[i - 1] && cuts[j] == indices[j - 1];
      }
    }
    PiecesConcat(s, cuts);
    assert s[0..|s|] == s;
  }

  // ---------------------------------------------------------------------------
  // Run lengths (`count_clusters`)

  /** The length of the run of ones at the end of `b`. */
  function Trailing(b: seq<int>): (r: nat)
    ensures r <= |b|
  {
    if b == [] then 0 else if b[|b| - 1] == 1 then Trailing(b[..|b| - 1]) + 1 else 0
  }

  /** What a scan of `b` records before its end: at every seat that is not 1, the length of
      the run of ones it closes (0 when there is none). */
  function Closed(b: seq<int>): (r: seq<nat>)
    ensures forall k :: 0 <= k < |r| ==> r[k] <= |b|
  {
    if b == [] then []
    else Closed(b[..|b| - 1]) + (if b[|b| - 1] == 1 then [] else [Trailing(b[..|b| - 1])])
  }

  /** The run lengths a block records: every run closed by a seat that is not 1, then the
      run reaching the block's end. */
  function BlockRuns(b: seq<int>): (r: seq<nat>)
    ensures forall k :: 0 <= k < |r| ==> r[k] <= |b|
  {
    Closed(b) + [Trailing(b)]
  }

  function RunsOf(blocks: seq<seq<int>>): seq<nat>
  {
    if blocks == [] then [] else RunsOf(blocks[..|blocks| - 1]) + BlockRuns(blocks[|blocks| - 1])
  }

  /** The run lengths recorded over every row, each split at the aisles. */
  function GridRuns(rows: seq<seq<int>>, aisles: seq<nat>): seq<nat>
  {
    if rows == [] then [] else GridRuns(rows[..|rows| - 1], aisles) + RunsOf(Split(rows[|rows| - 1], aisles))
  }

  /** The result of `count_clusters`: the histogram of recorded run lengths with bin 0
      cleared. */
  function ClusterCounts(state: Grid<int>, aisles: seq<nat>): seq<nat>
    requires state.Valid()
  {
    Tally(Zeros(state.cols + 1), GridRuns(state.cells, aisles))[0 := 0]
  }

  function Ones(b: seq<int>): nat
  {
    if b == [] then 0 else Ones(b[..|b| - 1]) + (if b[|b| - 1] == 1 then 1 else 0)
  }

  function GridOnes(rows: seq<seq<int>>): nat
  {
    if rows == [] then 0 else GridOnes(rows[..|rows| - 1]) + Ones(rows[|rows| - 1])
  }

  lemma {:induction false} OnesAppend(a: seq<int>, b: seq<int>)
    ensures Ones(a + b) == Ones(a) + Ones(b)
  {
    if b != [] {
      OnesAppend(a, b[..|b| - 1]);
      assert (a + b)[..|a + b| - 1] == a + b[..|b| - 1];
    } else {
      assert a + b == a;
    }
  }

  lemma {:induction false} ClosedAndTrailing(b: seq<int>)
    ensures SumNat(Closed(b)) + Trailing(b) == Ones(b)
  {
    if b != [] {
      var front := b[..|b| - 1];
      ClosedAndTrailing(front);
      if b[|b| - 1] != 1 {
        SumNatAppend(Closed(front), [Trailing(front)]);
        assert SumNat([Trailing(front)]) == Trailing(front);
      } else {
        assert Closed(b) == Closed(front);
      }
    }
  }

  /** The runs a block records add up to its ones. */
  lemma BlockRunsCoverOnes(b: seq<int>)
    ensures SumNat(BlockRuns(b)) == Ones(b)
  {
    ClosedAndTrailing(b);
    SumNatAppend(Closed(b), [Trailing(b)]);
    assert SumNat([Trailing(b)]) == Trailing(b);
  }

  lemma {:induction false} RunsOfCoverOnes(blocks: seq<seq<int>>)
    ensures SumNat(RunsOf(blocks)) == Ones(Concat(blocks))
  {
    if blocks != [] {
      var front := blocks[..|blocks| - 1];
      RunsOfCoverOnes(front);
      SumNatAppend(RunsOf(front), BlockRuns(blocks[|blocks| - 1]));
      BlockRunsCoverOnes(blocks[|blocks| - 1]);
      OnesAppend(Concat(front), blocks[|blocks| - 1]);
    }
  }

  lemma {:induction false} GridRunsCoverOnes(rows: seq<seq<int>>, aisles: seq<nat>)
    requires NonDecreasing(aisles)
    ensures SumNat(GridRuns(rows, aisles)) == GridOnes(rows)
  {
    if rows != [] {
      var front := rows[..|rows| - 1];
      var last := rows[|rows| - 1];
      GridRunsCoverOnes(front, aisles);
      SumNatAppend(GridRuns(front, aisles), RunsOf(Split(last, aisles)));
      RunsOfCoverOnes(Split(last, aisles));
      SplitCovers(last, aisles);
    }
  }

  lemma {:induction false} RunsOfBounded(blocks: seq<seq<int>>, n: nat)
    requires forall k :: 0 <= k < |blocks| ==> |blocks[k]| <= n
    ensures forall k :: 0 <= k < |RunsOf(blocks)| ==> RunsOf(blocks)[k] <= n
  {
    if blocks != [] {
      RunsOfBounded(blocks[..|blocks| - 1], n);
    }
  }

  lemma {:induction false} GridRunsBounded(rows: seq<seq<int>>, aisles: seq<nat>, n: nat)
    requires forall k :: 0 <= k < |rows| ==> |rows[k]| == n
    ensures forall k :: 0 <= k < |GridRuns(rows, aisles)| ==> GridRuns(rows, aisles)[k] <= n
  {
    if rows != [] {
      GridRunsBounded(rows[..|rows| - 1], aisles, n);
      RunsOfBounded(Split(rows[|rows| - 1], aisles), n);
    }
  }

  /** `b[i..i+L]` is a non-empty run of ones that cannot be extended on either side. */
  predicate MaximalRun(b: seq<int>, i: int, L: int)
  {
    && 0 <= i && 1 <= L && i + L <= |b|
    && (forall k :: i <= k < i + L ==> b[k] == 1)
    && (i == 0 || b[i - 1] != 1)
    && (i + L == |b| || b[i + L] != 1)
  }

  /** The start positions of the maximal runs of length `L` in `b`. */
  function MaximalRuns(b: seq<int>, L: int): set<int>
  {
    set i | 0 <= i <= |b| - L && MaximalRun(b, i, L)
  }

  /** The number of maximal runs of length `L` inside the blocks. */
  function BlocksRunCount(blocks: seq<seq<int>>, L: int): nat
  {
    if blocks == [] then 0 else BlocksRunCount(blocks[..|blocks| - 1], L) + |MaximalRuns(blocks[|blocks| - 1], L)|
  }

  /** The number of maximal runs of length `L` inside the blocks of every row. */
  function GridRunCount(rows: seq<seq<int>>, aisles: seq<nat>, L: int): nat
  {
    if rows == [] then 0 else GridRunCount(rows[..|rows| - 1], aisles, L) + BlocksRunCount(Split(rows[|rows| - 1], aisles), L)
  }

  /** The trailing ones of `b` are ones, and the seat before them is not a 1. */
  lemma {:induction false} TrailingMeaning(b: seq<int>)
    ensures forall k :: |b| - Trailing(b) <= k < |b| ==> b[k] == 1
    ensures Trailing(b) < |b| ==> b[|b| - Trailing(b) - 1] != 1
  {
    if b != [] && b[|b| - 1] == 1 {
      var front := b[..|b| - 1];
      TrailingMeaning(front);
      forall k | |b| - Trailing(b) <= k < |b| - 1 ensures b[k] == 1 {
        assert b[k] == front[k];
      }
      if Trailing(b) < |b| {
        assert b[|b| - Trailing(b) - 1] == front[|front| - Trailing(front) - 1];
      }
    }
  }

  /** The trailing run has length `L` exactly when a maximal run of length `L` ends `b`. */
  lemma TrailingIsMaximalRun(b: seq<int>, L: int)
    requires L >= 1
    ensures Trailing(b) == L <==> MaximalRun(b, |b| - L, L)
  {
    TrailingMeaning(b);
  }

  /** A run that ends two or more seats before the end is maximal in `b` exactly when it is
      maximal in `b` without its last seat. */
  lemma MaximalRunInFront(b: seq<int>, i: int, L: int)
    requires b != [] && 0 <= i && 1 <= L && i + L < |b| - 1
    ensures MaximalRun(b, i, L) <==> MaximalRun(b[..|b| - 1], i, L)
  {
    var front := b[..|b| - 1];
    assert b[i + L] == front[i + L];
    if i > 0 {
      assert b[i - 1] == front[i - 1];
    }
    assert forall k :: i <= k < i + L ==> b[k] == front[k];
  }

  /** A run that ends just before the last seat is maximal in `b` exactly when that seat is
      not 1 and the run ends `b` without its last seat as a maximal run. */
  lemma MaximalRunBeforeLast(b: seq<int>, i: int, L: int)
    requires b != [] && 0 <= i && 1 <= L && i + L == |b| - 1
    ensures MaximalRun(b, i, L) <==> b[|b| - 1] != 1 && MaximalRun(b[..|b| - 1], i, L)
  {
    var front := b[..|b| - 1];
    if i > 0 {
      assert b[i - 1] == front[i - 1];
    }
    assert forall k :: i <= k < i + L ==> b[k] == front[k];
  }

  /** Every run the scan closes before the end of `b` is a maximal run followed by a seat
      that is not 1, and every such run is closed once. */
  lemma {:induction false} ClosedAreMaximalRuns(b: seq<int>, L: int)
    requires L >= 1
    ensures multiset(Closed(b))[L] == |ClosedRuns(b, L)|
  {
    if b == [] {
      assert ClosedRuns(b, L) == {};
    } else {
      var front := b[..|b| - 1];
      ClosedAreMaximalRuns(front, L);
      ClosedRunsStep(b, L);
      if b[|b| - 1] != 1 {
        assert multiset(Closed(b)) == multiset(Closed(front)) + multiset{Trailing(front)};
      }
    }
  }

  /** The start positions of the maximal runs of length `L` followed by a seat of `b`. */
  function ClosedRuns(b: seq<int>, L: int): set<int>
  {
    set i | 0 <= i < |b| - L && MaximalRun(b, i, L)
  }

  /** One more seat adds a closed run of length `L` exactly when it is not 1 and the trailing
      run before it has length `L`. */
  lemma ClosedRunsStep(b: seq<int>, L: int)
    requires b != [] && L >= 1
    ensures var front := b[..|b| - 1];
            |ClosedRuns(b, L)| == |ClosedRuns(front, L)| + (if b[|b| - 1] != 1 && Trailing(front) == L then 1 else 0)
  {
    var front := b[..|b| - 1];
    var j := |front| - L;
    forall i | 0 <= i < j ensures MaximalRun(b, i, L) <==> MaximalRun(front, i, L) {
      MaximalRunInFront(b, i, L);
    }
    TrailingIsMaximalRun(front, L);
    if j >= 0 {
      MaximalRunBeforeLast(b, j, L);
    }
    if b[|b| - 1] != 1 && Trailing(front) == L {
      assert ClosedRuns(b, L) == ClosedRuns(front, L) + {j};
    } else {
      assert ClosedRuns(b, L) == ClosedRuns(front, L);
    }
  }

  /** The runs a block records of length `L >= 1` are exactly its maximal runs of length
      `L`. */
  lemma BlockRunsAreMaximalRuns(b: seq<int>, L: int)
    requires L >= 1
    ensures multiset(BlockRuns(b))[L] == |MaximalRuns(b, L)|
  {
    ClosedAreMaximalRuns(b, L);
    MaximalRunsSplit(b, L);
    assert multiset(BlockRuns(b)) == multiset(Closed(b)) + multiset{Trailing(b)};
  }

  /** The maximal runs of `b` are the closed ones and, when it has length `L`, the trailing
      one. */
  lemma MaximalRunsSplit(b: seq<int>, L: int)
    requires L >= 1
    ensures |MaximalRuns(b, L)| == |ClosedRuns(b, L)| + (if Trailing(b) == L then 1 else 0)
  {
    TrailingIsMaximalRun(b, L);
    forall i ensures i in MaximalRuns(b, L) <==> i in ClosedRuns(b, L) || (i == |b| - L && Trailing(b) == L) {
    }
    if Trailing(b) == L {
      assert MaximalRuns(b, L) == ClosedRuns(b, L) + {|b| - L};
    } else {
      assert MaximalRuns(b, L) == ClosedRuns(b, L);
    }
  }

  /** Over a row's blocks, the recorded runs of length `L >= 1` are the maximal runs. */
  lemma {:induction false} RunsOfAreMaximalRuns(blocks: seq<seq<int>>, L: int)
    requires L >= 1
    ensures multiset(RunsOf(blocks))[L] == BlocksRunCount(blocks, L)
  {
    if blocks != [] {
      RunsOfAreMaximalRuns(blocks[..|blocks| - 1], L);
      BlockRunsAreMaximalRuns(blocks[|blocks| - 1], L);
    }
  }

  /** Over every row, the recorded runs of length `L >= 1` are the maximal runs. */
  lemma {:induction false} GridRunsAreMaximalRuns(rows: seq<seq<int>>, aisles: seq<nat>, L: int)
    requires L >= 1
    ensures multiset(GridRuns(rows, aisles))[L] == GridRunCount(rows, aisles, L)
  {
    if rows != [] {
      GridRunsAreMaximalRuns(rows[..|rows| - 1], aisles, L);
      RunsOfAreMaximalRuns(Split(rows[|rows| - 1], aisles), L);
    }
  }

  /** `count_clusters` has one bin per possible run length 0..cols with bin 0 cleared, and
      bin `L` counts the recorded runs of length `L`, which are exactly the maximal runs of
      ones of length `L` inside the blocks. */
  lemma ClusterCountsAreRuns(state: Grid<int>, aisles: seq<nat>)
    requires state.Valid()
    ensures |ClusterCounts(state, aisles)| == state.cols + 1
    ensures ClusterCounts(state, aisles)[0] == 0
    ensures forall L :: 1 <= L <= state.cols ==> ClusterCounts(state, aisles)[L] == multiset(GridRuns(state.cells, aisles))[L]
    ensures forall L :: 1 <= L <= state.cols ==> ClusterCounts(state, aisles)[L] == GridRunCount(state.cells, aisles, L)
  {
    var runs: seq<nat> := GridRuns(state.cells, aisles);
    var t := Tally(Zeros(state.cols + 1), runs);
    TallyCounts(Zeros(state.cols + 1), runs);
    assert ClusterCounts(state, aisles) == t[0 := 0];
    forall L: nat | 1 <= L <= state.cols ensures ClusterCounts(state, aisles)[L] == multiset(runs)[L] {
      assert t[L] == Zeros(state.cols + 1)[L] + multiset(runs)[L];
    }
    forall L: nat | 1 <= L <= state.cols ensures multiset(runs)[L] == GridRunCount(state.cells, aisles, L) {
      GridRunsAreMaximalRuns(state.cells, aisles, L);
    }
  }

  /** With non-decreasing aisle indices, `Σ L * counts[L]` is the number of ones in the
      state: every seated student belongs to exactly one run. */
  lemma ClusterCountsCoverOnes(state: Grid<int>, aisles: seq<nat>)
    requires state.Valid() && NonDecreasing(aisles)
    ensures WeightedSum(ClusterCounts(state, aisles)) == GridOnes(state.cells)
  {
    var ev := GridRuns(state.cells, aisles);
    GridRunsBounded(state.cells, aisles, state.cols);
    TallyWeighted(Zeros(state.cols + 1), ev);
    SumNatZeros(state.cols + 1);
    WeightedSumZeroth(Tally(Zeros(state.cols + 1), ev));
    GridRunsCoverOnes(state.cells, aisles);
  }

  /** Scanning one more seat: a 1 extends the trailing run, anything else closes it. */
  lemma ScanSeat(block: seq<int>, j: nat)
    requires j < |block|
    ensures Trailing(block[..j + 1]) == if block[j] == 1 then Trailing(block[..j]) + 1 else 0
    ensures Closed(block[..j + 1]) == if block[j] == 1 then Closed(block[..j]) else Closed(block[..j]) + [Trailing(block[..j])]
  {
    assert block[..j + 1][..j] == block[..j];
    assert block[..j + 1][j] == block[j];
  }

  /** The inner loop of `count_clusters` over one block. */
  method ScanBlock(counts: seq<nat>, block: seq<int>) returns (r: seq<nat>)
    requires |block| < |counts|
    ensures r == Tally(counts, BlockRuns(block))
  {
    r := counts;
    var c := 0;
    for j := 0 to |block|
      invariant c == Trailing(block[..j])
      invariant r == Tally(counts, Closed(block[..j]))
    {
      ScanSeat(block, j);
      if block[j] == 1 {
        c := c + 1;
      } else {
        TallyStep(counts, Closed(block[..j]), c);
        r := Bump(r, c);
        c := 0;
      }
    }
    assert block[..|block|] == block;
    TallyStep(counts, Closed(block), c);
    r := Bump(r, c);
  }

  /** The loop over the blocks of one row. */
  method ScanRow(counts: seq<nat>, row: seq<int>, aisles: seq<nat>) returns (r: seq<nat>)
    requires |row| < |counts|
    ensures r == Tally(counts, RunsOf(Split(row, aisles)))
  {
    var blocks := Split(row, aisles);
    r := counts;
    for b := 0 to |blocks|
      invariant r == Tally(counts, RunsOf(blocks[..b]))
    {
      assert blocks[..b + 1][..b] == blocks[..b];
      TallyAppend(counts, RunsOf(blocks[..b]), BlockRuns(blocks[b]));
      r := ScanBlock(r, blocks[b]);
    }
    assert blocks[..|blocks|] == blocks;
  }

  /** `count_clusters(model_state, aisles)`. */
  method CountClusters(state: Grid<int>, aisles: seq<nat>) returns (counts: seq<nat>)
    requires state.Valid()
    ensures counts == ClusterCounts(state, aisles)
    ensures |counts| == state.cols + 1 && counts[0] == 0
  {
    counts := Zeros(state.cols + 1);
    for i := 0 to state.rows
      invariant counts == Tally(Zeros(state.cols + 1), GridRuns(state.cells[..i], aisles))
    {
      TallyNextRow(state, aisles, i);
      counts := ScanRow(counts, state.cells[i], aisles);
    }
    assert state.cells[..state.rows] == state.cells;
    counts := counts[0 := 0];
  }

  /** Tallying one more row adds the runs of its blocks. */
  lemma TallyNextRow(state: Grid<int>, aisles: seq<nat>, i: nat)
    requires state.Valid() && i < state.rows
    ensures |state.cells[i]| < state.cols + 1
    ensures Tally(Zeros(state.cols + 1), GridRuns(state.cells[..i + 1], aisles))
         == Tally(Tally(Zeros(state.cols + 1), GridRuns(state.cells[..i], aisles)), RunsOf(Split(state.cells[i], aisles)))
  {
    assert state.cells[..i + 1][..i] == state.cells[..i];
    TallyAppend(Zeros(state.cols + 1), GridRuns(state.cells[..i], aisles), RunsOf(Split(state.cells[i], aisles)));
  }

  // ---------------------------------------------------------------------------
  // Local binary patterns (`count_lbp`)

  /** The neighbour offsets, clockwise from the upper left (`i_deltas`, `j_deltas`). */
  const RowDeltas: seq<int> := [-1, -1, -1, 0, 1, 1, 1, 0]
  const ColumnDeltas: seq<int> := [-1, 0, 1, 1, 1, 0, -1, -1]

  function Pow2(k: nat): nat
  {
    if k == 0 then 1 else 2 * Pow2(k - 1)
  }

  /** Every entry is 0 or 1. */
  predicate Binary(g: Grid<int>)
  {
    g.Valid() && forall i, j :: 0 <= i < g.rows && 0 <= j < g.cols ==> g.cells[i][j] == 0 || g.cells[i][j] == 1
  }

  predicate Interior(g: Grid<int>, i: int, j: int)
  {
    1 <= i < g.rows - 1 && 1 <= j < g.cols - 1
  }

  /** The first `k` neighbours of interior cell `(i, j)` as binary digits. */
  function PartialCode(g: Grid<int>, i: int, j: int, k: nat): (r: int)
    requires g.Valid() && Interior(g, i, j) && k <= 8
    ensures Binary(g) ==> 0 <= r < Pow2(k)
  {
    if k == 0 then 0
    else PartialCode(g, i, j, k - 1) + g.cells[i + RowDeltas[k - 1]][j + ColumnDeltas[k - 1]] * Pow2(k - 1)
  }

  /** The pattern code of interior cell `(i, j)` of a binary state, in [0, 255]. */
  function LbpCode(g: Grid<int>, i: int, j: int): (r: nat)
    requires Binary(g) && Interior(g, i, j)
    ensures r < 256
  {
    PartialCode(g, i, j, 8)
  }

  /** The codes of cells `(i, 1)` to `(i, n)`. */
  function RowCodes(g: Grid<int>, i: int, n: nat): (r: seq<nat>)
    requires Binary(g) && 1 <= i < g.rows - 1 && n <= InteriorWidth(g)
    ensures |r| == n && forall k :: 0 <= k < n ==> r[k] < 256
  {
    if n == 0 then [] else RowCodes(g, i, n - 1) + [LbpCode(g, i, n)]
  }

  function InteriorWidth(g: Grid<int>): nat
  {
    if g.cols >= 2 then g.cols - 2 else 0
  }

  /** The codes of the interior rows 1 to `m`, row by row. */
  function LbpCodes(g: Grid<int>, m: nat): (r: seq<nat>)
    requires Binary(g) && m <= InteriorHeight(g)
    ensures |r| == m * InteriorWidth(g)
    ensures forall k :: 0 <= k < |r| ==> r[k] < 256
  {
    if m == 0 then [] else LbpCodes(g, m - 1) + RowCodes(g, m, InteriorWidth(g))
  }

  function InteriorHeight(g: Grid<int>): nat
  {
    if g.rows >= 2 then g.rows - 2 else 0
  }

  /** The result of `count_lbp`. */
  function LbpCounts(g: Grid<int>): seq<nat>
    requires Binary(g)
  {
    Tally(Zeros(256), LbpCodes(g, InteriorHeight(g)))
  }

  /** `count_lbp` has 256 bins; bin `v` counts the interior cells whose code is `v`, and the
      bins add up to the number of interior cells. */
  lemma LbpCountsAreCodes(g: Grid<int>)
    requires Binary(g)
    ensures |LbpCounts(g)| == 256
    ensures forall v :: 0 <= v < 256 ==> LbpCounts(g)[v] == multiset(LbpCodes(g, InteriorHeight(g)))[v]
    ensures SumNat(LbpCounts(g)) == InteriorHeight(g) * InteriorWidth(g)
  {
    var codes := LbpCodes(g, InteriorHeight(g));
    TallyCounts(Zeros(256), codes);
    TallySum(Zeros(256), codes);
    SumNatZeros(256);
  }

  /** The eight-neighbour loop of `count_lbp` for interior cell `(i, j)`. */
  method CodeAt(g: Grid<int>, i: int, j: int) returns (dec: nat)
    requires Binary(g) && Interior(g, i, j)
    ensures dec == LbpCode(g, i, j)
  {
    var d := 0;
    for k := 0 to 8
      invariant d == PartialCode(g, i, j, k)
    {
      d := d + g.cells[i + RowDeltas[k]][j + ColumnDeltas[k]] * Pow2(k);
    }
    dec := d;
  }

  /** The loop of `count_lbp` over the interior cells of row `i`. */
  method ScanCodes(counts: seq<nat>, g: Grid<int>, i: int) returns (r: seq<nat>)
    requires Binary(g) && 1 <= i < g.rows - 1 && |counts| == 256
    ensures r == Tally(counts, RowCodes(g, i, InteriorWidth(g)))
  {
    r := counts;
    for j := 1 to InteriorWidth(g) + 1
      invariant r == Tally(counts, RowCodes(g, i, j - 1))
    {
      var dec := CodeAt(g, i, j);
      TallyNextCode(counts, g, i, j);
      r := Bump(r, dec);
    }
  }

  /** Tallying one more cell of the row bumps the bin of its code. */
  lemma TallyNextCode(counts: seq<nat>, g: Grid<int>, i: int, j: nat)
    requires Binary(g) && 1 <= i < g.rows - 1 && 1 <= j <= InteriorWidth(g) && |counts| == 256
    ensures Interior(g, i, j)
    ensures Tally(counts, RowCodes(g, i, j)) == Bump(Tally(counts, RowCodes(g, i, j - 1)), LbpCode(g, i, j))
  {
    assert RowCodes(g, i, j) == RowCodes(g, i, j - 1) + [LbpCode(g, i, j)];
    TallyStep(counts, RowCodes(g, i, j - 1), LbpCode(g, i, j));
  }

  /** `count_lbp(model_state)`. */
  method CountLbp(g: Grid<int>) returns (counts: seq<nat>)
    requires Binary(g)
    ensures counts == LbpCounts(g)
    ensures |counts| == 256
  {
    counts := Zeros(256);
    var i := 1;
    while i < g.rows - 1
      invariant 1 <= i <= InteriorHeight(g) + 1
      invariant counts == Tally(Zeros(256), LbpCodes(g, i - 1))
    {
      TallyAppend(Zeros(256), LbpCodes(g, i - 1), RowCodes(g, i, InteriorWidth(g)));
      counts := ScanCodes(counts, g, i);
      i := i + 1;
    }
  }

  // ---------------------------------------------------------------------------
  // Aisle re-insertion (`insert_aisles`)

  /** `np.concatenate` of a column of `v` at the right end. */
  function AppendColumn<T>(g: Grid<T>, v: T): (r: Grid<T>)
    requires g.Valid()
    ensures r.Valid() && r.rows == g.rows && r.cols == g.cols + 1
  {
    Grid(g.rows, g.cols + 1, seq(g.rows, i requires 0 <= i < g.rows => g.cells[i] + [v]))
  }

  /** `insert_aisles(model_state, aisles, value)`: one column of `value` per aisle, inserted
      at the aisle index or appended past the end. With increasing aisles that fit, deleting
      the aisle columns gives the state back and every aisle column holds `value`. */
  method InsertAisles<T>(state: Grid<T>, aisles: seq<nat>, value: T) returns (r: Grid<T>)
    requires state.Valid()
    ensures r == InsertColumns(state, aisles, value)
    ensures r.Valid() && r.rows == state.rows && r.cols == state.cols + |aisles|
    ensures StrictlyIncreasing(aisles) && InsertableInto(aisles, state.cols) ==>
              DeleteColumns(r, SetOf(aisles)) == state
    ensures StrictlyIncreasing(aisles) && InsertableInto(aisles, state.cols) ==>
              forall i, k :: 0 <= i < r.rows && 0 <= k < |aisles| ==> aisles[k] < r.cols && r.cells[i][aisles[k]] == value
  {
    r := state;
    for k := 0 to |aisles|
      invariant r == InsertColumns(state, aisles[..k], value)
    {
      assert aisles[..k + 1][..k] == aisles[..k];
      if aisles[k] < r.cols {
        r := InsertColumn(r, aisles[k], value);
      } else {
        assert AppendColumn(r, value) == InsertColumn(r, aisles[k], value);
        r := AppendColumn(r, value);
      }
    }
    assert aisles[..|aisles|] == aisles;
    if StrictlyIncreasing(aisles) && InsertableInto(aisles, state.cols) {
      DeleteColumnsAfterInsert(state, aisles, value);
    }
  }

  // ---------------------------------------------------------------------------
  // Mean square error (`calculate_mse`)

  /** The squared differences over the first `n` pairs. */
  function SquaredError(a: seq<real>, b: seq<real>, n: nat): real
    requires n <= |a| && n <= |b|
  {
    if n == 0 then 0.0 else SquaredError(a, b, n - 1) + (a[n - 1] - b[n - 1]) * (a[n - 1] - b[n - 1])
  }

  /** `calculate_mse`: the squared error over the common prefix over its length; two empty
      inputs divide zero by zero. */
  function Mse(a: seq<real>, b: seq<real>): Result<real>
  {
    var n := Min(|a|, |b|);
    if n == 0 then Failure(ZeroDivisionError) else Success(SquaredError(a, b, n) / (n as real))
  }

  method CalculateMse(a: seq<real>, b: seq<real>) returns (r: Result<real>)
    ensures r == Mse(a, b)
  {
    var mse := 0.0;
    var n := Min(|a|, |b|);
    for i := 0 to n
      invariant mse == SquaredError(a, b, i)
    {
      mse := mse + (a[i] - b[i]) * (a[i] - b[i]);
    }
    if n == 0 {
      return Failure(ZeroDivisionError);
    }
    r := Success(mse / (n as real));
  }

  lemma NegativeProduct(x: real, y: real)
    requires x < 0.0 && y < 0.0
    ensures x * y > 0.0
  {
  }

  lemma SquareSign(d: real)
    ensures d != 0.0 ==> d * d > 0.0
    ensures d == 0.0 ==> d * d == 0.0
  {
    if d > 0.0 {
      assert d * d > 0.0 * d;
    } else if d < 0.0 {
      NegativeProduct(d, d);
    }
  }

  lemma {:induction false} SquaredErrorFacts(a: seq<real>, b: seq<real>, n: nat)
    requires n <= |a| && n <= |b|
    ensures SquaredError(a, b, n) >= 0.0
    ensures SquaredError(a, b, n) == SquaredError(b, a, n)
    ensures SquaredError(a, b, n) == 0.0 <==> a[..n] == b[..n]
  {
    if n > 0 {
      SquaredErrorFacts(a, b, n - 1);
      var d := a[n - 1] - b[n - 1];
      assert d * d == (b[n - 1] - a[n - 1]) * (b[n - 1] - a[n - 1]);
      SquareSign(d);
      assert SquaredError(a, b, n) == SquaredError(a, b, n - 1) + d * d;
      assert a[..n] == a[..n - 1] + [a[n - 1]] && b[..n] == b[..n - 1] + [b[n - 1]];
      if a[..n] == b[..n] {
        assert a[..n - 1] == a[..n][..n - 1];
        assert b[..n - 1] == b[..n][..n - 1];
        assert a[n - 1] == a[..n][n - 1] && b[n - 1] == b[..n][n - 1];
      } else if a[..n - 1] == b[..n - 1] {
        assert d != 0.0;
        calc {
          SquaredError(a, b, n);
          SquaredError(a, b, n - 1) + d * d;
          d * d;
        > 0.0;
        }
      }
    }
  }

  /** The mean square error fails exactly when one input is empty; otherwise it is
      non-negative, symmetric, and zero exactly when the common prefixes agree. */
  lemma MseFacts(a: seq<real>, b: seq<real>)
    ensures Mse(a, b).Failure? <==> |a| == 0 || |b| == 0
    ensures Mse(a, b) == Mse(b, a)
    ensures Mse(a, b).Success? ==> Mse(a, b).value >= 0.0
    ensures Mse(a, b) == Success(0.0) <==> Min(|a|, |b|) > 0 && a[..Min(|a|, |b|)] == b[..Min(|a|, |b|)]
  {
    var n := Min(|a|, |b|);
    SquaredErrorFacts(a, b, n);
    if n > 0 {
      assert SquaredError(a, b, n) / (n as real) == 0.0 <==> SquaredError(a, b, n) == 0.0;
    }
  }
}
