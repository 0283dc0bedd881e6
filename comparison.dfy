/** Comparing seating snapshots and summarising them (model_comparison.py:169-304):
    run-length characteristics, the pairwise comparison of two snapshots and the mean
    profile of a set of classroom models. */
module Comparison {
  import opened Basics
  import opened Splice
  import opened Design
  import opened Seats
  import opened Classroom
  import opened Patterns

  // ---------------------------------------------------------------------------
  // Characteristic values (`get_characteristic_value`)

  /** A floating-point result: a number, or the NaN numpy gives for zero over zero. */
  datatype Measure = Number(value: real) | NaN

  /** `Σ counts[L]²`. */
  function SumSquares(c: seq<nat>): nat
  {
    if c == [] then 0 else SumSquares(c[..|c| - 1]) + c[|c| - 1] * c[|c| - 1]
  }

  /** `Σ counts[L] * L²`. */
  function SumLongRuns(c: seq<nat>): nat
  {
    if c == [] then 0 else SumLongRuns(c[..|c| - 1]) + c[|c| - 1] * ((|c| - 1) * (|c| - 1))
  }

  /** A float division of two counts. */
  function Ratio(num: nat, den: nat): Measure
  {
    if den == 0 then NaN else Number(num as real / den as real)
  }

  /** Run-length non-uniformity of a run-length histogram. */
  function NonUniformity(counts: seq<nat>): Measure
  {
    Ratio(SumSquares(counts), SumNat(counts))
  }

  /** Long-run emphasis of a run-length histogram. */
  function LongRunEmphasis(counts: seq<nat>): Measure
  {
    Ratio(SumLongRuns(counts), SumNat(counts))
  }

  /** The four characteristic values by name; any other name is an error. The two
      co-occurrence features come from an image library and are parameters here. */
  function CharacteristicValue(state: Grid<int>, name: string, aisles: seq<nat>,
                               homogeneity: Grid<int> -> Measure, correlation: Grid<int> -> Measure): Result<Measure>
    requires state.Valid()
  {
    if name == "homogeneity" then Success(homogeneity(state))
    else if name == "correlation" then Success(correlation(state))
    else if name == "rl_nonuniformity" then Success(NonUniformity(ClusterCounts(state, aisles)))
    else if name == "rl_long_run_emphasis" then Success(LongRunEmphasis(ClusterCounts(state, aisles)))
    else Failure(ValueError("No valid method name."))
  }

  /** `get_characteristic_value(model_state, method, aisles)`. */
  method GetCharacteristicValue(state: Grid<int>, name: string, aisles: seq<nat>,
                                homogeneity: Grid<int> -> Measure, correlation: Grid<int> -> Measure)
    returns (r: Result<Measure>)
    requires state.Valid()
    ensures r == CharacteristicValue(state, name, aisles, homogeneity, correlation)
    ensures r.Failure? <==> name !in {"homogeneity", "correlation", "rl_nonuniformity", "rl_long_run_emphasis"}
  {
    if name == "homogeneity" {
      r := Success(homogeneity(state));
    } else if name == "correlation" {
      r := Success(correlation(state));
    } else if name == "rl_nonuniformity" {
      var runLengths := CountClusters(state, aisles);
      r := Success(NonUniformity(runLengths));
    } else if name == "rl_long_run_emphasis" {
      var runLengths := CountClusters(state, aisles);
      r := Success(LongRunEmphasis(runLengths));
    } else {
      r := Failure(ValueError("No valid method name."));
    }
  }

  lemma {:induction false} SumSquaresAtLeastRuns(c: seq<nat>)
    ensures SumSquares(c) >= SumNat(c)
  {
    if c != [] {
      SumSquaresAtLeastRuns(c[..|c| - 1]);
      var x := c[|c| - 1];
      assert x * x >= x by {
        if x > 0 {
          assert x * x >= 1 * x;
        }
      }
    }
  }

  /** Every bin but the first weighs at least one. */
  lemma {:induction false} SumLongRunsAtLeastRuns(c: seq<nat>)
    requires |c| >= 1
    ensures SumLongRuns(c) + c[0] >= SumNat(c)
  {
    var n := |c|;
    if n == 1 {
      assert c[..0] == [];
    } else {
      SumLongRunsAtLeastRuns(c[..n - 1]);
      var x := c[n - 1];
      assert (n - 1) * (n - 1) >= 1;
      assert x * ((n - 1) * (n - 1)) >= x * 1;
    }
  }

  /** `Σ L * counts[L]` is zero when the histogram is, and at least the number of runs
      outside bin 0. */
  lemma {:induction false} WeightedSumAtLeastRuns(c: seq<nat>)
    requires |c| >= 1
    ensures WeightedSum(c) + c[0] >= SumNat(c)
    ensures SumNat(c) == 0 ==> WeightedSum(c) == 0
  {
    var n := |c|;
    if n == 1 {
      assert c[..0] == [];
    } else {
      WeightedSumAtLeastRuns(c[..n - 1]);
      var x := c[n - 1];
      assert (n - 1) * x >= 1 * x;
    }
  }

  lemma RatioAtLeastOne(num: nat, den: nat)
    requires 0 < den <= num
    ensures num as real / den as real >= 1.0
  {
    var q := num as real / den as real;
    assert q * (den as real) == num as real;
    if q < 1.0 {
      calc {
        num as real;
        q * (den as real);
      < { assert (1.0 - q) * (den as real) > 0.0; }
        den as real;
      }
    }
  }

  /** Both run-length characteristics are NaN exactly when no student is seated, and
      otherwise at least 1 (every run has length at least 1 because bin 0 is cleared). */
  lemma RunLengthCharacteristics(state: Grid<int>, aisles: seq<nat>)
    requires state.Valid() && NonDecreasing(aisles)
    ensures NonUniformity(ClusterCounts(state, aisles)).NaN? <==> GridOnes(state.cells) == 0
    ensures LongRunEmphasis(ClusterCounts(state, aisles)).NaN? <==> GridOnes(state.cells) == 0
    ensures NonUniformity(ClusterCounts(state, aisles)).Number? ==> NonUniformity(ClusterCounts(state, aisles)).value >= 1.0
    ensures LongRunEmphasis(ClusterCounts(state, aisles)).Number? ==> LongRunEmphasis(ClusterCounts(state, aisles)).value >= 1.0
  {
    var c := ClusterCounts(state, aisles);
    ClusterCountsAreRuns(state, aisles);
    ClusterCountsCoverOnes(state, aisles);
    WeightedSumAtLeastRuns(c);
    SumSquaresAtLeastRuns(c);
    SumLongRunsAtLeastRuns(c);
    if SumNat(c) > 0 {
      RatioAtLeastOne(SumSquares(c), SumNat(c));
      RatioAtLeastOne(SumLongRuns(c), SumNat(c));
    }
  }

  // ---------------------------------------------------------------------------
  // Pairwise comparison (`compare`)

  /** A model state as `compare` receives it: a matrix, or an array of another rank. */
  datatype ModelState = Matrix(g: Grid<int>) | OtherRank(ndim: nat)

  const CompareMethods: set<string> := {"lbp", "cluster", "entropy"}

  /** A matrix is well formed, and binary when its patterns are to be counted. */
  predicate Admissible(s: ModelState, name: string)
  {
    s.Matrix? ==> s.g.Valid() && (name == "lbp" ==> Binary(s.g))
  }

  /** The profile one method computes; the entropy profile comes from an image library and
      is a parameter here. */
  function Profile(g: Grid<int>, name: string, aisles: seq<nat>, entropy: Grid<int> -> seq<real>): seq<real>
    requires g.Valid() && (name == "lbp" ==> Binary(g))
  {
    if name == "lbp" then Reals(LbpCounts(g))
    else if name == "cluster" then Reals(ClusterCounts(g, aisles))
    else entropy(g)
  }

  /** The result of `compare`: the method is checked first, then the ranks, then the mean
      square error of the two profiles is taken. */
  function Comparison(s1: ModelState, s2: ModelState, name: string, aisles: seq<nat>,
                      entropy: Grid<int> -> seq<real>): Result<real>
    requires Admissible(s1, name) && Admissible(s2, name)
  {
    if name !in CompareMethods then Failure(ValueError("Method must be 'lbp', 'cluster', or 'entropy'."))
    else if s1.OtherRank? || s2.OtherRank? then Failure(ValueError("Models must be 2D."))
    else Mse(Profile(s1.g, name, aisles, entropy), Profile(s2.g, name, aisles, entropy))
  }

  /** `compare(model_state_1, model_state_2, method, aisles)`. */
  method Compare(s1: ModelState, s2: ModelState, name: string, aisles: seq<nat>,
                 entropy: Grid<int> -> seq<real>) returns (r: Result<real>)
    requires Admissible(s1, name) && Admissible(s2, name)
    ensures r == Comparison(s1, s2, name, aisles, entropy)
  {
    if name !in CompareMethods {
      return Failure(ValueError("Method must be 'lbp', 'cluster', or 'entropy'."));
    }
    if s1.OtherRank? || s2.OtherRank? {
      return Failure(ValueError("Models must be 2D."));
    }
    var p1, p2;
    if name == "lbp" {
      var c1 := CountLbp(s1.g);
      var c2 := CountLbp(s2.g);
      p1, p2 := Reals(c1), Reals(c2);
    } else if name == "cluster" {
      var c1 := CountClusters(s1.g, aisles);
      var c2 := CountClusters(s2.g, aisles);
      p1, p2 := Reals(c1), Reals(c2);
    } else {
      p1, p2 := entropy(s1.g), entropy(s2.g);
    }
    r := CalculateMse(p1, p2);
  }

  /** The outcome of `compare`: an unknown method or a state that is not a matrix is an
      error, and pattern and cluster comparisons of two matrices always give a number that
      is not negative. */
  lemma ComparisonOutcome(s1: ModelState, s2: ModelState, name: string, aisles: seq<nat>,
                          entropy: Grid<int> -> seq<real>)
    requires Admissible(s1, name) && Admissible(s2, name)
    ensures name !in CompareMethods ==>
              Comparison(s1, s2, name, aisles, entropy) == Failure(ValueError("Method must be 'lbp', 'cluster', or 'entropy'."))
    ensures name in CompareMethods && (s1.OtherRank? || s2.OtherRank?) ==>
              Comparison(s1, s2, name, aisles, entropy) == Failure(ValueError("Models must be 2D."))
    ensures (name == "lbp" || name == "cluster") && s1.Matrix? && s2.Matrix? ==>
              Comparison(s1, s2, name, aisles, entropy).Success? && Comparison(s1, s2, name, aisles, entropy).value >= 0.0
  {
    if (name == "lbp" || name == "cluster") && s1.Matrix? && s2.Matrix? {
      MseFacts(Profile(s1.g, name, aisles, entropy), Profile(s2.g, name, aisles, entropy));
    }
  }

  /** The comparison does not depend on the order of the two states. */
  lemma ComparisonSymmetric(s1: ModelState, s2: ModelState, name: string, aisles: seq<nat>,
                            entropy: Grid<int> -> seq<real>)
    requires Admissible(s1, name) && Admissible(s2, name)
    ensures Comparison(s1, s2, name, aisles, entropy) == Comparison(s2, s1, name, aisles, entropy)
  {
    if name in CompareMethods && s1.Matrix? && s2.Matrix? {
      MseFacts(Profile(s1.g, name, aisles, entropy), Profile(s2.g, name, aisles, entropy));
    }
  }

  lemma RealsInjective(a: seq<nat>, b: seq<nat>)
    ensures Reals(a) == Reals(b) <==> a == b
  {
    if Reals(a) == Reals(b) {
      forall i | 0 <= i < |a|
        ensures a[i] == b[i]
      {
        assert Reals(a)[i] == Reals(b)[i];
      }
    }
  }

  /** Two binary states compare as 0 under the pattern method exactly when their pattern
      histograms are equal; in particular a state compared with itself gives 0. */
  lemma LbpComparisonZero(g1: Grid<int>, g2: Grid<int>, aisles: seq<nat>, entropy: Grid<int> -> seq<real>)
    requires Binary(g1) && Binary(g2)
    ensures Comparison(Matrix(g1), Matrix(g2), "lbp", aisles, entropy) == Success(0.0) <==> LbpCounts(g1) == LbpCounts(g2)
  {
    var c1, c2 := LbpCounts(g1), LbpCounts(g2);
    var p1, p2 := Reals(c1), Reals(c2);
    assert Comparison(Matrix(g1), Matrix(g2), "lbp", aisles, entropy) == Mse(p1, p2);
    MseFacts(p1, p2);
    assert p1[..256] == p1 && p2[..256] == p2;
    RealsInjective(c1, c2);
  }

  /** A state compared with itself by clusters gives 0. */
  lemma ClusterComparisonWithItself(g: Grid<int>, aisles: seq<nat>, entropy: Grid<int> -> seq<real>)
    requires g.Valid()
    ensures Comparison(Matrix(g), Matrix(g), "cluster", aisles, entropy) == Success(0.0)
  {
    var p := Reals(ClusterCounts(g, aisles));
    MseFacts(p, p);
  }

  // ---------------------------------------------------------------------------
  // Mean profile (`generate_profile`)

  /** The binary snapshot of every model, in order. */
  ghost function Snapshots(models: seq<ClassroomModel>): (r: seq<Grid<int>>)
    reads models
    requires forall k :: 0 <= k < |models| ==> models[k].Ready()
    ensures |r| == |models|
    ensures forall k :: 0 <= k < |models| ==>
              models[k].Ready() && r[k] == Snapshot(models[k].classroom, models[k].schedule)
    ensures forall k :: 0 <= k < |r| ==> r[k].Valid() && Binary(r[k])
  {
    SnapshotsAreBinary(models);
    seq(|models|, k requires 0 <= k < |models| && models[k].Ready() reads models =>
      Snapshot(models[k].classroom, models[k].schedule))
  }

  /** Every model's snapshot is binary. */
  lemma SnapshotsAreBinary(models: seq<ClassroomModel>)
    requires forall k :: 0 <= k < |models| ==> models[k].Ready()
    ensures forall k :: 0 <= k < |models| ==>
              models[k].Ready() && Binary(Snapshot(models[k].classroom, models[k].schedule))
  {
    forall k | 0 <= k < |models|
      ensures models[k].Ready() && Binary(Snapshot(models[k].classroom, models[k].schedule))
    {
      SnapshotIsBinary(models[k].classroom, models[k].schedule);
    }
  }

  /** A snapshot marks every remaining seat with 0 or 1. */
  lemma SnapshotIsBinary(d: Layout, roster: seq<Student>)
    requires PositionsInside(d, roster)
    ensures Binary(Snapshot(d, roster))
  {
    var s := Snapshot(d, roster);
    SnapshotMeaning(d, roster);
    forall i, j | 0 <= i < s.rows && 0 <= j < s.cols
      ensures s.cells[i][j] == 0 || s.cells[i][j] == 1
    {
      assert i < |SeatXs(d)| && j < |SeatYs(d)|;
      if !SomeUnplaced(roster) {
        assert s.cells[i][j] == (if StudentsAt(roster, Pos(SeatXs(d)[i], SeatYs(d)[j])) > 0 then 1 else 0);
      }
    }
  }

  predicate SameShape(gs: seq<Grid<int>>)
  {
    forall k :: 0 <= k < |gs| ==> gs[k].rows == gs[0].rows && gs[k].cols == gs[0].cols
  }

  function ProfileLength(g: Grid<int>, name: string): nat
  {
    if name == "lbp" then 256 else if name == "cluster" then g.cols + 1 else Min(g.rows, g.cols)
  }

  function Profiles(gs: seq<Grid<int>>, name: string, aisles: seq<nat>, entropy: Grid<int> -> seq<real>): (r: seq<seq<real>>)
    requires forall k :: 0 <= k < |gs| ==> gs[k].Valid() && Binary(gs[k])
    ensures |r| == |gs| && forall k :: 0 <= k < |gs| ==> r[k] == Profile(gs[k], name, aisles, entropy)
  {
    seq(|gs|, k requires 0 <= k < |gs| => Profile(gs[k], name, aisles, entropy))
  }

  function AddProfiles(p: seq<real>, q: seq<real>): (r: seq<real>)
    requires |p| == |q|
    ensures |r| == |p|
  {
    seq(|p|, j requires 0 <= j < |p| => p[j] + q[j])
  }

  /** The element-wise sum of profiles of length `n`. */
  function Total(ps: seq<seq<real>>, n: nat): (r: seq<real>)
    requires forall k :: 0 <= k < |ps| ==> |ps[k]| == n
    ensures |r| == n
  {
    if ps == [] then seq(n, _ => 0.0) else AddProfiles(Total(ps[..|ps| - 1], n), ps[|ps| - 1])
  }

  /** The element-wise mean of profiles of length `n`. */
  function Mean(ps: seq<seq<real>>, n: nat): (r: seq<real>)
    requires |ps| >= 1 && forall k :: 0 <= k < |ps| ==> |ps[k]| == n
    ensures |r| == n
  {
    seq(n, j requires 0 <= j < n => Total(ps, n)[j] / (|ps| as real))
  }

  lemma {:induction false} TotalOfIdentical(ps: seq<seq<real>>, n: nat, p: seq<real>)
    requires |p| == n && forall k :: 0 <= k < |ps| ==> ps[k] == p
    ensures forall j :: 0 <= j < n ==> Total(ps, n)[j] == (|ps| as real) * p[j]
  {
    if ps != [] {
      TotalOfIdentical(ps[..|ps| - 1], n, p);
      forall j | 0 <= j < n
        ensures Total(ps, n)[j] == (|ps| as real) * p[j]
      {
        var k := |ps| as real;
        assert Total(ps, n)[j] == (k - 1.0) * p[j] + p[j];
        assert (k - 1.0) * p[j] + p[j] == k * p[j];
      }
    }
  }

  /** The mean of copies of one profile is that profile. */
  lemma MeanOfIdentical(ps: seq<seq<real>>, n: nat, p: seq<real>)
    requires |ps| >= 1 && |p| == n && forall k :: 0 <= k < |ps| ==> ps[k] == p
    ensures Mean(ps, n) == p
  {
    TotalOfIdentical(ps, n, p);
    forall j | 0 <= j < n
      ensures Mean(ps, n)[j] == p[j]
    {
      var k := |ps| as real;
      assert Mean(ps, n)[j] == (k * p[j]) / k;
    }
  }

  /** Every profile has the length its method gives the first snapshot's shape. */
  lemma ProfileLengths(gs: seq<Grid<int>>, name: string, aisles: seq<nat>, entropy: Grid<int> -> seq<real>)
    requires |gs| >= 1 && (forall k :: 0 <= k < |gs| ==> gs[k].Valid() && Binary(gs[k]))
    requires name != "lbp" ==> SameShape(gs)
    requires forall g: Grid<int> :: |entropy(g)| == Min(g.rows, g.cols)
    ensures forall k :: 0 <= k < |gs| ==> |Profile(gs[k], name, aisles, entropy)| == ProfileLength(gs[0], name)
  {
  }

  /** The element-wise mean of the snapshots' profiles under one method. */
  function MeanProfile(gs: seq<Grid<int>>, name: string, aisles: seq<nat>, entropy: Grid<int> -> seq<real>): (r: seq<real>)
    requires |gs| >= 1 && (forall k :: 0 <= k < |gs| ==> gs[k].Valid() && Binary(gs[k]))
    requires name != "lbp" ==> SameShape(gs)
    requires forall g: Grid<int> :: |entropy(g)| == Min(g.rows, g.cols)
    ensures |r| == ProfileLength(gs[0], name)
  {
    ProfileLengths(gs, name, aisles, entropy);
    Mean(Profiles(gs, name, aisles, entropy), ProfileLength(gs[0], name))
  }

  /** The first loop of `generate_profile`: every model's binary snapshot. */
  method ReduceModels(models: seq<ClassroomModel>) returns (reduced: seq<Grid<int>>)
    requires forall k :: 0 <= k < |models| ==> models[k].Ready()
    ensures reduced == Snapshots(models)
  {
    reduced := [];
    for k := 0 to |models|
      invariant |reduced| == k
      invariant forall j :: 0 <= j < k ==> reduced[j] == Snapshot(models[j].classroom, models[j].schedule)
    {
      var s := models[k].GetBinaryModelState();
      reduced := reduced + [s];
    }
    SnapshotsPointwise(models, reduced);
  }

  /** `Snapshots` is the snapshot of each model in turn. */
  lemma SnapshotsPointwise(models: seq<ClassroomModel>, gs: seq<Grid<int>>)
    requires |gs| == |models|
    requires forall j :: 0 <= j < |gs| ==> models[j].Ready() && gs[j] == Snapshot(models[j].classroom, models[j].schedule)
    ensures gs == Snapshots(models)
  {
  }

  /** One profile of `generate_profile`'s second loop. */
  method ProfileOf(g: Grid<int>, name: string, aisles: seq<nat>, entropy: Grid<int> -> seq<real>) returns (p: seq<real>)
    requires g.Valid() && Binary(g)
    ensures p == Profile(g, name, aisles, entropy)
  {
    if name == "cluster" {
      var c := CountClusters(g, aisles);
      p := Reals(c);
    } else if name == "lbp" {
      var c := CountLbp(g);
      p := Reals(c);
    } else {
      p := entropy(g);
    }
  }

  /** The second loop of `generate_profile`: the element-wise sum of the profiles. */
  method SumProfiles(gs: seq<Grid<int>>, name: string, aisles: seq<nat>, entropy: Grid<int> -> seq<real>, n: nat)
    returns (profile: seq<real>)
    requires forall k :: 0 <= k < |gs| ==> gs[k].Valid() && Binary(gs[k])
    requires forall k :: 0 <= k < |gs| ==> |Profile(gs[k], name, aisles, entropy)| == n
    ensures profile == Total(Profiles(gs, name, aisles, entropy), n)
  {
    ghost var ps := Profiles(gs, name, aisles, entropy);
    profile := seq(n, _ => 0.0);
    for k := 0 to |gs|
      invariant profile == Total(ps[..k], n)
    {
      var p := ProfileOf(gs[k], name, aisles, entropy);
      assert ps[..k + 1][..k] == ps[..k];
      profile := AddProfiles(profile, p);
    }
    assert ps[..|gs|] == ps;
  }

  /** The second loop of `generate_profile` and the final division by the number of models. */
  method AverageProfile(gs: seq<Grid<int>>, name: string, aisles: seq<nat>, entropy: Grid<int> -> seq<real>)
    returns (mean: seq<real>)
    requires |gs| >= 1 && (forall k :: 0 <= k < |gs| ==> gs[k].Valid() && Binary(gs[k]))
    requires name != "lbp" ==> SameShape(gs)
    requires forall g: Grid<int> :: |entropy(g)| == Min(g.rows, g.cols)
    ensures mean == MeanProfile(gs, name, aisles, entropy)
  {
    var n := ProfileLength(gs[0], name);
    ProfileLengths(gs, name, aisles, entropy);
    var profile := SumProfiles(gs, name, aisles, entropy, n);
    mean := seq(n, j requires 0 <= j < n => profile[j] / (|gs| as real));
  }

  /** `generate_profile(models, method)`: the element-wise mean of the profiles of the
      models' binary snapshots; cluster profiles split at the first model's aisles. */
  method GenerateProfile(models: seq<ClassroomModel>, name: string, entropy: Grid<int> -> seq<real>)
    returns (r: Result<seq<real>>)
    requires |models| >= 1
    requires forall k :: 0 <= k < |models| ==> models[k].Ready()
    requires name != "lbp" ==> SameShape(Snapshots(models))
    requires forall g: Grid<int> :: |entropy(g)| == Min(g.rows, g.cols)
    ensures name !in CompareMethods ==> r == Failure(ValueError("Method must be 'lbp', 'cluster', or 'entropy'."))
    ensures name in CompareMethods ==>
              r == Success(MeanProfile(Snapshots(models), name, models[0].classroom.aislesX, entropy))
  {
    if name !in CompareMethods {
      return Failure(ValueError("Method must be 'lbp', 'cluster', or 'entropy'."));
    }
    var reduced := ReduceModels(models);
    var profile := AverageProfile(reduced, name, models[0].classroom.aislesX, entropy);
    r := Success(profile);
  }
}
