/** What a seat is worth to a student (`Seat`, model.py:138-325), as functions of the layout,
    the model's settings and the roster of students. The class in classroom.dfy computes
    the same values with the source's loops. */
module Seats {
  import opened Basics
  import opened Splice
  import opened Design

  /** A student (`Student`, model.py:24-47). `pos` is the cell the student stands on: an
      entrance after admission, the chosen seat once seated, `None` before any placement. */
  datatype Student = Student(id: nat, sociability: real, seated: bool, initialHappiness: real, pos: Option<Pos>)

  /** The settings a ClassroomModel fixes at construction: the layout, the normalised
      coefficients (position, friendship, sociability, accessibility), the tie matrix and the
      smallest and largest sociability of the run. */
  datatype Setup = Setup(classroom: Layout, coefs: seq<real>, socialNetwork: seq<seq<real>>, sociabilityRange: (real, real))

  /** `friendship_interaction_matrix` (model.py:383): the transpose of
      `[[0, 0, 0], [0.5, 0, 0.5], [0, 0, 0]]`, indexed `[dx][dy]`, so the seats directly to
      the left and right weigh 0.5 each. */
  const FriendshipKernel: seq<seq<real>> := [[0.0, 0.5, 0.0], [0.0, 0.0, 0.0], [0.0, 0.5, 0.0]]

  /** `sociability_interaction_matrix` (model.py:384), the same weights. */
  const SociabilityKernel: seq<seq<real>> := [[0.0, 0.5, 0.0], [0.0, 0.0, 0.0], [0.0, 0.5, 0.0]]

  // ---------------------------------------------------------------------------
  // Cells and who stands on them

  predicate InBounds(d: Layout, p: Pos)
  {
    0 <= p.x < d.width && 0 <= p.y < d.numRows
  }

  /** A cell that holds a seat: inside the room and on no aisle. */
  predicate IsSeatCell(d: Layout, p: Pos)
  {
    InBounds(d, p) && p.x !in d.aislesX && p.y !in d.aislesY
  }

  predicate Square(m: seq<seq<real>>, n: nat)
  {
    |m| == n && forall i :: 0 <= i < n ==> |m[i]| == n
  }

  predicate IdsBelow(roster: seq<Student>, n: nat)
  {
    forall i :: 0 <= i < |roster| ==> roster[i].id < n
  }

  /** How many students stand on `p` (seated or not). */
  function StudentsAt(roster: seq<Student>, p: Pos): nat
  {
    if roster == [] then 0
    else StudentsAt(roster[..|roster| - 1], p) + (if roster[|roster| - 1].pos == Some(p) then 1 else 0)
  }

  /** The id of a seated student on `p`, or -1 when there is none. */
  function SeatedIdAt(roster: seq<Student>, p: Pos): (r: int)
    ensures r >= -1
    ensures r >= 0 <==> exists i :: 0 <= i < |roster| && roster[i].seated && roster[i].pos == Some(p)
    ensures r >= 0 ==> exists i :: 0 <= i < |roster| && roster[i].seated && roster[i].pos == Some(p) && roster[i].id == r
  {
    if roster == [] then -1
    else
      var last := roster[|roster| - 1];
      var front := roster[..|roster| - 1];
      assert forall i :: 0 <= i < |front| ==> front[i] == roster[i];
      if last.seated && last.pos == Some(p) then last.id else SeatedIdAt(front, p)
  }

  /** The students on the cells strictly between columns `lo` and `hi` of row `y`. */
  function CountBetween(roster: seq<Student>, lo: int, hi: int, y: int): nat
    decreases hi - lo
  {
    if hi - lo <= 1 then 0 else CountBetween(roster, lo, hi - 1, y) + StudentsAt(roster, Pos(hi - 1, y))
  }

  // ---------------------------------------------------------------------------
  // Accessibility

  /** The nearest vertical aisle to the left of column `x`, if there is one. */
  function NearestLeft(aisles: seq<nat>, x: int): (r: Option<nat>)
    ensures r.Some? ==> r.value in aisles && r.value < x
    ensures r.Some? ==> forall a :: a in aisles && a < x ==> a <= r.value
    ensures r.None? ==> forall a :: a in aisles ==> a >= x
  {
    if aisles == [] then None
    else
      var front := aisles[..|aisles| - 1];
      var a := aisles[|aisles| - 1];
      assert aisles == front + [a];
      var r := NearestLeft(front, x);
      if a < x && (r.None? || r.value < a) then Some(a) else r
  }

  /** The nearest vertical aisle to the right of column `x`, if there is one. */
  function NearestRight(aisles: seq<nat>, x: int): (r: Option<nat>)
    ensures r.Some? ==> r.value in aisles && r.value > x
    ensures r.Some? ==> forall a :: a in aisles && a > x ==> a >= r.value
    ensures r.None? ==> forall a :: a in aisles ==> a <= x
  {
    if aisles == [] then None
    else
      var front := aisles[..|aisles| - 1];
      var a := aisles[|aisles| - 1];
      assert aisles == front + [a];
      var r := NearestRight(front, x);
      if a > x && (r.None? || r.value > a) then Some(a) else r
  }

  /** The students one passes on the way to the nearer aisle; a side without an aisle never
      gives the minimum (the source's `np.infty`). */
  function PassCount(d: Layout, roster: seq<Student>, p: Pos): nat
    requires |d.aislesX| >= 1 && p.x !in d.aislesX
  {
    var left := NearestLeft(d.aislesX, p.x);
    var right := NearestRight(d.aislesX, p.x);
    assert d.aislesX[0] in d.aislesX;
    if left.None? then CountBetween(roster, p.x, right.value, p.y)
    else if right.None? then CountBetween(roster, left.value, p.x, p.y)
    else Min(CountBetween(roster, left.value, p.x, p.y), CountBetween(roster, p.x, right.value, p.y))
  }

  /** `1 - min(count_left, count_right) / max_pass`. */
  function Accessibility(d: Layout, roster: seq<Student>, p: Pos): real
    requires |d.aislesX| >= 1 && p.x !in d.aislesX && d.maxPass > 0
  {
    1.0 - (PassCount(d, roster, p) as real) / (d.maxPass as real)
  }

  // ---------------------------------------------------------------------------
  // Neighbourhood and social utility

  /** An even window size loses one, so the seat sits in the middle. */
  function OddSize(n: nat): nat
    requires n >= 1
  {
    if n % 2 == 0 then n - 1 else n
  }

  /** The window of seated-student ids around `p`; -1 for an empty cell or one outside the
      room. */
  function Neighborhood(d: Layout, roster: seq<Student>, p: Pos, sizeX: nat, sizeY: nat): (nb: seq<seq<int>>)
    requires sizeX >= 1 && sizeY >= 1
  {
    var nx, ny := OddSize(sizeX), OddSize(sizeY);
    seq(nx, i => seq(ny, j =>
      var c := Pos(p.x + i - nx / 2, p.y + j - ny / 2);
      if InBounds(d, c) then SeatedIdAt(roster, c) else -1))
  }

  /** A window, a rectangular kernel of its shape, and a tie matrix row for every id in it. */
  predicate Fits(nb: seq<seq<int>>, k: seq<seq<real>>, ties: seq<seq<real>>, me: nat)
  {
    && |k| >= 1 && |nb| == |k|
    && (forall i :: 0 <= i < |k| ==> |k[i]| == |k[0]| && |nb[i]| == |k[0]|)
    && me < |ties|
    && (forall i, j :: 0 <= i < |nb| && 0 <= j < |nb[i]| ==> nb[i][j] < |ties[me]|)
  }

  /** Kernel weight times tie strength, for an occupied cell. */
  function FriendTerm(nb: seq<seq<int>>, k: seq<seq<real>>, ties: seq<seq<real>>, me: nat, i: nat, j: nat): real
    requires Fits(nb, k, ties, me) && i < |k| && j < |k[0]|
  {
    if nb[i][j] >= 0 then k[i][j] * ties[me][nb[i][j]] else 0.0
  }

  function FriendRow(nb: seq<seq<int>>, k: seq<seq<real>>, ties: seq<seq<real>>, me: nat, i: nat, n: nat): real
    requires Fits(nb, k, ties, me) && i < |k| && n <= |k[0]|
  {
    if n == 0 then 0.0 else FriendRow(nb, k, ties, me, i, n - 1) + FriendTerm(nb, k, ties, me, i, n - 1)
  }

  /** `u_friendship` after the first `m` kernel rows. */
  function FriendSum(nb: seq<seq<int>>, k: seq<seq<real>>, ties: seq<seq<real>>, me: nat, m: nat): real
    requires Fits(nb, k, ties, me) && m <= |k|
  {
    if m == 0 then 0.0 else FriendSum(nb, k, ties, me, m - 1) + FriendRow(nb, k, ties, me, m - 1, |k[0]|)
  }

  /** Kernel weight times the student's sociability, for an occupied cell whose occupant has
      no tie to the student. */
  function StrangerTerm(nb: seq<seq<int>>, k: seq<seq<real>>, ties: seq<seq<real>>, me: nat, s: real, i: nat, j: nat): real
    requires Fits(nb, k, ties, me) && i < |k| && j < |k[0]|
  {
    if nb[i][j] >= 0 && ties[me][nb[i][j]] == 0.0 then k[i][j] * s else 0.0
  }

  function StrangerRow(nb: seq<seq<int>>, k: seq<seq<real>>, ties: seq<seq<real>>, me: nat, s: real, i: nat, n: nat): real
    requires Fits(nb, k, ties, me) && i < |k| && n <= |k[0]|
  {
    if n == 0 then 0.0 else StrangerRow(nb, k, ties, me, s, i, n - 1) + StrangerTerm(nb, k, ties, me, s, i, n - 1)
  }

  /** The raw `u_sociability` after the first `m` kernel rows. */
  function StrangerSum(nb: seq<seq<int>>, k: seq<seq<real>>, ties: seq<seq<real>>, me: nat, s: real, m: nat): real
    requires Fits(nb, k, ties, me) && m <= |k|
  {
    if m == 0 then 0.0 else StrangerSum(nb, k, ties, me, s, m - 1) + StrangerRow(nb, k, ties, me, s, m - 1, |k[0]|)
  }

  /** The settings and roster allow every utility to be computed for student `me`. */
  predicate Computable(st: Setup, roster: seq<Student>, me: Student)
  {
    && WellFormed(st.classroom)
    && |st.coefs| == 4
    && Square(st.socialNetwork, |st.socialNetwork|)
    && IdsBelow(roster, |st.socialNetwork|)
    && me.id < |st.socialNetwork|
    && st.sociabilityRange.0 < st.sociabilityRange.1
  }

  /** Accessibility is defined for the seat at `p`: there is a vertical aisle and a positive
      passing bound. */
  predicate Accessible(st: Setup, p: Pos)
  {
    IsSeatCell(st.classroom, p) && |st.classroom.aislesX| >= 1 && st.classroom.maxPass > 0
  }

  lemma NeighborhoodFits(st: Setup, roster: seq<Student>, p: Pos, me: Student)
    requires Computable(st, roster, me)
    ensures Fits(Neighborhood(st.classroom, roster, p, 3, 3), FriendshipKernel, st.socialNetwork, me.id)
    ensures Fits(Neighborhood(st.classroom, roster, p, 3, 3), SociabilityKernel, st.socialNetwork, me.id)
  {
    var nb := Neighborhood(st.classroom, roster, p, 3, 3);
    forall i, j | 0 <= i < 3 && 0 <= j < 3 ensures nb[i][j] < |st.socialNetwork| {
      var c := Pos(p.x + i - 1, p.y + j - 1);
      if InBounds(st.classroom, c) && SeatedIdAt(roster, c) >= 0 {
        var r := SeatedIdAt(roster, c);
        var t :| 0 <= t < |roster| && roster[t].seated && roster[t].pos == Some(c) && roster[t].id == r;
      }
    }
  }

  /** `get_social_utility`: the friendship component and the sociability component, the
      latter rescaled by the run's sociability range. */
  function SocialUtility(st: Setup, roster: seq<Student>, p: Pos, me: Student): (real, real)
    requires Computable(st, roster, me)
  {
    var nb := Neighborhood(st.classroom, roster, p, |FriendshipKernel|, |FriendshipKernel[0]|);
    NeighborhoodFits(st, roster, p, me);
    var (sMin, sMax) := st.sociabilityRange;
    (FriendSum(nb, FriendshipKernel, st.socialNetwork, me.id, |FriendshipKernel|),
     (StrangerSum(nb, SociabilityKernel, st.socialNetwork, me.id, me.sociability, |SociabilityKernel|) - sMin) / (sMax - sMin))
  }

  function PositionUtility(d: Layout, p: Pos): real
    requires WellFormed(d) && InBounds(d, p)
  {
    d.posUtilities.cells[p.x][p.y]
  }

  /** `get_happiness`: the weighted position, friendship and sociability components. */
  function Happiness(st: Setup, roster: seq<Student>, p: Pos, me: Student): real
    requires Computable(st, roster, me) && InBounds(st.classroom, p)
  {
    var (f, s) := SocialUtility(st, roster, p, me);
    st.coefs[0] * PositionUtility(st.classroom, p) + st.coefs[1] * f + st.coefs[2] * s
  }

  /** `get_total_utility`: the same components plus the weighted accessibility. */
  function TotalUtility(st: Setup, roster: seq<Student>, p: Pos, me: Student): real
    requires Computable(st, roster, me) && Accessible(st, p)
  {
    var (f, s) := SocialUtility(st, roster, p, me);
    st.coefs[0] * PositionUtility(st.classroom, p) + st.coefs[1] * f + st.coefs[2] * s
      + st.coefs[3] * Accessibility(st.classroom, roster, p)
  }

  // ---------------------------------------------------------------------------
  // Properties

  /** Total utility is happiness plus the weighted accessibility. */
  lemma TotalIsHappinessPlusAccessibility(st: Setup, roster: seq<Student>, p: Pos, me: Student)
    requires Computable(st, roster, me) && Accessible(st, p)
    ensures TotalUtility(st, roster, p, me) == Happiness(st, roster, p, me) + st.coefs[3] * Accessibility(st.classroom, roster, p)
  {
  }

  /** With all coefficients zero every seat scores 0, so every empty seat ties for the
      maximum (the uniform-random mode the source means to switch on). */
  lemma ZeroCoefficientsTie(st: Setup, roster: seq<Student>, p: Pos, q: Pos, me: Student)
    requires Computable(st, roster, me) && Accessible(st, p) && Accessible(st, q)
    requires forall i :: 0 <= i < 4 ==> st.coefs[i] == 0.0
    ensures TotalUtility(st, roster, p, me) == TotalUtility(st, roster, q, me) == 0.0
  {
  }

  /** The count on a row segment is at most the number of its cells when none of them holds
      two students. */
  lemma {:induction false} CountBetweenAtMostCells(roster: seq<Student>, lo: int, hi: int, y: int)
    requires forall i :: lo < i < hi ==> StudentsAt(roster, Pos(i, y)) <= 1
    ensures CountBetween(roster, lo, hi, y) <= Max(0, hi - lo - 1)
    decreases hi - lo
  {
    if hi - lo > 1 {
      CountBetweenAtMostCells(roster, lo, hi - 1, y);
    }
  }

  /** Between a seat and its nearest aisle there are only seat cells. */
  lemma BetweenAreSeatCells(d: Layout, p: Pos, lo: int, hi: int)
    requires IsSeatCell(d, p) && 0 <= lo && hi <= d.width
    requires (lo == p.x && forall a :: a in d.aislesX && a > p.x ==> a >= hi)
          || (hi == p.x && forall a :: a in d.aislesX && a < p.x ==> a <= lo)
    ensures forall i :: lo < i < hi ==> IsSeatCell(d, Pos(i, p.y))
  {
  }

  /** The students between a seat and its nearest aisle number at most the cells there. */
  lemma SideCountAtMostCells(d: Layout, roster: seq<Student>, p: Pos, lo: int, hi: int)
    requires IsSeatCell(d, p) && 0 <= lo && hi <= d.width
    requires (lo == p.x && forall a :: a in d.aislesX && a > p.x ==> a >= hi)
          || (hi == p.x && forall a :: a in d.aislesX && a < p.x ==> a <= lo)
    requires forall c :: IsSeatCell(d, c) ==> StudentsAt(roster, c) <= 1
    ensures CountBetween(roster, lo, hi, p.y) <= Max(0, hi - lo - 1)
  {
    BetweenAreSeatCells(d, p, lo, hi);
    CountBetweenAtMostCells(roster, lo, hi, p.y);
  }

  /** The nearest aisles on either side of a column strictly between two aisles are
      consecutive in the (increasing) aisle list. */
  lemma ConsecutiveAisles(ax: seq<nat>, x: int) returns (j: nat)
    requires StrictlyIncreasing(ax) && x !in ax
    requires NearestLeft(ax, x).Some? && NearestRight(ax, x).Some?
    ensures j + 1 < |ax| && ax[j] == NearestLeft(ax, x).value && ax[j + 1] == NearestRight(ax, x).value
  {
    var left := NearestLeft(ax, x).value;
    var right := NearestRight(ax, x).value;
    j :| 0 <= j < |ax| && ax[j] == left;
    var t :| 0 <= t < |ax| && ax[t] == right;
    assert j < t;
    assert ax[j + 1] in ax;
    assert t == j + 1;
  }

  /** The first aisle is the nearest on the right of a seat with no aisle on its left. */
  lemma FirstAisleNearest(ax: seq<nat>, x: int)
    requires StrictlyIncreasing(ax) && |ax| >= 1 && x !in ax
    requires NearestLeft(ax, x).None?
    ensures NearestRight(ax, x).Some? && NearestRight(ax, x).value == ax[0]
  {
    assert ax[0] in ax;
    forall k | 0 <= k < |ax| ensures ax[0] <= ax[k] { if k > 0 { assert ax[0] < ax[k]; } }
  }

  /** The last aisle is the nearest on the left of a seat with no aisle on its right. */
  lemma LastAisleNearest(ax: seq<nat>, x: int)
    requires StrictlyIncreasing(ax) && |ax| >= 1 && x !in ax
    requires NearestRight(ax, x).None?
    ensures NearestLeft(ax, x).Some? && NearestLeft(ax, x).value == ax[|ax| - 1]
  {
    assert ax[|ax| - 1] in ax;
    forall k | 0 <= k < |ax| ensures ax[k] <= ax[|ax| - 1] { if k < |ax| - 1 { assert ax[k] < ax[|ax| - 1]; } }
  }

  /** No student passes more than half (rounded down) of an inner block's width less the
      seat itself, since the nearer aisle is the one with fewer students in between. */
  lemma MinOfSplitBlock(lc: nat, rc: nat, b: int)
    requires lc + rc <= b - 1
    ensures Min(lc, rc) <= TruncHalf(b - 1)
  {
  }

  /** A seat in the first block, which has no aisle on its left. */
  lemma PassCountFirstBlock(d: Layout, blocks: seq<nat>, roster: seq<Student>, p: Pos)
    requires BuiltFrom(d, blocks) && |blocks| >= 2 && IsSeatCell(d, p)
    requires forall c :: IsSeatCell(d, c) ==> StudentsAt(roster, c) <= 1
    requires NearestLeft(d.aislesX, p.x).None?
    ensures PassCount(d, roster, p) <= d.maxPass
  {
    AisleGeometry(blocks);
    MaxPassIsLargestLimit(blocks);
    var ax := d.aislesX;
    FirstAisleNearest(ax, p.x);
    SideCountAtMostCells(d, roster, p, p.x, ax[0]);
    assert PassCount(d, roster, p) <= PassLimit(blocks, 0);
  }

  /** A seat in the last block, which has no aisle on its right. */
  lemma PassCountLastBlock(d: Layout, blocks: seq<nat>, roster: seq<Student>, p: Pos)
    requires BuiltFrom(d, blocks) && |blocks| >= 2 && IsSeatCell(d, p)
    requires forall c :: IsSeatCell(d, c) ==> StudentsAt(roster, c) <= 1
    requires NearestRight(d.aislesX, p.x).None?
    ensures PassCount(d, roster, p) <= d.maxPass
  {
    AisleGeometry(blocks);
    MaxPassIsLargestLimit(blocks);
    var ax := d.aislesX;
    LastAisleNearest(ax, p.x);
    SideCountAtMostCells(d, roster, p, ax[|ax| - 1], p.x);
    assert PassCount(d, roster, p) <= PassLimit(blocks, |blocks| - 1);
  }

  /** A seat in an inner block, between two consecutive aisles. */
  lemma PassCountInnerBlock(d: Layout, blocks: seq<nat>, roster: seq<Student>, p: Pos)
    requires BuiltFrom(d, blocks) && |blocks| >= 2 && IsSeatCell(d, p)
    requires forall c :: IsSeatCell(d, c) ==> StudentsAt(roster, c) <= 1
    requires NearestLeft(d.aislesX, p.x).Some? && NearestRight(d.aislesX, p.x).Some?
    ensures PassCount(d, roster, p) <= d.maxPass
  {
    AisleGeometry(blocks);
    MaxPassIsLargestLimit(blocks);
    var ax := d.aislesX;
    var j := ConsecutiveAisles(ax, p.x);
    var lc := CountBetween(roster, ax[j], p.x, p.y);
    var rc := CountBetween(roster, p.x, ax[j + 1], p.y);
    SideCountAtMostCells(d, roster, p, ax[j], p.x);
    SideCountAtMostCells(d, roster, p, p.x, ax[j + 1]);
    MinOfSplitBlock(lc, rc, blocks[j + 1]);
    assert PassCount(d, roster, p) == Min(lc, rc);
    assert PassCount(d, roster, p) <= PassLimit(blocks, j + 1);
  }

  /** The passing count of every seat is within `max_pass`. */
  lemma PassCountBounded(d: Layout, blocks: seq<nat>, roster: seq<Student>, p: Pos)
    requires BuiltFrom(d, blocks) && |blocks| >= 2 && IsSeatCell(d, p)
    requires forall c :: IsSeatCell(d, c) ==> StudentsAt(roster, c) <= 1
    ensures |d.aislesX| >= 1
    ensures PassCount(d, roster, p) <= d.maxPass
  {
    AisleGeometry(blocks);
    if NearestLeft(d.aislesX, p.x).None? {
      PassCountFirstBlock(d, blocks, roster, p);
    } else if NearestRight(d.aislesX, p.x).None? {
      PassCountLastBlock(d, blocks, roster, p);
    } else {
      PassCountInnerBlock(d, blocks, roster, p);
    }
  }

  /** Accessibility lies in [0, 1] for a layout built from at least two blocks with a
      positive passing bound, when no seat cell holds two students. */
  lemma AccessibilityInUnitRange(d: Layout, blocks: seq<nat>, roster: seq<Student>, p: Pos)
    requires BuiltFrom(d, blocks) && |blocks| >= 2 && d.maxPass > 0 && IsSeatCell(d, p)
    requires forall c :: IsSeatCell(d, c) ==> StudentsAt(roster, c) <= 1
    ensures |d.aislesX| >= 1
    ensures 0.0 <= Accessibility(d, roster, p) <= 1.0
  {
    PassCountBounded(d, blocks, roster, p);
    UnitComplement(PassCount(d, roster, p), d.maxPass);
  }

  /** `1 - m/n` lies in [0, 1] when `0 <= m <= n` and `n > 0`. */
  lemma UnitComplement(m: nat, n: int)
    requires 0 < n && m <= n
    ensures 0.0 <= 1.0 - (m as real) / (n as real) <= 1.0
  {
    assert (m as real) <= (n as real);
    assert (m as real) / (n as real) <= 1.0;
  }

  /** Moving a student who is not seated changes no window of seated students. */
  lemma {:induction false} SeatedIdIgnoresUnseated(roster: seq<Student>, k: nat, q: Option<Pos>, c: Pos)
    requires k < |roster| && !roster[k].seated
    ensures SeatedIdAt(roster[k := roster[k].(pos := q)], c) == SeatedIdAt(roster, c)
  {
    var moved := roster[k := roster[k].(pos := q)];
    var n := |roster|;
    if k == n - 1 {
      assert moved[..n - 1] == roster[..n - 1];
    } else {
      SeatedIdIgnoresUnseated(roster[..n - 1], k, q, c);
      assert moved[..n - 1] == roster[..n - 1][k := roster[k].(pos := q)];
    }
  }

  /** Happiness does not see where an unseated student stands; so the happiness the source
      records after moving the student onto the seat, before marking it seated, is the
      happiness of the seat in the state before the move. */
  lemma HappinessIgnoresUnseated(st: Setup, roster: seq<Student>, k: nat, q: Option<Pos>, p: Pos, me: Student)
    requires Computable(st, roster, me) && InBounds(st.classroom, p)
    requires k < |roster| && !roster[k].seated
    ensures Computable(st, roster[k := roster[k].(pos := q)], me)
    ensures Happiness(st, roster[k := roster[k].(pos := q)], p, me) == Happiness(st, roster, p, me)
  {
    var moved := roster[k := roster[k].(pos := q)];
    var nb := Neighborhood(st.classroom, roster, p, 3, 3);
    var nb' := Neighborhood(st.classroom, moved, p, 3, 3);
    forall i | 0 <= i < 3 ensures nb'[i] == nb[i] {
      forall j | 0 <= j < 3 ensures nb'[i][j] == nb[i][j] {
        SeatedIdIgnoresUnseated(roster, k, q, Pos(p.x + i - 1, p.y + j - 1));
      }
    }
    assert nb' == nb;
  }

  function KernelRow(k: seq<seq<real>>, i: nat, n: nat): real
    requires i < |k| && n <= |k[i]|
  {
    if n == 0 then 0.0 else KernelRow(k, i, n - 1) + k[i][n - 1]
  }

  /** The sum of the first `m` rows of a rectangular kernel. */
  function KernelSum(k: seq<seq<real>>, m: nat): real
    requires |k| >= 1 && m <= |k| && forall i :: 0 <= i < |k| ==> |k[i]| == |k[0]|
  {
    if m == 0 then 0.0 else KernelSum(k, m - 1) + KernelRow(k, m - 1, |k[0]|)
  }

  lemma WeightedTie(w: real, t: real)
    requires w >= 0.0 && 0.0 <= t <= 1.0
    ensures 0.0 <= w * t <= w
  {
    assert w * (1.0 - t) >= 0.0;
  }

  lemma FriendTermBounds(nb: seq<seq<int>>, k: seq<seq<real>>, ties: seq<seq<real>>, me: nat, i: nat, j: nat)
    requires Fits(nb, k, ties, me) && i < |k| && j < |k[0]|
    requires k[i][j] >= 0.0
    requires forall b :: 0 <= b < |ties[me]| ==> 0.0 <= ties[me][b] <= 1.0
    ensures 0.0 <= FriendTerm(nb, k, ties, me, i, j) <= k[i][j]
  {
    if nb[i][j] >= 0 {
      WeightedTie(k[i][j], ties[me][nb[i][j]]);
    }
  }

  lemma {:induction false} FriendRowBounds(nb: seq<seq<int>>, k: seq<seq<real>>, ties: seq<seq<real>>, me: nat, i: nat, n: nat)
    requires Fits(nb, k, ties, me) && i < |k| && n <= |k[0]|
    requires forall a, b :: 0 <= a < |k| && 0 <= b < |k[a]| ==> k[a][b] >= 0.0
    requires forall b :: 0 <= b < |ties[me]| ==> 0.0 <= ties[me][b] <= 1.0
    ensures 0.0 <= FriendRow(nb, k, ties, me, i, n) <= KernelRow(k, i, n)
  {
    if n > 0 {
      FriendRowBounds(nb, k, ties, me, i, n - 1);
      FriendTermBounds(nb, k, ties, me, i, n - 1);
    }
  }

  /** With non-negative kernel weights and ties in [0, 1], the friendship component lies
      between 0 and the kernel's total weight. */
  lemma {:induction false} FriendSumBounds(nb: seq<seq<int>>, k: seq<seq<real>>, ties: seq<seq<real>>, me: nat, m: nat)
    requires Fits(nb, k, ties, me) && m <= |k|
    requires forall a, b :: 0 <= a < |k| && 0 <= b < |k[a]| ==> k[a][b] >= 0.0
    requires forall b :: 0 <= b < |ties[me]| ==> 0.0 <= ties[me][b] <= 1.0
    ensures 0.0 <= FriendSum(nb, k, ties, me, m) <= KernelSum(k, m)
  {
    if m > 0 {
      FriendSumBounds(nb, k, ties, me, m - 1);
      FriendRowBounds(nb, k, ties, me, m - 1, |k[0]|);
    }
  }

  /** The friendship component of every seat lies in [0, 1] when the ties do. */
  lemma FriendshipInUnitRange(st: Setup, roster: seq<Student>, p: Pos, me: Student)
    requires Computable(st, roster, me)
    requires forall b :: 0 <= b < |st.socialNetwork| ==> 0.0 <= st.socialNetwork[me.id][b] <= 1.0
    ensures 0.0 <= SocialUtility(st, roster, p, me).0 <= 1.0
  {
    var nb := Neighborhood(st.classroom, roster, p, 3, 3);
    NeighborhoodFits(st, roster, p, me);
    FriendSumBounds(nb, FriendshipKernel, st.socialNetwork, me.id, 3);
    assert KernelSum(FriendshipKernel, 3) == 1.0;
  }
}
