/** The seating simulation (`ClassroomModel`, `Student.choose_seat` and `Student.step`,
    model.py:24-136 and 328-455). The grid of seat objects is a map from each seat cell to
    the id of the student on it; the scheduler's agents are the sequence `schedule`, indexed
    by id. */
module Classroom {
  import opened Basics
  import opened Splice
  import opened Design
  import opened Seats

  // ---------------------------------------------------------------------------
  // Construction

  /** Every entry divided by `t`. */
  function Divided(s: seq<real>, t: real): (r: seq<real>)
    requires t != 0.0
    ensures |r| == |s| && forall i :: 0 <= i < |s| ==> r[i] == s[i] / t
  {
    seq(|s|, i requires 0 <= i < |s| => s[i] / t)
  }

  /** The coefficient list as the model keeps it: each divided by the sum when the sum is
      positive, all zero otherwise. */
  function Normalised(coefs: seq<real>): (r: seq<real>)
    ensures |r| == |coefs|
  {
    var total := SumReal(coefs);
    if total > 0.0 then Divided(coefs, total) else seq(|coefs|, _ => 0.0)
  }

  lemma {:induction false} SumDivided(s: seq<real>, t: real)
    requires t != 0.0
    ensures SumReal(Divided(s, t)) == SumReal(s) / t
  {
    if s != [] {
      var n := |s|;
      SumDivided(s[..n - 1], t);
      assert Divided(s, t)[..n - 1] == Divided(s[..n - 1], t);
    }
  }

  /** Normalised coefficients sum to one when the given ones have a positive sum; otherwise
      every coefficient is zero. */
  lemma NormalisedCoefficients(coefs: seq<real>)
    ensures SumReal(coefs) > 0.0 ==> SumReal(Normalised(coefs)) == 1.0
    ensures SumReal(coefs) <= 0.0 ==> forall i :: 0 <= i < |coefs| ==> Normalised(coefs)[i] == 0.0
  {
    var t := SumReal(coefs);
    if t > 0.0 {
      var n := Divided(coefs, t);
      assert Normalised(coefs) == n;
      calc {
        SumReal(n);
        == { SumDivided(coefs, t); }
        t / t;
        == { DivideThenMultiply(t, t); }
        1.0;
      }
    }
  }

  /** Python's `min` of a non-empty sequence. */
  function SmallestOf(s: seq<real>): (m: real)
    requires |s| >= 1
    ensures (forall i :: 0 <= i < |s| ==> m <= s[i]) && exists i :: 0 <= i < |s| && s[i] == m
  {
    if |s| == 1 then s[0]
    else
      var rest := SmallestOf(s[..|s| - 1]);
      if s[|s| - 1] < rest then s[|s| - 1] else rest
  }

  /** Python's `max` of a non-empty sequence. */
  function LargestOf(s: seq<real>): (m: real)
    requires |s| >= 1
    ensures (forall i :: 0 <= i < |s| ==> s[i] <= m) && exists i :: 0 <= i < |s| && s[i] == m
  {
    if |s| == 1 then s[0]
    else
      var rest := LargestOf(s[..|s| - 1]);
      if s[|s| - 1] > rest then s[|s| - 1] else rest
  }

  /** The seats created at construction: one, empty, on every cell off the aisles. */
  method CreateSeats(d: Layout) returns (seats: map<Pos, Option<nat>>)
    ensures forall c :: c in seats <==> IsSeatCell(d, c)
    ensures forall c :: c in seats ==> seats[c].None?
  {
    seats := map[];
    for x := 0 to d.width
      invariant forall c :: c in seats <==> IsSeatCell(d, c) && c.x < x
      invariant forall c :: c in seats ==> seats[c].None?
    {
      if x !in d.aislesX {
        for y := 0 to d.numRows
          invariant forall c :: c in seats <==> IsSeatCell(d, c) && (c.x < x || (c.x == x && c.y < y))
          invariant forall c :: c in seats ==> seats[c].None?
        {
          if y !in d.aislesY {
            seats := seats[Pos(x, y) := None];
          }
        }
      }
    }
  }

  /** The population size: the seat count for a generated network, else the length of the
      degree sequence. */
  function PopulationSize(d: Layout, degreeSequence: Option<seq<nat>>): int
  {
    if degreeSequence.None? then d.seatCount else |degreeSequence.value|
  }

  // ---------------------------------------------------------------------------
  // The record of a student who sits down

  /** A student after taking the seat at `c`: placed on it, seated, and remembering the
      seat's happiness as seen before sitting down. */
  function SatDown(st: Setup, roster: seq<Student>, k: nat, c: Pos): (s: Student)
    requires k < |roster| && Computable(st, roster, roster[k]) && InBounds(st.classroom, c)
    ensures s.id == roster[k].id && s.sociability == roster[k].sociability
    ensures s.seated && s.pos == Some(c)
  {
    roster[k].(pos := Some(c), seated := true, initialHappiness := Happiness(st, roster, c, roster[k]))
  }

  // ---------------------------------------------------------------------------
  // The occupancy snapshot

  predicate PositionsInside(d: Layout, roster: seq<Student>)
  {
    forall i :: 0 <= i < |roster| && roster[i].pos.Some? ==> InBounds(d, roster[i].pos.value)
  }

  /** A student with no position: numpy's `a[None] = 1` then sets every entry. */
  predicate SomeUnplaced(roster: seq<Student>)
  {
    exists i :: 0 <= i < |roster| && roster[i].pos.None?
  }

  /** `model_state[pos] = 1`. */
  function Mark(g: Grid<int>, pos: Option<Pos>): (r: Grid<int>)
    requires g.Valid() && (pos.Some? ==> 0 <= pos.value.x < g.rows && 0 <= pos.value.y < g.cols)
    ensures r.Valid() && r.rows == g.rows && r.cols == g.cols
  {
    match pos
    case None => Filled(g.rows, g.cols, 1)
    case Some(p) => Grid(g.rows, g.cols, g.cells[p.x := g.cells[p.x][p.y := 1]])
  }

  /** The full-size array after marking the cells of the given students in order. */
  function Marked(d: Layout, roster: seq<Student>): (g: Grid<int>)
    requires PositionsInside(d, roster)
    ensures g.Valid() && g.rows == d.width && g.cols == d.numRows
  {
    if roster == [] then Filled(d.width, d.numRows, 0)
    else Mark(Marked(d, roster[..|roster| - 1]), roster[|roster| - 1].pos)
  }

  /** The x coordinates that are not aisles, in order: the snapshot's rows. */
  function SeatXs(d: Layout): seq<nat>
  {
    Kept(d.width, SetOf(d.aislesX))
  }

  /** The y coordinates that are not aisles, in order: the snapshot's columns. */
  function SeatYs(d: Layout): seq<nat>
  {
    Kept(d.numRows, SetOf(d.aislesY))
  }

  /** `get_binary_model_state`: the marked array with the aisle columns and rows removed. */
  function Snapshot(d: Layout, roster: seq<Student>): (g: Grid<int>)
    requires PositionsInside(d, roster)
    ensures g.Valid()
    ensures g.rows == |Kept(d.width, SetOf(d.aislesX))| && g.cols == |Kept(d.numRows, SetOf(d.aislesY))|
  {
    DeleteColumns(DeleteRows(Marked(d, roster), SetOf(d.aislesX)), SetOf(d.aislesY))
  }

  /** A cell of the full array is 1 exactly when a student stands on it, unless a student
      without a position has set every cell. */
  lemma {:induction false} MarkedMeaning(d: Layout, roster: seq<Student>)
    requires PositionsInside(d, roster)
    ensures forall x, y :: 0 <= x < d.width && 0 <= y < d.numRows ==>
              Marked(d, roster).cells[x][y] == (if SomeUnplaced(roster) || StudentsAt(roster, Pos(x, y)) > 0 then 1 else 0)
  {
    if roster != [] {
      var n := |roster|;
      var front := roster[..n - 1];
      var last := roster[n - 1];
      MarkedMeaning(d, front);
      assert SomeUnplaced(roster) <==> SomeUnplaced(front) || last.pos.None? by {
        if SomeUnplaced(front) {
          var i :| 0 <= i < |front| && front[i].pos.None?;
          assert roster[i] == front[i];
        }
        if SomeUnplaced(roster) && !last.pos.None? {
          var i :| 0 <= i < n && roster[i].pos.None?;
          assert front[i] == roster[i];
        }
      }
    }
  }

  /** The snapshot holds one 0/1 entry per seat: entry `(i, j)` is the seat on the `i`-th
      non-aisle column and the `j`-th non-aisle row, and is 1 exactly when a student stands
      there (or every entry is 1, when some student has no position). */
  lemma SnapshotMeaning(d: Layout, roster: seq<Student>)
    requires PositionsInside(d, roster)
    ensures forall i :: 0 <= i < |SeatXs(d)| ==> SeatXs(d)[i] < d.width
    ensures forall j :: 0 <= j < |SeatYs(d)| ==> SeatYs(d)[j] < d.numRows
    ensures SomeUnplaced(roster) ==>
              forall i, j :: 0 <= i < |SeatXs(d)| && 0 <= j < |SeatYs(d)| ==> Snapshot(d, roster).cells[i][j] == 1
    ensures !SomeUnplaced(roster) ==>
              forall i, j :: 0 <= i < |SeatXs(d)| && 0 <= j < |SeatYs(d)| ==>
                Snapshot(d, roster).cells[i][j] == (if StudentsAt(roster, Pos(SeatXs(d)[i], SeatYs(d)[j])) > 0 then 1 else 0)
  {
    var m := Marked(d, roster);
    var rows := DeleteRows(m, SetOf(d.aislesX));
    var kx := Kept(d.width, SetOf(d.aislesX));
    var ky := Kept(d.numRows, SetOf(d.aislesY));
    MarkedMeaning(d, roster);
    KeptMembers(d.width, SetOf(d.aislesX));
    KeptMembers(d.numRows, SetOf(d.aislesY));
    DeleteIsKept(m.cells, SetOf(d.aislesX));
    var s := DeleteColumns(rows, SetOf(d.aislesY));
    forall i | 0 <= i < |kx|
      ensures kx[i] < d.width
      ensures forall j :: 0 <= j < |ky| ==> ky[j] < d.numRows && s.cells[i][j] == m.cells[kx[i]][ky[j]]
    {
      assert rows.cells[i] == m.cells[kx[i]];
      assert s.cells[i] == DeleteAt(m.cells[kx[i]], SetOf(d.aislesY));
      DeleteIsKept(m.cells[kx[i]], SetOf(d.aislesY));
    }
  }

  /** With distinct, in-range aisles the snapshot has `seat_count` entries. */
  lemma SnapshotShape(d: Layout, roster: seq<Student>)
    requires PositionsInside(d, roster)
    requires Distinct(d.aislesX) && forall k :: 0 <= k < |d.aislesX| ==> d.aislesX[k] < d.width
    requires Distinct(d.aislesY) && forall k :: 0 <= k < |d.aislesY| ==> d.aislesY[k] < d.numRows
    ensures Snapshot(d, roster).rows == d.width - |d.aislesX|
    ensures Snapshot(d, roster).cols == d.numRows - |d.aislesY|
    ensures d.seatCount == (d.width - |d.aislesX|) * (d.numRows - |d.aislesY|) ==>
              Snapshot(d, roster).rows * Snapshot(d, roster).cols == d.seatCount
  {
    KeptAfterDistinct(d.width, d.aislesX);
    KeptAfterDistinct(d.numRows, d.aislesY);
  }

  // ---------------------------------------------------------------------------
  // Occupancy counts

  lemma {:induction false} NobodyAt(roster: seq<Student>, c: Pos)
    requires forall i :: 0 <= i < |roster| ==> roster[i].pos != Some(c)
    ensures StudentsAt(roster, c) == 0
  {
    if roster != [] {
      NobodyAt(roster[..|roster| - 1], c);
    }
  }

  /** A cell where no two students stand holds at most one. */
  lemma {:induction false} AtMostOneAt(roster: seq<Student>, c: Pos)
    requires forall i, j :: 0 <= i < |roster| && 0 <= j < |roster| && roster[i].pos == Some(c) && roster[j].pos == Some(c) ==> i == j
    ensures StudentsAt(roster, c) <= 1
  {
    if roster != [] {
      var n := |roster|;
      var front := roster[..n - 1];
      AtMostOneAt(front, c);
      if roster[n - 1].pos == Some(c) {
        NobodyAt(front, c);
      }
    }
  }

  // ---------------------------------------------------------------------------
  // The model

  class ClassroomModel {
    const classroom: Layout
    /** `[coef_p, coef_f, coef_s, coef_a]`, normalised. */
    const coefs: seq<real>
    const maxNumAgents: nat
    /** The tie matrix of the generated social network. */
    const socialNetwork: seq<seq<real>>
    const sociabilityRange: (real, real)
    /** The sociability values not handed out yet. */
    var sociabilitySequence: seq<real>
    /** Every seat cell and the id of the student on it. */
    var seats: map<Pos, Option<nat>>
    /** The scheduler's students; the student with id `i` is `schedule[i]`. */
    var schedule: seq<Student>

    function Settings(): Setup
    {
      Setup(classroom, coefs, socialNetwork, sociabilityRange)
    }

    /** The state every utility computation needs. */
    ghost predicate Ready()
      reads this
    {
      && WellFormed(classroom)
      && |coefs| == 4
      && Square(socialNetwork, maxNumAgents)
      && |schedule| <= maxNumAgents
      && (forall i :: 0 <= i < |schedule| ==> schedule[i].id == i)
      && PositionsInside(classroom, schedule)
    }

    /** The model's invariant: a seat on every seat cell and nowhere else; a seat holds a
        student exactly when that student is seated on it; a student not seated stands on an
        entrance or has no position; enough sociability values remain for the students still
        to come. */
    ghost predicate Valid()
      reads this
    {
      && Ready()
      && |schedule| + |sociabilitySequence| >= maxNumAgents
      && (forall c :: c in seats <==> IsSeatCell(classroom, c))
      && (forall c :: c in seats && seats[c].Some? ==>
            seats[c].value < |schedule| && schedule[seats[c].value].seated && schedule[seats[c].value].pos == Some(c))
      && (forall i :: 0 <= i < |schedule| && schedule[i].seated ==>
            schedule[i].pos.Some? && schedule[i].pos.value in seats && seats[schedule[i].pos.value] == Some(i))
      && (forall i :: 0 <= i < |schedule| && !schedule[i].seated ==>
            schedule[i].pos.None? || schedule[i].pos.value in classroom.entrances)
    }

    /** The divisions in the utilities are defined: a non-degenerate sociability range, a
        vertical aisle and a positive passing bound. */
    ghost predicate UtilitiesDefined()
    {
      sociabilityRange.0 < sociabilityRange.1 && |classroom.aislesX| >= 1 && classroom.maxPass > 0
    }

    /** Every seat is taken. */
    ghost predicate Full()
      reads this
    {
      forall c :: c in seats ==> seats[c].Some?
    }

    constructor (d: Layout, rawCoefs: seq<real>, n: nat, ties: seq<seq<real>>, sociability: seq<real>)
      requires WellFormed(d) && |rawCoefs| == 4 && Square(ties, n)
      requires |sociability| == n && n >= 1
      ensures Valid()
      ensures classroom == d && coefs == Normalised(rawCoefs) && maxNumAgents == n && socialNetwork == ties
      ensures sociabilitySequence == sociability
      ensures sociabilityRange == (SmallestOf(sociability), LargestOf(sociability))
      ensures schedule == []
      ensures forall c :: c in seats ==> seats[c].None?
    {
      var cells := CreateSeats(d);
      classroom := d;
      coefs := Normalised(rawCoefs);
      maxNumAgents := n;
      socialNetwork := ties;
      sociabilitySequence := sociability;
      sociabilityRange := (SmallestOf(sociability), LargestOf(sociability));
      schedule := [];
      seats := cells;
    }

    /** `ClassroomModel.__init__` with the network already generated: fails when the
        sociability sequence does not have one value per student, and when there are no
        students at all (`min` of an empty sequence). */
    static method Create(d: Layout, rawCoefs: seq<real>, degreeSequence: Option<seq<nat>>,
                         ties: seq<seq<real>>, sociability: seq<real>)
      returns (r: Result<ClassroomModel>)
      requires WellFormed(d) && |rawCoefs| == 4
      requires PopulationSize(d, degreeSequence) >= 0
      requires Square(ties, PopulationSize(d, degreeSequence))
      ensures r.Failure? <==> |sociability| != PopulationSize(d, degreeSequence) || |sociability| == 0
      ensures r.Failure? ==> r.error.ValueError?
      ensures r.Success? ==> fresh(r.value) && r.value.Valid()
      ensures r.Success? ==> r.value.maxNumAgents == PopulationSize(d, degreeSequence)
      ensures r.Success? ==> r.value.coefs == Normalised(rawCoefs) && r.value.schedule == []
      ensures r.Success? ==> forall c :: c in r.value.seats ==> r.value.seats[c].None?
      ensures r.Success? ==>
                && r.value.classroom == d && r.value.socialNetwork == ties
                && r.value.sociabilitySequence == sociability
                && r.value.sociabilityRange == (SmallestOf(sociability), LargestOf(sociability))
    {
      var n: nat := PopulationSize(d, degreeSequence);
      if |sociability| != n {
        return Failure(ValueError("'sociability_sequence' and 'degree_sequence' must have same length"));
      }
      if n == 0 {
        return Failure(ValueError("min() arg is an empty sequence"));
      }
      var m := new ClassroomModel(d, rawCoefs, n, ties, sociability);
      r := Success(m);
    }

    // -------------------------------------------------------------------------
    // Seat utilities

    /** `Seat.get_position_utility`. */
    method GetPositionUtility(p: Pos) returns (u: real)
      requires Ready() && InBounds(classroom, p)
      ensures u == PositionUtility(classroom, p)
      ensures 0 <= p.x < classroom.posUtilities.rows && 0 <= p.y < classroom.posUtilities.cols
    {
      u := classroom.posUtilities.cells[p.x][p.y];
    }

    /** `Seat.get_accessibility`: the students on the cells up to each nearest aisle are
        counted one cell at a time. */
    method GetAccessibility(p: Pos) returns (u: real)
      requires Ready() && UtilitiesDefined() && IsSeatCell(classroom, p)
      ensures u == Accessibility(classroom, schedule, p)
    {
      var left := NearestLeft(classroom.aislesX, p.x);
      var right := NearestRight(classroom.aislesX, p.x);
      var countLeft: Option<nat> := None;
      if left.Some? {
        var c := 0;
        for i := left.value + 1 to p.x
          invariant c == CountBetween(schedule, left.value, i, p.y)
        {
          c := c + StudentsAt(schedule, Pos(i, p.y));
        }
        countLeft := Some(c);
      }
      var countRight: Option<nat> := None;
      if right.Some? {
        var c := 0;
        var i := p.x + 1;
        while i < right.value
          invariant p.x + 1 <= i <= right.value
          invariant c == CountBetween(schedule, p.x, i, p.y)
        {
          c := c + StudentsAt(schedule, Pos(i, p.y));
          i := i + 1;
        }
        countRight := Some(c);
      }
      assert classroom.aislesX[0] in classroom.aislesX;
      var m: nat;
      if countLeft.None? {
        m := countRight.value;
      } else if countRight.None? {
        m := countLeft.value;
      } else {
        m := Min(countLeft.value, countRight.value);
      }
      u := 1.0 - (m as real) / (classroom.maxPass as real);
    }

    /** `Seat.get_neighborhood`. */
    method GetNeighborhood(p: Pos, sizeX: nat, sizeY: nat) returns (nb: seq<seq<int>>)
      requires Ready() && sizeX >= 1 && sizeY >= 1
      ensures nb == Neighborhood(classroom, schedule, p, sizeX, sizeY)
      ensures |nb| == OddSize(sizeX) && forall i :: 0 <= i < |nb| ==> |nb[i]| == OddSize(sizeY)
    {
      var nx, ny := OddSize(sizeX), OddSize(sizeY);
      var spec := Neighborhood(classroom, schedule, p, sizeX, sizeY);
      nb := [];
      for i := 0 to nx
        invariant |nb| == i && forall a :: 0 <= a < i ==> nb[a] == spec[a]
      {
        var row: seq<int> := [];
        for j := 0 to ny
          invariant |row| == j && forall b :: 0 <= b < j ==> row[b] == spec[i][b]
        {
          var c := Pos(p.x + i - nx / 2, p.y + j - ny / 2);
          var id := -1;
          if InBounds(classroom, c) {
            id := SeatedIdAt(schedule, c);
          }
          row := row + [id];
        }
        nb := nb + [row];
      }
    }

    /** `Seat.get_social_utility`: the friendship and (rescaled) sociability components. */
    method GetSocialUtility(p: Pos, me: Student) returns (friendship: real, sociability: real)
      requires Ready() && sociabilityRange.0 < sociabilityRange.1 && me.id < maxNumAgents
      ensures Computable(Settings(), schedule, me)
      ensures (friendship, sociability) == SocialUtility(Settings(), schedule, p, me)
    {
      assert Computable(Settings(), schedule, me);
      NeighborhoodFits(Settings(), schedule, p, me);
      var nb := GetNeighborhood(p, |FriendshipKernel|, |FriendshipKernel[0]|);
      friendship, sociability := 0.0, 0.0;
      for x := 0 to |FriendshipKernel|
        invariant friendship == FriendSum(nb, FriendshipKernel, socialNetwork, me.id, x)
        invariant sociability == StrangerSum(nb, SociabilityKernel, socialNetwork, me.id, me.sociability, x)
      {
        var f, s := SocialRow(nb, socialNetwork, me.id, me.sociability, x);
        friendship, sociability := friendship + f, sociability + s;
      }
      var (sMin, sMax) := sociabilityRange;
      sociability := (sociability - sMin) / (sMax - sMin);
    }

    /** `Seat.get_total_utility`. */
    method GetTotalUtility(p: Pos, me: Student) returns (u: real)
      requires Ready() && UtilitiesDefined() && IsSeatCell(classroom, p) && me.id < maxNumAgents
      ensures Computable(Settings(), schedule, me) && Accessible(Settings(), p)
      ensures u == TotalUtility(Settings(), schedule, p, me)
      ensures u == Happiness(Settings(), schedule, p, me) + coefs[3] * Accessibility(classroom, schedule, p)
    {
      var friendship, sociability := GetSocialUtility(p, me);
      var position := GetPositionUtility(p);
      var access := GetAccessibility(p);
      u := coefs[0] * position + coefs[1] * friendship + coefs[2] * sociability + coefs[3] * access;
    }

    /** `Seat.get_happiness`: the total utility without the accessibility term. */
    method GetHappiness(p: Pos, me: Student) returns (h: real)
      requires Ready() && sociabilityRange.0 < sociabilityRange.1 && InBounds(classroom, p) && me.id < maxNumAgents
      ensures Computable(Settings(), schedule, me)
      ensures h == Happiness(Settings(), schedule, p, me)
    {
      var friendship, sociability := GetSocialUtility(p, me);
      var position := GetPositionUtility(p);
      h := coefs[0] * position + coefs[1] * friendship + coefs[2] * sociability;
    }

    // -------------------------------------------------------------------------
    // Seat choice

    /** Student `k` takes the empty seat at `c`: the seat records the student, the student
        moves onto it, records its happiness and is seated. */
    method Occupy(k: nat, c: Pos)
      requires Valid() && sociabilityRange.0 < sociabilityRange.1
      requires k < |schedule| && !schedule[k].seated && c in seats && seats[c].None?
      modifies this
      ensures Valid()
      ensures Computable(Settings(), old(schedule), old(schedule)[k]) && InBounds(classroom, c)
      ensures seats == old(seats)[c := Some(k)]
      ensures schedule == old(schedule)[k := SatDown(Settings(), old(schedule), k, c)]
      ensures sociabilitySequence == old(sociabilitySequence)
    {
      var me := schedule[k];
      // The source computes the happiness after moving the student onto the seat; a
      // student who is not seated does not count in it (`Seats.HappinessIgnoresUnseated`),
      // so it is computed here on the state before the move.
      var h := GetHappiness(c, me);
      seats := seats[c := Some(k)];
      schedule := schedule[k := me.(pos := Some(c), seated := true, initialHappiness := h)];
    }

    /** The empty seat at `c` has the largest total utility for student `k` among the empty
        seats. */
    ghost predicate IsBestSeat(k: nat, c: Pos)
      reads this
      requires Ready() && UtilitiesDefined() && k < |schedule|
    {
      && c in seats && seats[c].None?
      && forall o :: o in seats && seats[o].None? && IsSeatCell(classroom, o) && IsSeatCell(classroom, c) ==>
           TotalUtility(Settings(), schedule, o, schedule[k]) <= TotalUtility(Settings(), schedule, c, schedule[k])
    }

    /** With every coefficient zero, each empty seat is a best seat: the maximiser rule then
        draws from all empty seats, which is the uniform-random choice the flag
        `random_seat_choice` stands for. */
    lemma ZeroCoefficientsAllBest(k: nat)
      requires Ready() && UtilitiesDefined() && k < |schedule|
      requires forall i :: 0 <= i < 4 ==> coefs[i] == 0.0
      ensures forall c :: c in seats && seats[c].None? ==> IsBestSeat(k, c)
    {
      forall c, o | c in seats && seats[c].None? && o in seats && seats[o].None?
                      && IsSeatCell(classroom, o) && IsSeatCell(classroom, c)
        ensures TotalUtility(Settings(), schedule, o, schedule[k]) <= TotalUtility(Settings(), schedule, c, schedule[k])
      {
        ZeroCoefficientsTie(Settings(), schedule, o, c, schedule[k]);
      }
    }

    /** The total utility of every seat in `options` for student `k`
        (`seat_utilities`). */
    method UtilitiesOf(k: nat, options: set<Pos>) returns (utilities: map<Pos, real>)
      requires Ready() && UtilitiesDefined() && k < |schedule|
      requires forall c :: c in options ==> IsSeatCell(classroom, c)
      ensures Computable(Settings(), schedule, schedule[k])
      ensures utilities.Keys == options
      ensures forall c :: c in utilities ==> Accessible(Settings(), c) && utilities[c] == TotalUtility(Settings(), schedule, c, schedule[k])
    {
      utilities := map[];
      var rest := options;
      while rest != {}
        invariant rest <= options
        invariant forall c :: c in utilities <==> c in options && c !in rest
        invariant forall c :: c in utilities ==> Accessible(Settings(), c) && utilities[c] == TotalUtility(Settings(), schedule, c, schedule[k])
        decreases rest
      {
        var c :| c in rest;
        var u := GetTotalUtility(c, schedule[k]);
        utilities := utilities[c := u];
        rest := rest - {c};
      }
    }

    /** `Student.choose_seat()` in utility mode: among the empty seats the student takes one
        of largest total utility; which of several equal ones is left open. With no empty
        seat nothing changes. */
    method ChooseSeat(k: nat) returns (choice: Option<Pos>)
      requires Valid() && UtilitiesDefined() && k < |schedule| && !schedule[k].seated
      modifies this
      ensures Valid()
      ensures sociabilitySequence == old(sociabilitySequence)
      ensures choice.None? <==> old(Full())
      ensures choice.None? ==> seats == old(seats) && schedule == old(schedule)
      ensures choice.Some? ==> old(IsBestSeat(k, choice.value))
      ensures choice.Some? ==> Computable(Settings(), old(schedule), old(schedule)[k]) && InBounds(classroom, choice.value)
      ensures choice.Some? ==> seats == old(seats)[choice.value := Some(k)]
      ensures choice.Some? ==> schedule == old(schedule)[k := SatDown(Settings(), old(schedule), k, choice.value)]
    {
      choice := BestEmptySeat(k);
      if choice.Some? {
        Occupy(k, choice.value);
      }
    }

    /** The selection half of `Student.choose_seat()`: an empty seat of largest total
        utility, or none when every seat is taken. */
    method BestEmptySeat(k: nat) returns (choice: Option<Pos>)
      requires Valid() && UtilitiesDefined() && k < |schedule|
      ensures choice.None? <==> Full()
      ensures choice.Some? ==> IsBestSeat(k, choice.value)
    {
      var options := set c | c in seats && seats[c].None?;
      assert forall c :: c in seats && seats[c].None? ==> c in options;
      if options == {} {
        return None;
      }
      var utilities := UtilitiesOf(k, options);
      var best := LargestValue(utilities);
      var chosen :| chosen in utilities && utilities[chosen] == best;
      choice := Some(chosen);
    }

    /** `Student.choose_seat(seat_pos)`: the seat at `p` is taken only if it exists and is
        empty; otherwise nothing changes. */
    method ChooseSeatAt(k: nat, p: Pos) returns (taken: bool)
      requires Valid() && sociabilityRange.0 < sociabilityRange.1 && k < |schedule| && !schedule[k].seated
      modifies this
      ensures Valid()
      ensures sociabilitySequence == old(sociabilitySequence)
      ensures taken <==> p in old(seats) && old(seats)[p].None?
      ensures !taken ==> seats == old(seats) && schedule == old(schedule)
      ensures taken ==> Computable(Settings(), old(schedule), old(schedule)[k]) && InBounds(classroom, p)
      ensures taken ==> seats == old(seats)[p := Some(k)]
      ensures taken ==> schedule == old(schedule)[k := SatDown(Settings(), old(schedule), k, p)]
    {
      taken := p in seats && seats[p].None?;
      if taken {
        Occupy(k, p);
      }
    }

    // -------------------------------------------------------------------------
    // Ticks

    /** `Student.step`: a student who is not seated chooses a seat; a seated student does
        nothing. */
    method StudentStep(k: nat)
      requires Valid() && UtilitiesDefined() && k < |schedule|
      modifies this
      ensures Valid()
      ensures sociabilitySequence == old(sociabilitySequence) && |schedule| == old(|schedule|)
      ensures old(schedule[k].seated) ==> seats == old(seats) && schedule == old(schedule)
      ensures schedule[k].seated || Full()
      ensures schedule[k].id == old(schedule[k].id) && schedule[k].sociability == old(schedule[k].sociability)
      ensures forall i :: 0 <= i < |schedule| && i != k ==> schedule[i] == old(schedule)[i]
      ensures forall c :: c in old(seats) && old(seats)[c].Some? ==> seats[c] == old(seats)[c]
      ensures old(Full()) ==> Full()
      ensures !old(schedule[k].seated) && old(Full()) ==> seats == old(seats) && schedule == old(schedule)
      ensures !old(schedule[k].seated) && !old(Full()) ==>
                exists c :: old(IsBestSeat(k, c))
                  && Computable(Settings(), old(schedule), old(schedule)[k]) && InBounds(classroom, c)
                  && seats == old(seats)[c := Some(k)]
                  && schedule == old(schedule)[k := SatDown(Settings(), old(schedule), k, c)]
    {
      if !schedule[k].seated {
        var choice := ChooseSeat(k);
      }
    }

    /** One activation by the scheduler: `Student.step`, as far as the activation loop needs
        it (who may change, and that the student ends seated unless the room is full). */
    method Activate(k: nat)
      requires Valid() && UtilitiesDefined() && k < |schedule|
      modifies this
      ensures Valid()
      ensures sociabilitySequence == old(sociabilitySequence) && |schedule| == old(|schedule|)
      ensures schedule[k].seated || Full()
      ensures schedule[k].sociability == old(schedule[k].sociability)
      ensures old(schedule[k].seated) ==> schedule == old(schedule)
      ensures forall i :: 0 <= i < |schedule| && i != k ==> schedule[i] == old(schedule)[i]
      ensures forall c :: c in old(seats) && old(seats)[c].Some? ==> seats[c] == old(seats)[c]
      ensures old(Full()) ==> Full()
    {
      StudentStep(k);
    }

    /** The admission half of a tick: a new student with the next id stands on one of the
        entrances, taking the next sociability value only when the sociability coefficient is
        non-zero. */
    method Admit()
      requires Valid() && |schedule| < maxNumAgents
      requires |classroom.entrances| >= 1 && forall e :: e in classroom.entrances ==> InBounds(classroom, e)
      modifies this
      ensures Valid()
      ensures seats == old(seats)
      ensures |schedule| == old(|schedule|) + 1 && schedule[..old(|schedule|)] == old(schedule)
      ensures var s := schedule[old(|schedule|)];
              && s.id == old(|schedule|) && !s.seated
              && s.pos.Some? && s.pos.value in classroom.entrances
              && s.sociability == (if coefs[2] != 0.0 then old(sociabilitySequence)[0] else 0.0)
      ensures sociabilitySequence == (if coefs[2] != 0.0 then old(sociabilitySequence)[1..] else old(sociabilitySequence))
    {
      var n := |schedule|;
      var sociability := 0.0;
      if coefs[2] != 0.0 {
        sociability := sociabilitySequence[0];
        sociabilitySequence := sociabilitySequence[1..];
      }
      assert classroom.entrances[0] in classroom.entrances;
      var entrance :| entrance in classroom.entrances;
      schedule := schedule + [Student(n, sociability, false, 0.0, Some(entrance))];
    }

    /** The scheduler's step: every student acts once, in an order the model leaves open.
        Afterwards nobody is left standing while a seat is free. */
    method ActivateAll()
      requires Valid() && UtilitiesDefined()
      modifies this
      ensures Valid()
      ensures sociabilitySequence == old(sociabilitySequence) && |schedule| == old(|schedule|)
      ensures forall i :: 0 <= i < |schedule| ==> schedule[i].sociability == old(schedule)[i].sociability
      ensures forall i :: 0 <= i < |schedule| && old(schedule)[i].seated ==> schedule[i] == old(schedule)[i]
      ensures forall c :: c in old(seats) && old(seats)[c].Some? ==> seats[c] == old(seats)[c]
      ensures Full() || forall i :: 0 <= i < |schedule| ==> schedule[i].seated
    {
      var pending := SetOf(Range(|schedule|));
      forall i | 0 <= i < |schedule| ensures i in pending {
        assert Range(|schedule|)[i] == i;
      }
      while pending != {}
        invariant Valid()
        invariant sociabilitySequence == old(sociabilitySequence) && |schedule| == old(|schedule|)
        invariant forall i :: 0 <= i < |schedule| ==> schedule[i].sociability == old(schedule)[i].sociability
        invariant forall i :: 0 <= i < |schedule| && old(schedule)[i].seated ==> schedule[i] == old(schedule)[i]
        invariant forall c :: c in old(seats) && old(seats)[c].Some? ==> seats[c] == old(seats)[c]
        invariant forall i :: 0 <= i < |schedule| && i !in pending ==> schedule[i].seated || Full()
        invariant forall i :: i in pending ==> i < |schedule|
        decreases pending
      {
        var k :| k in pending;
        Activate(k);
        pending := pending - {k};
      }
    }

    /** `ClassroomModel.step`: while the population is not complete a new student is
        admitted; then every student acts once. */
    method Step()
      requires Valid() && UtilitiesDefined()
      requires |schedule| < maxNumAgents ==>
                 |classroom.entrances| >= 1 && forall e :: e in classroom.entrances ==> InBounds(classroom, e)
      modifies this
      ensures Valid()
      ensures old(|schedule|) < maxNumAgents ==>
                && |schedule| == old(|schedule|) + 1
                && schedule[old(|schedule|)].id == old(|schedule|)
                && schedule[old(|schedule|)].sociability == (if coefs[2] != 0.0 then old(sociabilitySequence)[0] else 0.0)
                && sociabilitySequence == (if coefs[2] != 0.0 then old(sociabilitySequence)[1..] else old(sociabilitySequence))
      ensures old(|schedule|) >= maxNumAgents ==>
                |schedule| == old(|schedule|) && sociabilitySequence == old(sociabilitySequence)
      ensures forall i :: 0 <= i < old(|schedule|) ==> schedule[i].sociability == old(schedule)[i].sociability
      ensures forall i :: 0 <= i < old(|schedule|) && old(schedule)[i].seated ==> schedule[i] == old(schedule)[i]
      ensures forall c :: c in old(seats) && old(seats)[c].Some? ==> seats[c] == old(seats)[c]
      ensures Full() || forall i :: 0 <= i < |schedule| ==> schedule[i].seated
    {
      if |schedule| < maxNumAgents {
        Admit();
      }
      ActivateAll();
    }

    /** `ClassroomModel.step_predetermined_seating`: while the population is not complete a
        new student with the next id and sociability 0 is admitted straight to the seat at
        `p`, if that seat exists and is empty. */
    method StepPredeterminedSeating(p: Pos) returns (taken: bool)
      requires Valid() && sociabilityRange.0 < sociabilityRange.1
      modifies this
      ensures Valid()
      ensures sociabilitySequence == old(sociabilitySequence)
      ensures old(|schedule|) >= maxNumAgents ==> !taken && schedule == old(schedule) && seats == old(seats)
      ensures old(|schedule|) < maxNumAgents ==>
                && |schedule| == old(|schedule|) + 1
                && schedule[..old(|schedule|)] == old(schedule)
                && schedule[old(|schedule|)].id == old(|schedule|)
                && schedule[old(|schedule|)].sociability == 0.0
                && (taken <==> p in old(seats) && old(seats)[p].None?)
                && (taken ==> schedule[old(|schedule|)].seated && schedule[old(|schedule|)].pos == Some(p)
                              && seats == old(seats)[p := Some(old(|schedule|))])
                && (!taken ==> !schedule[old(|schedule|)].seated && seats == old(seats))
    {
      taken := false;
      var n := |schedule|;
      if n < maxNumAgents {
        schedule := schedule + [Student(n, 0.0, false, 0.0, None)];
        taken := ChooseSeatAt(n, p);
      }
    }

    /** `ClassroomModel.get_binary_model_state`: the occupancy of every seat, as 0/1 entries
        with the aisle columns and rows removed; the model is left unchanged. */
    method GetBinaryModelState() returns (state: Grid<int>)
      requires Ready()
      ensures state == Snapshot(classroom, schedule)
      ensures state.rows == |Kept(classroom.width, SetOf(classroom.aislesX))|
      ensures state.cols == |Kept(classroom.numRows, SetOf(classroom.aislesY))|
    {
      var marked := Filled(classroom.width, classroom.numRows, 0);
      for i := 0 to |schedule|
        invariant marked == Marked(classroom, schedule[..i])
      {
        assert schedule[..i + 1][..i] == schedule[..i];
        marked := Mark(marked, schedule[i].pos);
      }
      assert schedule[..|schedule|] == schedule;
      marked := DeleteRows(marked, SetOf(classroom.aislesX));
      state := DeleteColumns(marked, SetOf(classroom.aislesY));
    }

    // -------------------------------------------------------------------------
    // Properties of the model's states

    /** In a valid state a seat cell holds at most one student, when no entrance is a seat
        cell: seated students have distinct seats and the others stand on entrances. */
    lemma OneStudentPerSeat()
      requires Valid()
      requires forall e :: e in classroom.entrances ==> !IsSeatCell(classroom, e)
      ensures forall c :: IsSeatCell(classroom, c) ==> StudentsAt(schedule, c) <= 1
    {
      forall c | IsSeatCell(classroom, c) ensures StudentsAt(schedule, c) <= 1 {
        AtMostOneAt(schedule, c);
      }
    }

    /** Every seat's accessibility lies in [0, 1] in a valid state of a classroom of at least
        two blocks with a positive passing bound and entrances off the seats. */
    lemma AccessibilityOfEverySeat(blocks: seq<nat>)
      requires Valid() && BuiltFrom(classroom, blocks) && |blocks| >= 2 && classroom.maxPass > 0
      requires forall e :: e in classroom.entrances ==> !IsSeatCell(classroom, e)
      ensures forall c :: c in seats ==> |classroom.aislesX| >= 1 && 0.0 <= Accessibility(classroom, schedule, c) <= 1.0
    {
      OneStudentPerSeat();
      forall c | c in seats ensures |classroom.aislesX| >= 1 && 0.0 <= Accessibility(classroom, schedule, c) <= 1.0 {
        AccessibilityInUnitRange(classroom, blocks, schedule, c);
      }
    }

    /** No more students are seated than there are seats. */
    lemma SeatedWithinCapacity()
      requires Valid()
      ensures |set i: nat | i < |schedule| && schedule[i].seated| <= |seats.Keys|
    {
      var seated := set i: nat | i < |schedule| && schedule[i].seated;
      var taken := set c | c in seats && seats[c].Some? :: seats[c].value;
      assert seated <= taken by {
        forall i | i in seated ensures i in taken {
          var c := schedule[i].pos.value;
          assert seats[c] == Some(i);
        }
      }
      ImageNoLarger(seats);
      SubsetNoLarger(seated, taken);
    }
  }

  /** One kernel row of the double loop in `get_social_utility` (model.py:278-290): the
      friendship terms of row `x` and the sociability terms of its occupants without a tie. */
  method SocialRow(nb: seq<seq<int>>, ties: seq<seq<real>>, me: nat, s: real, x: nat) returns (f: real, soc: real)
    requires Fits(nb, FriendshipKernel, ties, me) && x < |FriendshipKernel|
    ensures f == FriendRow(nb, FriendshipKernel, ties, me, x, |FriendshipKernel[0]|)
    ensures soc == StrangerRow(nb, SociabilityKernel, ties, me, s, x, |SociabilityKernel[0]|)
  {
    assert Fits(nb, SociabilityKernel, ties, me);
    f, soc := 0.0, 0.0;
    for y := 0 to |FriendshipKernel[0]|
      invariant f == FriendRow(nb, FriendshipKernel, ties, me, x, y)
      invariant soc == StrangerRow(nb, SociabilityKernel, ties, me, s, x, y)
    {
      if nb[x][y] >= 0 {
        var tie := ties[me][nb[x][y]];
        f := f + FriendshipKernel[x][y] * tie;
        if tie == 0.0 {
          soc := soc + SociabilityKernel[x][y] * s;
        }
      }
    }
  }

  /** `np.max` of the utilities. */
  method LargestValue(utilities: map<Pos, real>) returns (best: real)
    requires utilities != map[]
    ensures best in utilities.Values
    ensures forall c :: c in utilities ==> utilities[c] <= best
  {
    var first :| first in utilities;
    best := utilities[first];
    var rest := utilities.Keys - {first};
    while rest != {}
      invariant rest <= utilities.Keys
      invariant best in utilities.Values
      invariant forall c :: c in utilities && c !in rest ==> utilities[c] <= best
      decreases rest
    {
      var c :| c in rest;
      if utilities[c] > best {
        best := utilities[c];
      }
      rest := rest - {c};
    }
  }

  lemma SubsetNoLarger(a: set<nat>, b: set<nat>)
    requires a <= b
    ensures |a| <= |b|
  {
    assert b == a + (b - a);
  }

  /** The ids recorded in a map of seats are no more than its seats. */
  lemma {:induction false} ImageNoLarger(seats: map<Pos, Option<nat>>)
    ensures |set c | c in seats && seats[c].Some? :: seats[c].value| <= |seats.Keys|
    decreases |seats.Keys|
  {
    var image := set c | c in seats && seats[c].Some? :: seats[c].value;
    if seats.Keys != {} {
      var c0 :| c0 in seats.Keys;
      var rest := map c | c in seats && c != c0 :: seats[c];
      assert rest.Keys == seats.Keys - {c0};
      ImageNoLarger(rest);
      var restImage := set c | c in rest && rest[c].Some? :: rest[c].value;
      if seats[c0].Some? {
        forall v | v in image ensures v in restImage + {seats[c0].value} {
          var c :| c in seats && seats[c].Some? && seats[c].value == v;
          if c != c0 { assert c in rest && rest[c] == seats[c]; }
        }
        SubsetNoLarger(image, restImage + {seats[c0].value});
      } else {
        forall v | v in image ensures v in restImage {
          var c :| c in seats && seats[c].Some? && seats[c].value == v;
          assert c in rest && rest[c] == seats[c];
        }
        SubsetNoLarger(image, restImage);
      }
    } else {
      assert image == {};
    }
  }
}
