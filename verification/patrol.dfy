/** Iterated movement: the patrol a cell walks tick after tick, its period and
    the net displacement of one full cycle. */
module Patrol {
  import opened Results
  import opened Schedule
  import opened CellState

  /** The cell translated by (dx, dy). */
  function Shift(c: Cell, dx: int, dy: int): Cell {
    c.(x := c.x + dx, y := c.y + dy)
  }

  /** The cell after `k` calls of `move`. */
  function Moves(c: Cell, k: nat): (r: Cell)
    requires MovementOk(c)
    ensures MovementOk(r)
    ensures r.(x := c.x, y := c.y, moveIndex := c.moveIndex, distanceMoved := c.distanceMoved) == c
    ensures k > 0 ==> r.distanceMoved >= 1
    ensures r.x - c.x <= k && c.x - r.x <= k && r.y - c.y <= k && c.y - r.y <= k
    decreases k
  {
    if k == 0 then c else Moves(Move(c).value, k - 1)
  }

  /** Number of ticks the first `m` steps of the schedule last. */
  function Prefix(ml: MoveList, m: nat): (t: nat)
    requires WellFormed(ml) && m <= |ml.directions|
    ensures t >= m
  {
    SumBounds(ml, m);
    DurationSum(ml.distances, m)
  }

  /** Number of ticks in one full cycle of the schedule. */
  function Period(ml: MoveList): (p: nat)
    requires WellFormed(ml)
    ensures p >= |ml.directions|
  {
    Prefix(ml, |ml.directions|)
  }

  /** Net displacement of the first `m` steps of the schedule, each held for
      its full duration. */
  function Path(ml: MoveList, m: nat): (int, int)
    requires m <= |ml.directions| && m <= |ml.distances|
  {
    if m == 0 then (0, 0)
    else
      var prev := Path(ml, m - 1);
      var step := Offset(ml.directions[m - 1], ml.distances[m - 1]);
      (prev.0 + step.0, prev.1 + step.1)
  }

  /** Net displacement of one full cycle of the schedule. */
  function CycleDisplacement(ml: MoveList): (int, int)
    requires WellFormed(ml)
  {
    Path(ml, |ml.directions|)
  }

  /** The cell placed at the end of step `i`: index `i`, its duration used up. */
  function EndOf(c: Cell, i: int): Cell
    requires 0 <= i < |c.moveList.distances|
  {
    c.(moveIndex := i, distanceMoved := c.moveList.distances[i])
  }

  /** The index that precedes `i` in the cyclic schedule. */
  function Prev(ml: MoveList, i: int): int
    requires WellFormed(ml) && 0 <= i < |ml.directions|
  {
    if i == 0 then |ml.directions| - 1 else i - 1
  }

  /** The index that follows `i` in the cyclic schedule. */
  function Next(ml: MoveList, i: int): int
    requires WellFormed(ml) && 0 <= i < |ml.directions|
  {
    if i + 1 == |ml.directions| then 0 else i + 1
  }

  /** `move` does not look at the position: translating before or after it is the same. */
  lemma MoveCommutesWithShift(c: Cell, dx: int, dy: int)
    requires MovementOk(c)
    ensures Move(Shift(c, dx, dy)) == Ok(Shift(Move(c).value, dx, dy))
  {
  }

  lemma {:induction false} MovesCommuteWithShift(c: Cell, k: nat, dx: int, dy: int)
    requires MovementOk(c)
    ensures Moves(Shift(c, dx, dy), k) == Shift(Moves(c, k), dx, dy)
    decreases k
  {
    if k > 0 {
      MoveCommutesWithShift(c, dx, dy);
      MovesCommuteWithShift(Move(c).value, k - 1, dx, dy);
    }
  }

  /** Running `a` ticks and then `b` more is running `a + b` ticks. */
  lemma {:induction false} MovesAdd(c: Cell, a: nat, b: nat)
    requires MovementOk(c)
    ensures Moves(c, a + b) == Moves(Moves(c, a), b)
    decreases a
  {
    if a > 0 {
      MovesAdd(Move(c).value, a - 1, b);
    }
  }

  /** Ticks that stay inside the current step keep the index, count up the
      distance and move in a straight line. */
  lemma {:induction false} WithinStep(c: Cell, k: nat)
    requires MovementOk(c)
    requires c.distanceMoved + k <= c.moveList.distances[c.moveIndex]
    ensures var off := Offset(c.moveList.directions[c.moveIndex], k);
            Moves(c, k) == Shift(c.(distanceMoved := c.distanceMoved + k), off.0, off.1)
    decreases k
  {
    if k > 0 {
      var dir := c.moveList.directions[c.moveIndex];
      var one := Offset(dir, 1);
      var c1 := Move(c).value;
      assert c1 == Shift(c.(distanceMoved := c.distanceMoved + 1), one.0, one.1);
      WithinStep(c1, k - 1);
    }
  }

  /** The tick after a step's duration is used up enters the next step. */
  lemma EnterNextStep(c: Cell)
    requires MovementOk(c) && c.distanceMoved == c.moveList.distances[c.moveIndex]
    ensures var j := Next(c.moveList, c.moveIndex);
            var one := Offset(c.moveList.directions[j], 1);
            Move(c) == Ok(Shift(c.(moveIndex := j, distanceMoved := 1), one.0, one.1))
  {
  }

  /** From the end of a step, the next step is walked in full. */
  lemma {:induction false} FullStep(c: Cell)
    requires MovementOk(c) && c.distanceMoved == c.moveList.distances[c.moveIndex]
    ensures var j := Next(c.moveList, c.moveIndex);
            var off := Offset(c.moveList.directions[j], c.moveList.distances[j]);
            Moves(c, c.moveList.distances[j]) == Shift(EndOf(c, j), off.0, off.1)
  {
    var j := Next(c.moveList, c.moveIndex);
    var dir := c.moveList.directions[j];
    var d := c.moveList.distances[j];
    var one := Offset(dir, 1);
    assert d > 0;
    EnterNextStep(c);
    var start := c.(moveIndex := j, distanceMoved := 1);
    assert Moves(c, d) == Moves(Shift(start, one.0, one.1), d - 1);
    WithinStep(start, d - 1);
    MovesCommuteWithShift(start, d - 1, one.0, one.1);
  }

  /** Walking one more full step after reaching the end of a step. */
  lemma ExtendByStep(c: Cell, a: nat, e: Cell, dx: int, dy: int)
    requires MovementOk(c) && MovementOk(e)
    requires e.distanceMoved == e.moveList.distances[e.moveIndex]
    requires Moves(c, a) == Shift(e, dx, dy)
    ensures var j := Next(e.moveList, e.moveIndex);
            var d := e.moveList.distances[j];
            var off := Offset(e.moveList.directions[j], d);
            Moves(c, a + d) == Shift(EndOf(e, j), dx + off.0, dy + off.1)
  {
    var j := Next(e.moveList, e.moveIndex);
    var d := e.moveList.distances[j];
    MovesAdd(c, a, d);
    MovesCommuteWithShift(e, d, dx, dy);
    FullStep(e);
  }

  /** From the end of the last step, the first `m` steps are walked in
      `Prefix(m)` ticks and displace the cell by `Path(m)`. */
  lemma {:induction false} WalkSteps(c: Cell, m: nat)
    requires MovementOk(c)
    requires c.moveIndex == |c.moveList.directions| - 1
    requires c.distanceMoved == c.moveList.distances[c.moveIndex]
    requires m <= |c.moveList.directions|
    ensures var p := Path(c.moveList, m);
            Moves(c, Prefix(c.moveList, m)) == Shift(EndOf(c, if m == 0 then c.moveIndex else m - 1), p.0, p.1)
    decreases m
  {
    var ml := c.moveList;
    if m > 0 {
      var i := if m == 1 then c.moveIndex else m - 2;
      var p := Path(ml, m - 1);
      var e := EndOf(c, i);
      WalkSteps(c, m - 1);
      assert Moves(c, Prefix(ml, m - 1)) == Shift(e, p.0, p.1);
      assert Next(ml, i) == m - 1;
      ExtendByStep(c, Prefix(ml, m - 1), e, p.0, p.1);
      assert Prefix(ml, m) == Prefix(ml, m - 1) + ml.distances[m - 1];
      assert EndOf(e, m - 1) == EndOf(c, m - 1);
    }
  }

  /** One full period from the end of the last step brings the schedule back to
      the same place and moves the cell by the cycle's displacement. */
  lemma {:induction false} CycleFromEnd(c: Cell)
    requires MovementOk(c)
    requires c.moveIndex == |c.moveList.directions| - 1
    requires c.distanceMoved == c.moveList.distances[c.moveIndex]
    ensures var p := CycleDisplacement(c.moveList);
            Moves(c, Period(c.moveList)) == Shift(c, p.0, p.1)
  {
    WalkSteps(c, |c.moveList.directions|);
  }

  /** Every state that has counted at least one tick of its step is reached from
      the end of the previous step after `distanceMoved` ticks. */
  lemma {:induction false} OnCycle(c: Cell)
    requires MovementOk(c) && c.distanceMoved >= 1
    ensures var back := Offset(c.moveList.directions[c.moveIndex], -c.distanceMoved);
            Moves(Shift(EndOf(c, Prev(c.moveList, c.moveIndex)), back.0, back.1), c.distanceMoved) == c
  {
    var i := Prev(c.moveList, c.moveIndex);
    var dir := c.moveList.directions[c.moveIndex];
    var j := c.distanceMoved;
    var one := Offset(dir, 1);
    var back := Offset(dir, -j);
    var e := EndOf(c, i);
    assert Next(c.moveList, i) == c.moveIndex;
    EnterNextStep(e);
    var start := c.(distanceMoved := 1);
    assert Moves(e, j) == Moves(Shift(start, one.0, one.1), j - 1);
    WithinStep(start, j - 1);
    MovesCommuteWithShift(start, j - 1, one.0, one.1);
    assert Moves(e, j) == Shift(c, -back.0, -back.1);
    MovesCommuteWithShift(e, j, back.0, back.1);
  }

  /** A translate of any state reached from the end of the last step repeats
      after one period, translated by the cycle's displacement. */
  lemma {:induction false} ReachedIsPeriodic(last: Cell, k: nat, dx: int, dy: int)
    requires MovementOk(last)
    requires last.moveIndex == |last.moveList.directions| - 1
    requires last.distanceMoved == last.moveList.distances[last.moveIndex]
    ensures var c := Shift(Moves(last, k), dx, dy);
            var p := CycleDisplacement(last.moveList);
            Moves(c, Period(last.moveList)) == Shift(c, p.0, p.1)
  {
    var t := Period(last.moveList);
    var p := CycleDisplacement(last.moveList);
    MovesCommuteWithShift(Moves(last, k), t, dx, dy);
    MovesAdd(last, k, t);
    MovesAdd(last, t, k);
    CycleFromEnd(last);
    MovesCommuteWithShift(last, k, p.0, p.1);
  }

  /** The patrol is periodic: from any state that has counted a tick of its
      step, one period of ticks restores the schedule state and translates the
      cell by the cycle's displacement. */
  lemma {:induction false} PatrolIsPeriodic(c: Cell)
    requires MovementOk(c) && c.distanceMoved >= 1
    ensures var p := CycleDisplacement(c.moveList);
            Moves(c, Period(c.moveList)) == Shift(c, p.0, p.1)
  {
    var ml := c.moveList;
    var i := Prev(ml, c.moveIndex);
    var j := c.distanceMoved;
    var back := Offset(ml.directions[c.moveIndex], -j);
    var last := EndOf(c, |ml.directions| - 1);
    var q := Path(ml, c.moveIndex);
    var pre := Prefix(ml, c.moveIndex);
    // the end of the previous step, as reached from `last`
    WalkSteps(last, c.moveIndex);
    assert EndOf(last, i) == EndOf(c, i);
    assert Moves(last, pre) == Shift(EndOf(c, i), q.0, q.1);
    // and `c` itself, `j` ticks later
    OnCycle(c);
    var dx := back.0 - q.0;
    var dy := back.1 - q.1;
    assert Shift(Moves(last, pre), dx, dy) == Shift(EndOf(c, i), back.0, back.1);
    MovesCommuteWithShift(Moves(last, pre), j, dx, dy);
    MovesAdd(last, pre, j);
    assert c == Shift(Moves(last, pre + j), dx, dy);
    ReachedIsPeriodic(last, pre + j, dx, dy);
  }

  /** A cell that has not yet counted a tick of its step makes the same move as
      one standing at the end of the previous step. */
  lemma FreshStateJoinsCycle(c: Cell, k: nat)
    requires MovementOk(c) && c.distanceMoved == 0 && k >= 1
    ensures Moves(c, k) == Moves(EndOf(c, Prev(c.moveList, c.moveIndex)), k)
  {
    var e := EndOf(c, Prev(c.moveList, c.moveIndex));
    assert Next(c.moveList, Prev(c.moveList, c.moveIndex)) == c.moveIndex;
    EnterNextStep(e);
    assert Move(c) == Move(e);
  }

  /** From the first tick on, every cell's patrol repeats with the period of
      its schedule, translated by the cycle's displacement each time. */
  lemma {:induction false} EventuallyPeriodic(c: Cell, k: nat)
    requires MovementOk(c) && k >= 1
    ensures var p := CycleDisplacement(c.moveList);
            Moves(c, k + Period(c.moveList)) == Shift(Moves(c, k), p.0, p.1)
  {
    PatrolIsPeriodic(Moves(c, k));
    MovesAdd(c, k, Period(c.moveList));
  }

  /** The default patrol lasts 80 ticks and returns to where it started. */
  lemma DefaultCycle()
    ensures Period(DefaultMoveList()) == 80
    ensures CycleDisplacement(DefaultMoveList()) == (0, 0)
  {
    var ml := DefaultMoveList();
    assert Prefix(ml, 4) == 80;
    assert Path(ml, 4) == (0, 0);
  }

  /** A cell on the default patrol: the first 80 ticks from a fresh state end
      at the last step with the position unchanged, and from the first tick on
      the whole state repeats every 80 ticks. */
  lemma {:induction false} DefaultPatrolIsClosed(c: Cell, k: nat)
    requires c.moveList == DefaultMoveList() && MovementOk(c)
    ensures c.moveIndex == 0 && c.distanceMoved == 0 ==>
              Moves(c, 80) == c.(moveIndex := 3, distanceMoved := 20)
    ensures k >= 1 ==> Moves(c, k + 80) == Moves(c, k)
  {
    DefaultCycle();
    if c.moveIndex == 0 && c.distanceMoved == 0 {
      FreshStateJoinsCycle(c, 80);
      CycleFromEnd(EndOf(c, 3));
    }
    if k >= 1 {
      EventuallyPeriodic(c, k);
    }
  }

  /** `new Cell(x, y)` walks a closed patrol: after 80 ticks it is back where
      it was built, at the end of the last step, and from its first tick on
      its whole state repeats every 80 ticks. */
  lemma NewCellPatrolIsClosed(x: int, y: int, energyDraw: int, k: nat)
    ensures var c := NewCell(x, y, energyDraw);
            Moves(c, 80) == c.(moveIndex := 3, distanceMoved := 20)
    ensures var c := NewCell(x, y, energyDraw);
            k >= 1 ==> Moves(c, k + 80) == Moves(c, k)
  {
    DefaultPatrolIsClosed(NewCell(x, y, energyDraw), k);
  }
}
