/** The state of one cell and its movement state machine: the two
    constructors, `incMoveIndex`, `getCurrentMove` and `move`. */
module CellState {
  import opened Results
  import opened Schedule

  /** Field initialisers of src/Cell.java. */
  const DefaultSize: int := 5
  const DefaultMetabolicRate: real := 1.2
  const DefaultStationaryFactor: real := 1.0

  /** Energy never exceeds this after an absorption, and reaching it triggers division. */
  const EnergyCap: real := 1024.0

  /** The state of a cell. The position is the `(x, y)` pair the sprite base
      class keeps; `energy`, `metabolicRate` and `stationaryFactor` are the Java
      floats, modelled as reals. */
  datatype Cell = Cell(
    x: int,
    y: int,
    size: int,
    moveList: MoveList,
    moveIndex: int,
    distanceMoved: int,
    energy: real,
    metabolicRate: real,
    stationaryFactor: real)

  /** The movement state is consistent: a well-formed schedule, the index
      inside it, and no more ticks spent on the current step than it lasts. */
  predicate MovementOk(c: Cell) {
    && WellFormed(c.moveList)
    && 0 <= c.moveIndex < |c.moveList.directions|
    && 0 <= c.distanceMoved <= c.moveList.distances[c.moveIndex]
  }

  /** The whole-cell invariant kept by every tick. */
  predicate Valid(c: Cell) {
    && MovementOk(c)
    && 0.0 <= c.energy <= EnergyCap
    && 0.0 <= c.metabolicRate
    && 0.0 <= c.stationaryFactor <= 1.0
    && c.size > 0
  }

  /** `new Cell(x, y)`: the default patrol, its stationary factor computed, and
      the energy drawn by `rand.nextInt(1024)`. */
  function NewCell(x: int, y: int, energyDraw: int): (c: Cell)
    ensures c.x == x && c.y == y
    ensures c.moveList == DefaultMoveList() && c.moveIndex == 0 && c.distanceMoved == 0
    ensures MovementOk(c)
    ensures c.energy == energyDraw as real
    ensures c.stationaryFactor == 0.0
    ensures 0 <= energyDraw < 1024 ==> Valid(c)
  {
    var ml := DefaultMoveList();
    var s := StationaryFraction(ml);
    Cell(x, y, DefaultSize, ml, 0, 0, energyDraw as real, DefaultMetabolicRate,
         if s.Ok? then s.value else DefaultStationaryFactor)
  }

  /** `new Cell(x, y, shape, moveList)`: the given schedule, everything else
      from the field initialisers (the stationary factor is not recomputed),
      and the energy drawn by `rand.nextInt(1024)`. */
  function NewCellWithMoves(x: int, y: int, moveList: MoveList, energyDraw: int): (c: Cell)
    ensures WellFormed(moveList) && 0 <= energyDraw < 1024 ==> Valid(c)
    ensures c.x == x && c.y == y
    ensures c.moveList == moveList && c.moveIndex == 0 && c.distanceMoved == 0
    ensures c.energy == energyDraw as real
  {
    Cell(x, y, DefaultSize, moveList, 0, 0, energyDraw as real, DefaultMetabolicRate,
         DefaultStationaryFactor)
  }

  /** Java's `%` on a positive divisor: truncating division, so the remainder
      takes the sign of the dividend. */
  function JavaRem(a: int, b: int): (r: int)
    requires b > 0
    ensures a >= 0 ==> 0 <= r < b
    ensures a < 0 ==> -b < r <= 0
    ensures a >= 0 ==> r == a % b
    ensures a < 0 ==> r == -JavaRem(-a, b)
    decreases if a < 0 then 1 else 0
  {
    if a >= 0 then a % b else -((-a) % b)
  }

  /** `incMoveIndex(i)`: advance the index by `i`, wrapping at the length of the
      direction row; an empty row is a division by zero. */
  function IncMoveIndex(c: Cell, i: int): (r: Result<Cell>)
    ensures r.Err? <==> |c.moveList.directions| == 0
    ensures r.Ok? ==> r.value == c.(moveIndex := r.value.moveIndex)
    ensures r.Ok? && 0 <= c.moveIndex + i ==>
              0 <= r.value.moveIndex < |c.moveList.directions|
    ensures r.Ok? && 0 <= c.moveIndex + i < |c.moveList.directions| ==> r.value.moveIndex == c.moveIndex + i
    ensures r.Ok? && c.moveIndex + i == |c.moveList.directions| ==> r.value.moveIndex == 0
  {
    var n := |c.moveList.directions|;
    if n == 0 then Err(DivisionByZero)
    else Ok(c.(moveIndex := JavaRem(c.moveIndex + i, n)))
  }

  /** `getCurrentMove()`: the direction code of the current step. */
  function CurrentMove(c: Cell): (r: Result<int>)
    ensures r.Ok? <==> 0 <= c.moveIndex < |c.moveList.directions|
    ensures r.Ok? ==> r.value == c.moveList.directions[c.moveIndex]
  {
    if 0 <= c.moveIndex < |c.moveList.directions| then Ok(c.moveList.directions[c.moveIndex])
    else Err(IndexOutOfBounds)
  }

  /** `move()`: when the current step's duration has been used up, reset the
      distance and advance to the next step; then move one unit in the
      direction of the step now in effect and count the tick. */
  function Move(c: Cell): (r: Result<Cell>)
    // the schedule invariant is preserved, and a tick is always counted
    ensures MovementOk(c) ==> r.Ok? && MovementOk(r.value) && r.value.distanceMoved >= 1
    ensures !(0 <= c.moveIndex < |c.moveList.distances|) ==> r == Err(IndexOutOfBounds)
    // only the position and the two schedule counters change
    ensures r.Ok? ==>
              r.value.(x := c.x, y := c.y, moveIndex := c.moveIndex, distanceMoved := c.distanceMoved) == c
    // advancing happens exactly when the step's duration is used up
    ensures r.Ok? && c.moveIndex < |c.moveList.directions| && c.distanceMoved >= c.moveList.distances[c.moveIndex] ==>
              && r.value.distanceMoved == 1
              && r.value.moveIndex == (if c.moveIndex + 1 == |c.moveList.directions| then 0 else c.moveIndex + 1)
    ensures r.Ok? && c.distanceMoved < c.moveList.distances[c.moveIndex] ==>
              r.value.distanceMoved == c.distanceMoved + 1 && r.value.moveIndex == c.moveIndex
    // one unit of movement in the direction of the step in effect after any advance
    ensures r.Ok? ==> 0 <= r.value.moveIndex < |r.value.moveList.directions|
    ensures r.Ok? ==>
              var dir := r.value.moveList.directions[r.value.moveIndex];
              && (dir == UP ==> r.value.x == c.x && r.value.y == c.y - 1)
              && (dir == DOWN ==> r.value.x == c.x && r.value.y == c.y + 1)
              && (dir == LEFT ==> r.value.x == c.x - 1 && r.value.y == c.y)
              && (dir == RIGHT ==> r.value.x == c.x + 1 && r.value.y == c.y)
              && (!(UP <= dir <= RIGHT) ==> r.value.x == c.x && r.value.y == c.y)
  {
    if !(0 <= c.moveIndex < |c.moveList.distances|) then Err(IndexOutOfBounds)
    else
      var distance := c.moveList.distances[c.moveIndex];
      var current :- if c.distanceMoved >= distance then IncMoveIndex(c.(distanceMoved := 0), 1) else Ok(c);
      var dir :- CurrentMove(current);
      var step := Offset(dir, 1);
      Ok(current.(x := current.x + step.0, y := current.y + step.1, distanceMoved := current.distanceMoved + 1))
  }
}
