/** The movement schedule of a cell: direction codes, the `int[][]` move list,
    the default and random lists, and the stationary fraction. */
module Schedule {
  import opened Results

  /** Direction codes of src/Cell.java. */
  const NONE: int := 0
  const UP: int := 1
  const DOWN: int := 2
  const LEFT: int := 3
  const RIGHT: int := 4

  /** The two rows of the Java `int[][] moveList`: row 0 holds direction codes,
      row 1 the number of ticks each direction is held. */
  datatype MoveList = MoveList(directions: seq<int>, distances: seq<int>)

  /** A schedule every operation can run on without fault: two rows of the same
      non-zero length and strictly positive durations. */
  predicate WellFormed(ml: MoveList) {
    && |ml.directions| == |ml.distances| > 0
    && forall i :: 0 <= i < |ml.distances| ==> ml.distances[i] > 0
  }

  /** `k` units of movement in the direction `dir`, as (dx, dy) in screen
      coordinates (y grows downwards). Codes outside UP..RIGHT match no case of
      the switch in `move` and do not move the cell. */
  function Offset(dir: int, k: int): (int, int) {
    if dir == UP then (0, -k)
    else if dir == DOWN then (0, k)
    else if dir == LEFT then (-k, 0)
    else if dir == RIGHT then (k, 0)
    else (0, 0)
  }

  /** The default patrol: up, right, down, left, 20 ticks each. It uses each
      of the four moving directions once and never stands still. */
  function DefaultMoveList(): (ml: MoveList)
    ensures WellFormed(ml) && |ml.directions| == 4
    ensures multiset(ml.directions) == multiset{UP, DOWN, LEFT, RIGHT}
    ensures forall i :: 0 <= i < |ml.distances| ==> ml.distances[i] == 20
    ensures StationaryFraction(ml) == Ok(0.0)
  {
    MoveList([UP, RIGHT, DOWN, LEFT], [20, 20, 20, 20])
  }

  /** The values `CellularSimulator.rand` hands out while a random list is
      built: first `nextInt(9)`, then for each step `nextInt(5)` for the
      direction and `nextInt(10)` for the duration. */
  datatype RandomDraws = RandomDraws(moveCount: int, steps: seq<(int, int)>)

  /** The draws respect the bounds of `nextInt` and there is one pair per step. */
  predicate RandomDrawsOk(draws: RandomDraws) {
    && 0 <= draws.moveCount < 9
    && draws.moveCount + 1 <= |draws.steps|
    && forall i :: 0 <= i < |draws.steps| ==>
         0 <= draws.steps[i].0 < 5 && 0 <= draws.steps[i].1 < 10
  }

  /** A random schedule of 1 to 9 steps, each with any direction code and a
      duration of 1 to 10 ticks. */
  method RandomMoveList(draws: RandomDraws) returns (ml: MoveList)
    requires RandomDrawsOk(draws)
    ensures WellFormed(ml)
    ensures |ml.directions| == draws.moveCount + 1
    ensures 1 <= |ml.directions| <= 9
    ensures forall i :: 0 <= i < |ml.directions| ==>
              && ml.directions[i] == draws.steps[i].0
              && ml.distances[i] == draws.steps[i].1 + 1
    ensures forall i :: 0 <= i < |ml.directions| ==>
              NONE <= ml.directions[i] <= RIGHT && 1 <= ml.distances[i] <= 10
  {
    var moveCount := draws.moveCount + 1;
    var directions: seq<int> := [];
    var distances: seq<int> := [];
    var i := 0;
    while i < moveCount
      invariant 0 <= i <= moveCount
      invariant |directions| == |distances| == i
      invariant forall j :: 0 <= j < i ==>
                  directions[j] == draws.steps[j].0 && distances[j] == draws.steps[j].1 + 1
    {
      directions := directions + [draws.steps[i].0];
      distances := distances + [draws.steps[i].1 + 1];
      i := i + 1;
    }
    ml := MoveList(directions, distances);
  }

  /** Sum of the first `m` durations. */
  function DurationSum(distances: seq<int>, m: nat): int
    requires m <= |distances|
  {
    if m == 0 then 0 else DurationSum(distances, m - 1) + distances[m - 1]
  }

  /** Sum of the first `m` durations whose direction is NONE. */
  function StationarySum(ml: MoveList, m: nat): int
    requires m <= |ml.directions| && m <= |ml.distances|
  {
    if m == 0 then 0
    else StationarySum(ml, m - 1) + (if ml.directions[m - 1] == NONE then ml.distances[m - 1] else 0)
  }

  /** With positive durations the stationary part of a prefix lies between
      zero and the whole prefix, and a non-empty prefix has a positive sum. */
  lemma {:induction false} SumBounds(ml: MoveList, m: nat)
    requires m <= |ml.directions| && m <= |ml.distances|
    ensures WellFormed(ml) ==> 0 <= StationarySum(ml, m) <= DurationSum(ml.distances, m)
    ensures WellFormed(ml) && m > 0 ==> DurationSum(ml.distances, m) >= m
  {
    if m > 0 {
      SumBounds(ml, m - 1);
    }
  }

  /** A prefix without NONE steps has no stationary part; a prefix of only
      NONE steps is stationary throughout. */
  lemma {:induction false} SumExtremes(ml: MoveList, m: nat)
    requires m <= |ml.directions| && m <= |ml.distances|
    ensures (forall i :: 0 <= i < m ==> ml.directions[i] != NONE) ==> StationarySum(ml, m) == 0
    ensures (forall i :: 0 <= i < m ==> ml.directions[i] == NONE) ==>
              StationarySum(ml, m) == DurationSum(ml.distances, m)
  {
    if m > 0 {
      SumExtremes(ml, m - 1);
    }
  }

  /** The fraction of the patrol's ticks spent stationary: the NONE durations
      over all durations. A direction row longer than the distance row makes the
      Java loop index out of bounds; a zero total makes the float division
      non-finite. */
  function StationaryFraction(ml: MoveList): (r: Result<real>)
    ensures |ml.distances| < |ml.directions| ==> r == Err(IndexOutOfBounds)
    ensures WellFormed(ml) ==> r.Ok? && 0.0 <= r.value <= 1.0
    ensures WellFormed(ml) && (forall i :: 0 <= i < |ml.directions| ==> ml.directions[i] != NONE) ==>
              r == Ok(0.0)
    ensures WellFormed(ml) && (forall i :: 0 <= i < |ml.directions| ==> ml.directions[i] == NONE) ==>
              r == Ok(1.0)
  {
    if |ml.distances| < |ml.directions| then Err(IndexOutOfBounds)
    else
      var n := |ml.directions|;
      var total := DurationSum(ml.distances, n);
      var stationary := StationarySum(ml, n);
      SumBounds(ml, n);
      SumExtremes(ml, n);
      if total == 0 then Err(NotFinite)
      else
        assert stationary == total ==> stationary as real / total as real == 1.0;
        Ok(stationary as real / total as real)
  }
}
