# Cell life: the per-tick update of a cell

This project models the core of a small artificial-life simulation: the
`Cell` of `src/Cell.java`. Once per tick the simulator calls `update` on every
cell, which runs four steps in a fixed order:

1. **move** — walk the cell's cyclic movement schedule (a list of direction
   codes and durations) one unit, advancing to the next step when the current
   one's duration is used up;
2. **absorb** — take energy from the food map over the cell's square
   footprint, quadrupled at most on a stationary step, clamped at 1024;
3. **divide** — at 1024 the cell halves its energy and adds a child holding
   the other half near itself;
4. **metabolise** — pay the metabolic rate (reduced on a stationary step),
   clamped at 0, and remove the cell from the collection when its energy is
   exactly 0.

The model is functional: a `Cell` is an immutable record, every Java method is
a pure function from the old record to the new one, and the collaborators are
parameters — the food map is a function from the queried area to the amount it
yields, the random generator is the sequence of values it hands out, and the
cell collection sees the child a division produced and the removal request.
Java floats are modelled as exact reals and `Math.pow(s, 4)` as `s*s*s*s`.
Java exceptions (an index outside the move list, `%` by zero, `nextInt` with
a bound that is not positive) and the non-finite float a zero total produces
are modelled as `Err` results.

Modules, following the structure of the class:

- `Results` — `Option`, `Result` and the faults;
- `Schedule` — direction codes, the move list, the default and random lists,
  the stationary fraction;
- `CellState` — the cell record, the constructors, `incMoveIndex`,
  `getCurrentMove`, `move`;
- `Patrol` — `move` iterated: the patrol's period and net displacement;
- `Energy` — `absorb`, `createChildCell`, `divide`, `metabolise`;
- `Tick` — `update`, concrete scenarios, and the behaviours listed below;
- `Population` — one tick seen from the cell collection.

## Behaviour of the code as written

Where a reader might expect something else, the model follows the code, and
these lemmas pin down what the code does:

- A child is built by the four-argument constructor, which never calls
  `updateStationaryFactor`, so its stationary factor stays at the field default
  1 instead of being recomputed from the inherited schedule
  (`Tick.ChildKeepsDefaultStationaryFactor`, `Tick.ChildStationaryBonus`).
- A child gets the field defaults for the metabolic rate (1.2) and the size (5),
  not its parent's (`Tick.ChildGetsDefaultRateAndSize`).
- The child's offset on each axis is `nextInt(2*size) - size`, in
  `[-size, size-1]`: it can land `size` up or left of its parent but only
  `size - 1` down or right (`Tick.ChildOffsetIsHalfOpen`).
- A default cell at energy 1024 on a barren food map divides during its
  first tick (absorption clamps it at 1024, which meets the division gate), so
  after the tick it holds 512 - 1.2 = 510.8 and has a child holding 512, rather
  than 1024 - 1.2 = 1022.8 (`Tick.DefaultCellAtCapDivides`).
- Starting from index 0 and distance 0, the default patrol ends its first 80
  ticks at index 3 with distance 20 (not at index 0, distance 0), back at the
  start position; that state makes the same next move as the initial one, and
  from the first tick on the whole state repeats every 80 ticks
  (`Patrol.DefaultPatrolIsClosed`, `Patrol.NewCellPatrolIsClosed`).

## Model

| member | source | states |
|---|---|---|
| `Schedule.DefaultMoveList` | src/Cell.java:115-120 | the default list is well formed with four steps of 20 ticks, using each of UP, DOWN, LEFT and RIGHT once, so its stationary fraction is 0 |
| `Schedule.RandomMoveList` | src/Cell.java:127-142 | a random list has 1 to 9 steps, one per `nextInt(9)+1`, each with the drawn direction code in 0..4 and the drawn duration plus one in 1..10, and is well formed |
| `Schedule.StationaryFraction` | src/Cell.java:259-271 | the fraction lies in [0, 1] for every well-formed schedule, is 0 when no step is NONE and 1 when every step is; a longer direction row is an index fault |
| `CellState.NewCell` | src/Cell.java:42-52 | a two-argument cell stands at the given position at index 0 with distance 0 on the default patrol, with stationary factor 0 and the drawn energy, satisfies the movement invariant, and with an energy draw in [0, 1024) the whole cell invariant |
| `CellState.NewCellWithMoves` | src/Cell.java:62-69 | a cell built on a given list stands at the given position at index 0 with distance 0 and the drawn energy, and on a well-formed list with a draw in [0, 1024) satisfies the cell invariant |
| `CellState.JavaRem` | src/Cell.java:188 | Java's remainder agrees with the mathematical one on non-negative dividends, takes the sign of the dividend, and is odd in the dividend |
| `CellState.IncMoveIndex` | src/Cell.java:187-189 | the index wraps to the length of the direction row: a non-negative sum lands in range, the length itself wraps to 0; an empty row is a division fault; nothing else changes |
| `CellState.CurrentMove` | src/Cell.java:218-220 | the current direction is available exactly when the index is inside the direction row |
| `CellState.Move` | src/Cell.java:288-314 | the movement invariant (index in range, 0 <= distance <= duration) is preserved and at least one tick is counted; the index advances, with wrap-around, exactly when the duration is used up; the cell moves one unit in the direction in effect after any advance (UP y-1, DOWN y+1, LEFT x-1, RIGHT x+1, otherwise none) and nothing else changes |
| `Patrol.Moves` | src/Cell.java:288-314 | after k moves the invariant still holds, only position and counters changed, and the cell is at most k units away on each axis |
| `Patrol.MovesAdd` | src/Cell.java:288-314 | k ticks followed by j ticks are k + j ticks |
| `Patrol.MovesCommuteWithShift` | src/Cell.java:288-314 | movement is independent of where the cell stands |
| `Patrol.WithinStep` | src/Cell.java:291-313 | ticks that stay within a step keep the index, count up the distance and move in a straight line |
| `Patrol.FullStep` | src/Cell.java:288-314 | from the end of a step, the next step is walked in full in its duration |
| `Patrol.WalkSteps` | src/Cell.java:288-314 | from the end of the last step, the first m steps take the sum of their durations and displace the cell by the sum of their offsets |
| `Patrol.CycleFromEnd` | src/Cell.java:288-314 | one period from the end of the last step restores the schedule state and translates the cell by the cycle's displacement |
| `Patrol.OnCycle` | src/Cell.java:288-314 | every state that has counted a tick of its step is reached from the end of the previous step |
| `Patrol.ReachedIsPeriodic` | src/Cell.java:288-314 | any translate of a state reached from the end of the last step repeats after one period |
| `Patrol.PatrolIsPeriodic` | src/Cell.java:288-314 | every state with a counted tick returns after one period, translated by the cycle's net displacement |
| `Patrol.FreshStateJoinsCycle` | src/Cell.java:288-294 | a state with distance 0 moves exactly like the end of the previous step |
| `Patrol.EventuallyPeriodic` | src/Cell.java:288-314 | from the first tick on, every patrol repeats with the period of its schedule |
| `Patrol.NewCellPatrolIsClosed` | src/Cell.java:42-52 | a cell built by `new Cell(x, y)` is back at its start after 80 ticks, at the end of its last step, and from its first tick on repeats every 80 ticks |
| `Patrol.DefaultCycle` | src/Cell.java:115-120 | the default patrol lasts 80 ticks and has net displacement (0, 0) |
| `Patrol.DefaultPatrolIsClosed` | src/Cell.java:115-120 | a fresh default cell is back at its start after 80 ticks, at index 3 with distance 20, and from the first tick on its whole state repeats every 80 ticks |
| `Energy.AbsorptionMultiplier` | src/Cell.java:327-330 | the absorption multiplier is at least 1, at most 4 for a factor in [-1, 1], exactly 4 at factor 1 and exactly 1 for factors within 1/2 of 0 |
| `Energy.MetabolicDivisor` | src/Cell.java:369-372 | the metabolic divisor is at least 1, at most 50 for a factor in [-1, 1], exactly 50 at factor 1 |
| `Energy.AbsorptionArea` | src/Cell.java:320-323 | the queried area is a size-by-size square whose top-left corner is the cell's position |
| `Energy.Absorb` | src/Cell.java:319-333 | only the energy changes; it ends at most 1024 and, for a non-negative yield, no lower than before; off a stationary step the yield is added as is, on one between 1 and 4 times the yield |
| `Energy.CreateChildCell` | src/Cell.java:351-356 | a child exists exactly when the size is positive (otherwise `nextInt` rejects its bound); it shares the parent's move list, lies within [-size, size-1] of the parent on each axis, and satisfies the cell invariant |
| `Energy.Divide` | src/Cell.java:340-349 | a child is produced exactly when the energy is at least 1024, and this fails only for a cell without a positive size; parent and child then hold equal halves that sum to the old energy, 512 each when it was at most 1024; otherwise nothing changes |
| `Energy.Reduction` | src/Cell.java:366-372 | the metabolic cost is between 0 and the rate, equals the rate off a stationary step and is at least rate/50 on one |
| `Energy.Metabolise` | src/Cell.java:365-380 | only the energy changes; it stays non-negative, falls by at most the rate, and the cell asks for removal exactly when the energy is 0, which happens exactly when the cost covers the energy |
| `Tick.Update` | src/Cell.java:278-283 | a tick preserves the cell invariant and ends below 1024; a cell with a positive size fails exactly when it cannot move; a child is born valid with 512; removal is requested exactly at energy 0; besides the move only the energy changes; the child lands within [-size, size-1] of the moved cell on the parent's list |
| `Tick.DividesIffCapReached` | src/Cell.java:332-341 | a cell divides in a tick exactly when absorption brought it to 1024 |
| `Tick.OnlyFootprintIsQueried` | src/Cell.java:319-325 | the tick depends on the food map only through the footprint at the position after the move |
| `Tick.DefaultCellAtCapDivides` | src/Cell.java:278-283 | a default cell at 1024 on a barren map moves up, divides, and ends the tick at 510.8 with a child at 512 |
| `Tick.StationaryCellScenario` | src/Cell.java:319-380 | a cell on a single 100-tick NONE step with a yield of 10 gains 40 and pays 0.024, staying in place |
| `Tick.StarvingCellIsRemoved` | src/Cell.java:374-379 | a default cell with energy 1 on a barren map ends at 0 and removes itself |
| `Tick.ChildKeepsDefaultStationaryFactor` | src/Cell.java:62-69 | a child's stationary factor is 1 whatever its schedule, while the recomputed factor of NONE 1, UP 9 is 0.1 |
| `Tick.ChildStationaryBonus` | src/Cell.java:327-330 | on that schedule the child absorbs 40 from a yield of 10 where the recomputed factor would give 10 |
| `Tick.ChildGetsDefaultRateAndSize` | src/Cell.java:14-29 | a child has metabolic rate 1.2 and size 5, whatever its parent's |
| `Tick.ChildOffsetIsHalfOpen` | src/Cell.java:352-353 | the offset draw 0 puts the child `size` up or left, but no draw puts it `size` down or right |
| `Population.TickCell` | src/Cell.java:340-380 | the ticked cell stays in the collection exactly when it has energy left; one child is added exactly when it divided; every other cell is untouched |
| `Population.RemovedCellIsGone` | src/Cell.java:376-379 | a cell that removed itself is no longer in the collection, and the collection does not grow |

## Left out

- Rendering: `getDefaultShape`, `getDefaultColor`, `getColor`, `setShape` and
  `setColor` are presentation code with no effect on the simulation state.
- The `Sprite` base class and `incX`/`incY` are not part of this model; the
  position is an unbounded integer pair, so 32-bit wrap-around of coordinates is
  not modelled.
- 32-bit overflow of `moveIndex`, `distanceMoved` and `size * 2` is not
  modelled; under the movement invariant `moveIndex` stays below the list
  length and `distanceMoved` at most the current step's duration.
- Float and double rounding: energies, rates and factors are exact reals, and
  the rate 1.2f is exactly 1.2.
- Plain getters and setters (`getMoveList`, `setMoveList`, `setMoveIndex`,
  `setDistanceMoved`, `incDistanceMoved`, `setEnergy`, `setMetabolicRate` and
  the getters) are record field reads and updates in the model.
- `Schedule.StationaryFraction`: a zero total, which in Java yields NaN or an
  infinity that then spreads through the cell's arithmetic, is reported as a
  `NotFinite` fault instead.
- A Java exception thrown part-way through `update` leaves the earlier steps'
  field updates in place (`divide` halves the energy before `createChildCell`
  throws); the model returns only the fault.
- `FoodMap.absorbFromArea` is a function of the queried area; how the food map
  stores food and depletes it is outside the cell.
- `CellCollection` is a map from object handles to cell states; its storage,
  and mutation of it while the simulator iterates over it, belong to the
  driver.
- `CellularSimulator.rand` is replaced by the values it hands out
  (`Energy.Draws`, `Schedule.RandomDraws`), whose bounds are those of `nextInt`;
  the child constructor's energy draw is consumed and then overwritten.
