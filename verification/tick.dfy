/** One tick of a cell, `update`: move, absorb, divide, metabolise, in that
    order. The food map and the random generator are parameters. */
module Tick {
  import opened Results
  import opened Schedule
  import opened CellState
  import opened Energy

  /** What one tick produces: the cell itself, the child it added to the
      collection if it divided, and whether it removed itself. */
  datatype TickResult = TickResult(cell: Cell, child: Option<Cell>, removed: bool)

  /** `FoodMap.absorbFromArea` as a function of the queried area; its depletion
      of the food map is outside the cell. */
  type FoodField = Area -> real

  /** The food map never hands out negative energy. */
  ghost predicate NonNegativeField(field: FoodField) {
    forall a :: field(a) >= 0.0
  }

  /** `update`: the four steps in their fixed order. The food map is queried at
      the position reached by this tick's move. */
  function Update(c: Cell, field: FoodField, draws: Draws): (r: Result<TickResult>)
    // the cell invariant is preserved, and no cell ends a tick at the cap
    ensures Valid(c) && NonNegativeField(field) ==>
              r.Ok? && Valid(r.value.cell) && r.value.cell.energy < EnergyCap
    // a cell that can move fails only when it must divide without a positive size
    ensures c.size > 0 ==> (r.Ok? <==> Move(c).Ok?)
    ensures r.Err? && Move(c).Ok? ==> c.size <= 0 && r.fault == IllegalArgument
    // a child is born with half the cap and a valid state
    ensures Valid(c) && NonNegativeField(field) && r.value.child.Some? ==>
              Valid(r.value.child.value) && r.value.child.value.energy == 512.0
    // removal is requested exactly when the energy has run out
    ensures r.Ok? ==> r.value.cell.energy >= 0.0 && (r.value.removed <==> r.value.cell.energy == 0.0)
    // besides the move, a tick changes only the energy
    ensures r.Ok? ==> Move(c).Ok? && r.value.cell.(energy := c.energy) == Move(c).value
    // the child lands within [-size, size - 1] of the moved cell on each axis
    ensures r.Ok? && r.value.child.Some? && DrawsOk(c, draws) ==>
              var moved := Move(c).value;
              var child := r.value.child.value;
              && -c.size <= child.x - moved.x <= c.size - 1
              && -c.size <= child.y - moved.y <= c.size - 1
              && child.moveList == c.moveList
  {
    var moved :- Move(c);
    // after a successful move the index is in range, so neither step below can fail
    var fed := Absorb(moved, field(AbsorptionArea(moved))).value;
    var split :- Divide(fed, draws);
    var after := Metabolise(split.0).value;
    Ok(TickResult(after.0, split.1, after.1))
  }

  /** A cell divides in a tick exactly when its absorption brought it to the
      cap. */
  lemma DividesIffCapReached(c: Cell, field: FoodField, draws: Draws)
    requires Update(c, field, draws).Ok?
    ensures var moved := Move(c).value;
            var fed := Absorb(moved, field(AbsorptionArea(moved)));
            fed.Ok? && (Update(c, field, draws).value.child.Some? <==> fed.value.energy == EnergyCap)
  {
  }

  /** The food map is consulted only for the footprint at the moved position. */
  lemma OnlyFootprintIsQueried(c: Cell, f: FoodField, g: FoodField, draws: Draws)
    requires Move(c).Ok?
    requires f(AbsorptionArea(Move(c).value)) == g(AbsorptionArea(Move(c).value))
    ensures Update(c, f, draws) == Update(c, g, draws)
  {
  }

  /** A default cell at the cap on a barren food map: its first tick moves it
      up, divides it into two halves of 512, and metabolism then costs the full
      rate of 1.2, leaving 510.8. */
  lemma DefaultCellAtCapDivides(x: int, y: int, draw: int, draws: Draws)
    ensures var c := NewCell(x, y, draw).(energy := EnergyCap);
            var r := Update(c, (a: Area) => 0.0, draws);
            && r.Ok?
            && r.value.cell.x == x && r.value.cell.y == y - 1
            && r.value.cell.energy == 510.8
            && r.value.child.Some? && r.value.child.value.energy == 512.0
            && !r.value.removed
  {
  }

  /** A cell whose whole schedule is one NONE step of 100 ticks, on a food map
      that always yields 10: absorption is quadrupled to 40 and metabolism
      costs 1.2 / 50 = 0.024, whether the stationary factor is the child
      default or recomputed from the schedule. */
  lemma StationaryCellScenario(x: int, y: int, draw: int, draws: Draws)
    ensures StationaryFraction(MoveList([NONE], [100])) == Ok(1.0)
    ensures var c := NewCellWithMoves(x, y, MoveList([NONE], [100]), draw).(energy := 100.0);
            var r := Update(c, (a: Area) => 10.0, draws);
            && r.Ok?
            && r.value.cell.x == x && r.value.cell.y == y
            && r.value.cell.energy == 100.0 + 40.0 - 0.024
            && r.value.child.None? && !r.value.removed
  {
    var c := NewCellWithMoves(x, y, MoveList([NONE], [100]), draw).(energy := 100.0);
    assert AbsorptionMultiplier(1.0) == 4.0;
    assert MetabolicDivisor(1.0) == 50.0;
  }

  /** A default cell with one unit of energy on a barren food map spends more
      than it has: its energy is clamped to 0 and it removes itself. */
  lemma StarvingCellIsRemoved(x: int, y: int, draws: Draws)
    ensures var r := Update(NewCell(x, y, 1), (a: Area) => 0.0, draws);
            r.Ok? && r.value.cell.energy == 0.0 && r.value.removed
  {
  }

  /** A child keeps the field default stationary factor of 1 instead of having
      it recomputed from the inherited schedule. On the schedule NONE for 1
      tick then UP for 9 the recomputed factor would be 0.1, giving no bonus,
      but the child absorbs four times the food on its stationary step. */
  lemma ChildKeepsDefaultStationaryFactor(c: Cell, draws: Draws)
    requires c.size > 0
    ensures CreateChildCell(c, draws).value.stationaryFactor == 1.0
    ensures StationaryFraction(MoveList([NONE, UP], [1, 9])) == Ok(0.1)
  {
    var ml := MoveList([NONE, UP], [1, 9]);
    assert DurationSum(ml.distances, 1) == 1;
    assert DurationSum(ml.distances, 2) == 10;
    assert StationarySum(ml, 1) == 1;
    assert StationarySum(ml, 2) == 1;
  }

  /** What the kept factor costs: on that schedule's stationary step a child
      absorbs 40 from a yield of 10, where the recomputed factor would give 10. */
  lemma ChildStationaryBonus(c: Cell, draws: Draws)
    requires c.size > 0
    ensures var child := CreateChildCell(c.(moveList := MoveList([NONE, UP], [1, 9])), draws).value.(energy := 0.0);
            && Absorb(child, 10.0) == Ok(child.(energy := 40.0))
            && Absorb(child.(stationaryFactor := 0.1), 10.0) == Ok(child.(stationaryFactor := 0.1, energy := 10.0))
  {
    assert Pow4(1.0) == 1.0;
    assert Pow4(0.1) == 0.0001;
  }

  /** A child gets the field default metabolic rate of 1.2 and the default size
      of 5, whatever its parent's. */
  lemma ChildGetsDefaultRateAndSize(c: Cell, draws: Draws)
    requires c.energy >= EnergyCap && c.size > 0
    ensures var child := Divide(c, draws).value.1.value;
            child.metabolicRate == 1.2 && child.size == 5
    ensures c.metabolicRate != 1.2 ==> Divide(c, draws).value.1.value.metabolicRate != c.metabolicRate
  {
  }

  /** The child's offset on each axis is not symmetric: the draw 0 places it
      `size` up or left, but no draw places it `size` down or right. */
  lemma ChildOffsetIsHalfOpen(c: Cell, draws: Draws)
    requires c.size > 0
    ensures draws.offsetX == 0 ==> CreateChildCell(c, draws).value.x == c.x - c.size
    ensures DrawsOk(c, draws) ==> CreateChildCell(c, draws).value.x != c.x + c.size
    ensures DrawsOk(c, draws) ==> CreateChildCell(c, draws).value.y != c.y + c.size
  {
  }
}
