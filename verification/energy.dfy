/** The energy economy of a cell: absorption with a stationary bonus,
    division at the energy cap, and metabolism with a stationary discount. */
module Energy {
  import opened Results
  import opened Schedule
  import opened CellState

  function Min(a: real, b: real): real {
    if a <= b then a else b
  }

  function Max(a: real, b: real): real {
    if a >= b then a else b
  }

  /** `Math.pow(s, 4)`, computed exactly. */
  function Pow4(s: real): real {
    s * s * s * s
  }

  /** Multiplying by a non-negative factor preserves order. */
  lemma MulMono(a: real, b: real, k: real)
    requires a <= b && 0.0 <= k
    ensures a * k <= b * k
  {
    assert b * k - a * k == (b - a) * k;
  }

  /** On [-1, 1] the square stays in [0, 1]. */
  lemma SquareUnit(s: real)
    requires -1.0 <= s <= 1.0
    ensures 0.0 <= s * s <= 1.0
  {
    var a := if s >= 0.0 then s else -s;
    assert 0.0 <= a <= 1.0;
    assert a * a == s * s;
    MulMono(a, 1.0, a);
    assert a * a <= 1.0 * a;
    assert a * a <= 1.0;
    MulMono(0.0, a, a);
  }

  /** On [-1, 1] the fourth power stays in [0, 1], and on [-1/2, 1/2] it is
      at most 1/16. */
  lemma Pow4Unit(s: real)
    ensures -1.0 <= s <= 1.0 ==> 0.0 <= Pow4(s) <= 1.0
    ensures -0.5 <= s <= 0.5 ==> Pow4(s) <= 0.0625
  {
    if -1.0 <= s <= 1.0 {
      Pow4UnitInRange(s);
    }
  }

  lemma Pow4UnitInRange(s: real)
    requires -1.0 <= s <= 1.0
    ensures 0.0 <= Pow4(s) <= 1.0
    ensures -0.5 <= s <= 0.5 ==> Pow4(s) <= 0.0625
  {
    var t := s * s;
    SquareUnit(s);
    assert Pow4(s) == t * t;
    SquareUnit(t);
    if -0.5 <= s <= 0.5 {
      var u := 2.0 * s;
      SquareUnit(u);
      assert u * u == 4.0 * t;
      MulMono(t, 0.25, t);
      assert t * t <= 0.25 * t;
    }
  }

  /** Dividing a non-negative amount by a divisor of at least 1 cannot
      increase it, and a larger divisor gives a smaller quotient. */
  lemma DivBounds(rate: real, d: real, e: real)
    requires 1.0 <= d
    ensures 0.0 <= rate ==> 0.0 <= rate / d <= rate
    ensures 0.0 <= rate && d <= e ==> rate / e <= rate / d
  {
    if 0.0 <= rate && d <= e {
      DivAntitone(rate, d, e);
    } else if 0.0 <= rate {
      DivAntitone(rate, d, d);
    }
  }

  lemma DivAntitone(rate: real, d: real, e: real)
    requires 0.0 <= rate && 1.0 <= d <= e
    ensures 0.0 <= rate / d <= rate
    ensures rate / e <= rate / d
  {
    var q := rate / d;
    var p := rate / e;
    assert q * d == rate;
    assert p * e == rate;
    if q > rate {
      MulMono(rate, q, d);
      MulMono(1.0, d, q);
    }
    if p > q {
      MulMono(q, p, d);
      MulMono(d, e, p);
    }
  }

  /** Scaling a non-negative amount by a factor in [1, 4]. */
  lemma ScaleBetween(a: real, m: real)
    ensures 0.0 <= a && 1.0 <= m <= 4.0 ==> a <= a * m <= 4.0 * a
  {
    if 0.0 <= a && 1.0 <= m <= 4.0 {
      MulMono(1.0, m, a);
      MulMono(m, 4.0, a);
    }
  }

  /** `Math.max(4 * Math.pow(s, 4), 1)`: the factor that scales absorbed energy
      on a stationary step. It never penalises, and for a stationary factor in
      [0, 1] it is at most 4, reached exactly at a factor of 1. */
  function AbsorptionMultiplier(s: real): (m: real)
    ensures 1.0 <= m
    ensures -1.0 <= s <= 1.0 ==> m <= 4.0
    ensures s == 1.0 ==> m == 4.0
    ensures -0.5 <= s <= 0.5 ==> m == 1.0
  {
    Pow4Unit(s);
    Max(4.0 * Pow4(s), 1.0)
  }

  /** `Math.max(50 * Math.pow(s, 4), 1)`: the divisor of the metabolic cost on
      a stationary step. It is at least 1, and for a stationary factor in
      [0, 1] at most 50, reached exactly at a factor of 1. */
  function MetabolicDivisor(s: real): (d: real)
    ensures 1.0 <= d
    ensures -1.0 <= s <= 1.0 ==> d <= 50.0
    ensures s == 1.0 ==> d == 50.0
  {
    Pow4Unit(s);
    Max(50.0 * Pow4(s), 1.0)
  }

  /** The half-open square `[minX, maxX) x [minY, maxY)` handed to the food map. */
  datatype Area = Area(minX: int, maxX: int, minY: int, maxY: int)

  /** The square a cell absorbs from: `size` wide and high, with the cell's
      position as its top-left corner. */
  function AbsorptionArea(c: Cell): (a: Area)
    ensures a.maxX - a.minX == c.size && a.maxY - a.minY == c.size
    ensures a.minX == c.x && a.minY == c.y
    ensures c.size > 0 ==> a.minX <= c.x < a.maxX && a.minY <= c.y < a.maxY
  {
    Area(c.x, c.x + c.size, c.y, c.y + c.size)
  }

  /** `absorb`: add the energy the food map gave for the cell's area,
      amplified on a stationary step, and clamp at the cap. */
  function Absorb(c: Cell, absorbed: real): (r: Result<Cell>)
    ensures r.Ok? <==> 0 <= c.moveIndex < |c.moveList.directions|
    ensures r.Ok? ==> r.value == c.(energy := r.value.energy)
    ensures r.Ok? ==> r.value.energy <= EnergyCap
    ensures r.Ok? && 0.0 <= absorbed && c.energy <= EnergyCap ==> c.energy <= r.value.energy
    // off a stationary step the amount is added as it is
    ensures r.Ok? && c.moveList.directions[c.moveIndex] != NONE ==>
              r.value.energy == Min(c.energy + absorbed, EnergyCap)
    // on a stationary step the bonus is between 1 and 4 times the amount
    ensures r.Ok? && c.moveList.directions[c.moveIndex] == NONE && 0.0 <= absorbed
              && 0.0 <= c.stationaryFactor <= 1.0 ==>
              Min(c.energy + absorbed, EnergyCap) <= r.value.energy <= Min(c.energy + 4.0 * absorbed, EnergyCap)
  {
    var dir :- CurrentMove(c);
    var m := AbsorptionMultiplier(c.stationaryFactor);
    var gained := if dir == NONE then absorbed * m else absorbed;
    ScaleBetween(absorbed, m);
    Ok(c.(energy := Min(c.energy + gained, EnergyCap)))
  }

  /** The three values `CellularSimulator.rand` hands out while a cell divides,
      in call order: `nextInt(2 * size)` for each axis of the child's offset,
      then `nextInt(1024)` in the child's constructor. */
  datatype Draws = Draws(offsetX: int, offsetY: int, childEnergy: int)

  /** The draws respect the bounds of `nextInt`. */
  predicate DrawsOk(c: Cell, draws: Draws) {
    && 0 <= draws.offsetX < 2 * c.size
    && 0 <= draws.offsetY < 2 * c.size
    && 0 <= draws.childEnergy < 1024
  }

  /** `createChildCell`: a new cell near the parent on the parent's move list.
      Each coordinate is offset by `nextInt(2 * size) - size`, which lies in
      [-size, size - 1]: the child can land `size` cells up or left of the
      parent but at most `size - 1` down or right. `nextInt` rejects a bound
      that is not positive, so a cell without a positive size cannot have a
      child. */
  function CreateChildCell(c: Cell, draws: Draws): (r: Result<Cell>)
    ensures r.Ok? <==> c.size > 0
    ensures r.Err? ==> r.fault == IllegalArgument
    ensures r.Ok? ==> r.value.moveList == c.moveList
    ensures r.Ok? && DrawsOk(c, draws) ==>
              && -c.size <= r.value.x - c.x <= c.size - 1
              && -c.size <= r.value.y - c.y <= c.size - 1
    ensures r.Ok? && WellFormed(c.moveList) && DrawsOk(c, draws) ==> Valid(r.value)
  {
    if c.size <= 0 then Err(IllegalArgument)
    else Ok(NewCellWithMoves(c.x + draws.offsetX - c.size, c.y + draws.offsetY - c.size, c.moveList, draws.childEnergy))
  }

  /** `divide`: at or above the cap the cell halves its energy and a child
      holding the other half is added to the collection. The result is the
      parent and the child, if one was born; building the child fails for a
      cell without a positive size. */
  function Divide(c: Cell, draws: Draws): (r: Result<(Cell, Option<Cell>)>)
    ensures r.Ok? <==> c.energy < EnergyCap || c.size > 0
    ensures r.Err? ==> r.fault == IllegalArgument
    ensures r.Ok? ==> (r.value.1.Some? <==> c.energy >= EnergyCap)
    ensures r.Ok? && r.value.1.None? ==> r.value.0 == c
    ensures r.Ok? && r.value.1.Some? ==> r.value.0 == c.(energy := r.value.0.energy)
    // energy is split evenly and conserved
    ensures r.Ok? && r.value.1.Some? ==>
              r.value.0.energy == r.value.1.value.energy && r.value.0.energy + r.value.1.value.energy == c.energy
    ensures r.Ok? && r.value.1.Some? && c.energy <= EnergyCap ==> r.value.0.energy == 512.0
    ensures r.Ok? && r.value.1.Some? ==>
              CreateChildCell(c, draws).Ok? && r.value.1.value == CreateChildCell(c, draws).value.(energy := r.value.0.energy)
  {
    if c.energy >= EnergyCap then
      var newEnergy := c.energy / 2.0;
      var child :- CreateChildCell(c, draws);
      Ok((c.(energy := newEnergy), Some(child.(energy := newEnergy))))
    else Ok((c, None))
  }

  /** The energy a tick of metabolism costs: the metabolic rate, divided on a
      stationary step by the stationary divisor. It never exceeds the rate. */
  function Reduction(rate: real, s: real, stationary: bool): (cost: real)
    ensures 0.0 <= rate ==> 0.0 <= cost <= rate
    ensures !stationary ==> cost == rate
    ensures stationary && 0.0 <= rate && -1.0 <= s <= 1.0 ==> rate / 50.0 <= cost
  {
    if stationary then
      var d := MetabolicDivisor(s);
      DivBounds(rate, d, 50.0);
      rate / d
    else rate
  }

  /** `metabolise`: pay the metabolic cost, clamping at zero; a cell whose
      energy is then exactly zero asks to be removed from the collection. The
      result is the cell and whether it asks for removal. */
  function Metabolise(c: Cell): (r: Result<(Cell, bool)>)
    ensures r.Ok? <==> 0 <= c.moveIndex < |c.moveList.directions|
    ensures r.Ok? ==> r.value.0 == c.(energy := r.value.0.energy)
    ensures r.Ok? ==> r.value.0.energy >= 0.0
    ensures r.Ok? ==> (r.value.1 <==> r.value.0.energy == 0.0)
    ensures r.Ok? && 0.0 <= c.metabolicRate ==>
              c.energy - c.metabolicRate <= r.value.0.energy
              && (0.0 <= c.energy ==> r.value.0.energy <= c.energy)
    ensures r.Ok? ==>
              var cost := Reduction(c.metabolicRate, c.stationaryFactor, c.moveList.directions[c.moveIndex] == NONE);
              (r.value.1 <==> c.energy <= cost) && (!r.value.1 ==> r.value.0.energy == c.energy - cost)
  {
    var dir :- CurrentMove(c);
    var reduction := Reduction(c.metabolicRate, c.stationaryFactor, dir == NONE);
    var energy := Max(c.energy - reduction, 0.0);
    Ok((c.(energy := energy), energy == 0.0))
  }
}
