/** The cell collection as seen by one cell's tick: `cells.add(child)` on
    division and `cells.remove(this)` on starvation. Cells are objects, so the
    collection is modelled as a map from object handles to cell states. */
module Population {
  import opened Results
  import opened CellState
  import opened Energy
  import opened Tick

  /** The live cells, by object handle. */
  type Registry = map<nat, Cell>

  /** Run `update` on the cell with handle `h`; a child is registered under the
      handle `born` of the newly constructed object. */
  function TickCell(cells: Registry, h: nat, field: FoodField, draws: Draws, born: nat): (r: Result<Registry>)
    requires h in cells && born !in cells
    ensures r.Ok? <==> Update(cells[h], field, draws).Ok?
    ensures Valid(cells[h]) && NonNegativeField(field) ==> r.Ok?
    ensures r.Ok? ==>
              var t := Update(cells[h], field, draws).value;
              // the cell stays registered exactly when it has energy left
              && (h in r.value <==> t.cell.energy != 0.0)
              && (h in r.value ==> r.value[h] == t.cell)
              // exactly one child is added when the cell divided
              && (born in r.value <==> t.child.Some?)
              && (born in r.value ==> r.value[born] == t.child.value)
    // every other cell is untouched, and nothing else is added
    ensures r.Ok? ==> forall k :: k in cells && k != h ==> k in r.value && r.value[k] == cells[k]
    ensures r.Ok? ==> forall k :: k in r.value ==> k in cells || k == born
  {
    var t :- Update(cells[h], field, draws);
    var updated := cells[h := t.cell];
    var added := if t.child.Some? then updated[born := t.child.value] else updated;
    Ok(if t.removed then added - {h} else added)
  }

  /** A cell that removed itself is no longer in the collection, so it cannot
      be ticked again, and the collection does not grow even if it divided
      in the same tick. */
  lemma RemovedCellIsGone(cells: Registry, h: nat, field: FoodField, draws: Draws, born: nat)
    requires h in cells && born !in cells
    requires TickCell(cells, h, field, draws, born).Ok?
    requires Update(cells[h], field, draws).value.removed
    ensures h !in TickCell(cells, h, field, draws, born).value
    ensures |TickCell(cells, h, field, draws, born).value| <= |cells|
  {
    var r := TickCell(cells, h, field, draws, born).value;
    var t := Update(cells[h], field, draws).value;
    if t.child.Some? {
      assert r.Keys == cells.Keys - {h} + {born};
    } else {
      assert r.Keys == cells.Keys - {h};
    }
  }
}
