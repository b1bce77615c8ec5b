/** The two-cell example run on the objects themselves: built with the constructors,
    `add_cell` and `infect`, then one `time_step`. */
module Demo {
  import opened Rules
  import opened Cells
  import opened World
  import opened Maps
  import opened Scenarios

  /** The snapshot of a map holding exactly `a` at (0, 0) and `b` at (1, 0) reads their
      states and times. */
  lemma PairSnapshot(m: Map, a: Cell, b: Cell)
    requires m.cells == map[(0, 0) := a, (1, 0) := b]
    ensures var w := m.Snapshot();
            w.Keys == {(0, 0), (1, 0)} && w[(0, 0)] == a.View() && w[(1, 0)] == b.View()
  {
  }

  /** A new map with `a` added first and `b` second. */
  method BuildPair(a: Cell, b: Cell) returns (m: Map)
    requires a.x == 0 && a.y == 0 && b.x == 1 && b.y == 0
    ensures fresh(m)
    ensures m.Valid() && m.order == [(0, 0), (1, 0)]
    ensures m.cells == map[(0, 0) := a, (1, 0) := b]
  {
    m := new Map();
    m.AddCell(a);
    assert m.order == [(0, 0)] && m.cells == map[(0, 0) := a];
    assert (1, 0) !in m.cells && [(0, 0)] + [(1, 0)] == [(0, 0), (1, 0)];
    m.AddCell(b);
  }

  /** One step with draw 1 the only yes leaves both cells infected at time 1, having used
      three draws. */
  method StepPair(m: Map, a: Cell, b: Cell) returns (k: nat)
    requires m.Valid() && m.order == [(0, 0), (1, 0)]
    requires m.cells == map[(0, 0) := a, (1, 0) := b]
    requires IsPair(m.Snapshot())
    modifies m.cells.Values
    ensures a.View() == CellState(I, 1) && b.View() == CellState(I, 1) && k == 3
  {
    ghost var w0 := m.Snapshot();
    PairInfectedFirst(w0);
    k := m.TimeStep(OnlySecond(), 0);
    PairSnapshot(m, a, b);
  }

  /** The example from scratch: build the map, then one step. */
  method PairOnMap() returns (a: Cell, b: Cell, k: nat)
    ensures a.View() == CellState(I, 1) && b.View() == CellState(I, 1) && k == 3
  {
    a := new Cell(0, 0);
    b := new Cell(1, 0);
    a.Infect();
    var m := BuildPair(a, b);
    PairSnapshot(m, a, b);
    k := StepPair(m, a, b);
  }
}
