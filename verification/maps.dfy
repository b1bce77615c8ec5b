/** The sparse map of cells: a dictionary from coordinates to cell objects, iterated in
    insertion order, owning the neighbour lookup and the time step. */
module Maps {
  import opened Rules
  import opened Cells
  import opened World

  /** `adj` holds at most four cells, all distinct, all stored in `cells`, each a
      lattice step from (x, y). */
  ghost predicate NeighbourList(cells: map<Coord, Cell>, adj: seq<Cell>, x: int, y: int)
  {
    && |adj| <= 4
    && (forall n :: n in adj ==> n in cells.Values)
    && (forall i, j :: 0 <= i < j < |adj| ==> adj[i] != adj[j])
    && (forall n :: n in adj ==> Distance((n.x, n.y), (x, y)) == 1)
  }

  /** In a dictionary that stores every cell under its own position, the cells at the
      neighbour coordinates of (x, y) form a `NeighbourList`. */
  lemma LookedUpNeighbours(cells: map<Coord, Cell>, x: int, y: int)
    requires forall q :: q in cells ==> cells[q].x == q.0 && cells[q].y == q.1
    ensures NeighbourList(cells, Image(cells, AdjacentKeys(cells.Keys, x, y)), x, y)
  {
    LookedUpDistinct(cells, x, y);
    LookedUpNear(cells, x, y);
  }

  /** Distinct coordinates hold distinct cells, so the looked-up cells are distinct. */
  lemma LookedUpDistinct(cells: map<Coord, Cell>, x: int, y: int)
    requires forall q :: q in cells ==> cells[q].x == q.0 && cells[q].y == q.1
    ensures var adj := Image(cells, AdjacentKeys(cells.Keys, x, y));
            forall i, j :: 0 <= i < j < |adj| ==> adj[i] != adj[j]
  {
    var ks := AdjacentKeys(cells.Keys, x, y);
    AdjacentKeysOrder(cells.Keys, x, y);
    assert forall i, j :: 0 <= i < j < |ks| ==> ks[i] != ks[j];
    ImageDistinct(cells, ks);
  }

  /** Looking up distinct coordinates yields distinct cells. */
  lemma ImageDistinct(cells: map<Coord, Cell>, ks: seq<Coord>)
    requires forall q :: q in cells ==> cells[q].x == q.0 && cells[q].y == q.1
    requires forall q :: q in ks ==> q in cells
    requires forall i, j :: 0 <= i < j < |ks| ==> ks[i] != ks[j]
    ensures var adj := Image(cells, ks);
            forall i, j :: 0 <= i < j < |adj| ==> adj[i] != adj[j]
  {
  }

  /** Each looked-up cell is stored and a lattice step from (x, y). */
  lemma LookedUpNear(cells: map<Coord, Cell>, x: int, y: int)
    requires forall q :: q in cells ==> cells[q].x == q.0 && cells[q].y == q.1
    ensures var adj := Image(cells, AdjacentKeys(cells.Keys, x, y));
            forall n :: n in adj ==> n in cells.Values && Distance((n.x, n.y), (x, y)) == 1
  {
    var ks := AdjacentKeys(cells.Keys, x, y);
    var adj := Image(cells, ks);
    forall n | n in adj ensures n in cells.Values && Distance((n.x, n.y), (x, y)) == 1 {
      var i :| 0 <= i < |adj| && adj[i] == n;
      assert ks[i] in ks;
    }
  }

  /** The cells stored under distinct coordinates are distinct objects. */
  ghost predicate Injective(cells: map<Coord, Cell>)
  {
    forall a, b :: a in cells && b in cells && a != b ==> cells[a] != cells[b]
  }

  /** The susceptible cells among those looked up are the cells stored at the looked-up
      coordinates whose state is S. */
  lemma SusceptibleLookedUp(cells: map<Coord, Cell>, ks: seq<Coord>, before: Grid)
    requires forall q :: q in ks ==> q in cells && q in before && before[q] == cells[q].View()
    ensures Susceptible(Image(cells, ks)) == Rename(cells, set q | q in ks && before[q].state == S)
  {
    var adj := Image(cells, ks);
    forall n | n in Susceptible(adj)
      ensures n in Rename(cells, set q | q in ks && before[q].state == S)
    {
      var i :| 0 <= i < |adj| && adj[i] == n;
      assert ks[i] in ks;
    }
  }

  /** A dictionary that stores every cell under its own position stores no cell twice. */
  lemma KeyedInjective(cells: map<Coord, Cell>)
    requires forall q :: q in cells ==> cells[q].x == q.0 && cells[q].y == q.1
    ensures Injective(cells)
  {
  }

  /** What `process` on the cell stored at `p` does to the cells (as the cell-level
      contract of `Process` states it) is exactly `ProcessAt` on the map's states. */
  lemma StepAgrees(cells: map<Coord, Cell>, before: Grid, after: Grid, p: Coord, rolls: Rolls,
                   k0: nat, infC: set<Cell>, kEnd: nat)
    requires Injective(cells) && p in cells
    requires before.Keys == cells.Keys && after.Keys == cells.Keys
    requires after[p] == Age(before[p], rolls, k0).0
    requires var ks := AdjacentKeys(cells.Keys, p.0, p.1);
             var sus := Rename(cells, set q | q in ks && before[q].state == S);
             if after[p].state == I then (infC, kEnd) == Spread(Image(cells, ks), sus, rolls, Age(before[p], rolls, k0).1)
             else infC == {} && kEnd == Age(before[p], rolls, k0).1
    requires forall q :: q in cells && q != p ==>
               after[q] == if cells[q] in infC then CellState(I, 0) else before[q]
    ensures (after, kEnd) == ProcessAt(before, p, rolls, k0)
  {
    if after[p].state == I {
      StepInfected(cells, before, after, p, rolls, k0, infC, kEnd);
    } else {
      StepQuiet(before, after, p, rolls, k0, kEnd);
    }
  }

  /** `StepAgrees` when the cell is still infected after its own update. */
  lemma StepInfected(cells: map<Coord, Cell>, before: Grid, after: Grid, p: Coord, rolls: Rolls,
                     k0: nat, infC: set<Cell>, kEnd: nat)
    requires Injective(cells) && p in cells
    requires before.Keys == cells.Keys && after.Keys == cells.Keys
    requires after[p] == Age(before[p], rolls, k0).0 && after[p].state == I
    requires var ks := AdjacentKeys(cells.Keys, p.0, p.1);
             var sus := Rename(cells, set q | q in ks && before[q].state == S);
             (infC, kEnd) == Spread(Image(cells, ks), sus, rolls, Age(before[p], rolls, k0).1)
    requires forall q :: q in cells && q != p ==>
               after[q] == if cells[q] in infC then CellState(I, 0) else before[q]
    ensures (after, kEnd) == ProcessAt(before, p, rolls, k0)
  {
    var ks := AdjacentKeys(cells.Keys, p.0, p.1);
    var susK := set q | q in ks && before[q].state == S;
    var k1 := Age(before[p], rolls, k0).1;
    SpreadRename(cells, ks, susK, rolls, k1);
    var inf := Spread(ks, susK, rolls, k1).0;
    assert infC == Rename(cells, inf);
    var target := map q | q in before[p := after[p]] :: if q in inf then CellState(I, 0) else before[p := after[p]][q];
    assert ProcessAt(before, p, rolls, k0) == (target, kEnd);
    assert p !in inf;
    assert target.Keys == after.Keys;
    forall q | q in cells
      ensures after[q] == target[q]
    {
      if q != p {
        assert cells[q] in infC <==> q in inf;
      }
    }
    assert after == target;
  }

  /** `StepAgrees` when the cell is not infected after its own update: only the cell
      itself changes. */
  lemma StepQuiet(before: Grid, after: Grid, p: Coord, rolls: Rolls, k0: nat, kEnd: nat)
    requires p in before && after.Keys == before.Keys
    requires after[p] == Age(before[p], rolls, k0).0 && after[p].state != I
    requires kEnd == Age(before[p], rolls, k0).1
    requires forall q :: q in before && q != p ==> after[q] == before[q]
    ensures (after, kEnd) == ProcessAt(before, p, rolls, k0)
  {
    assert after == before[p := after[p]];
  }

  /** Growing a prefix by one element. */
  lemma PrefixSnoc<T>(s: seq<T>, i: nat)
    requires i < |s|
    ensures s[..i + 1] == s[..i] + [s[i]]
  {
  }

  class Map {
    const height: int
    const width: int
    /** The dictionary from (x, y) to the cell stored there. */
    var cells: map<Coord, Cell>
    /** The dictionary's iteration order: its keys in order of first insertion. */
    var order: seq<Coord>

    /** `order` lists every key once, and every cell is stored under its own position. */
    ghost predicate Valid()
      reads this
    {
      && (forall i, j :: 0 <= i < j < |order| ==> order[i] != order[j])
      && cells.Keys == (set q | q in order)
      && KeyedByPosition()
    }

    /** Every cell is stored under its own position (which is how `add_cell` stores
        it); so no cell is stored twice. */
    ghost predicate KeyedByPosition()
      reads this
    {
      forall q :: q in cells ==> cells[q].x == q.0 && cells[q].y == q.1
    }

    /** The state and time of every stored cell, by coordinate. */
    ghost function Snapshot(): (w: Grid)
      reads this, cells.Values
      ensures w.Keys == cells.Keys
    {
      map q | q in cells :: cells[q].View()
    }

    /** A new map is 150 by 150 and holds no cell. */
    constructor ()
      ensures Valid()
      ensures height == Bound && width == Bound
      ensures cells == map[] && order == []
    {
      height := Bound;
      width := Bound;
      cells := map[];
      order := [];
    }

    /** Stores `c` under its own position, replacing whatever was there (last write
        wins); a new key goes to the end of the iteration order, a replaced one keeps
        its place. */
    method AddCell(c: Cell)
      requires Valid()
      modifies this
      ensures Valid()
      ensures cells == old(cells)[(c.x, c.y) := c]
      ensures (c.x, c.y) in cells && cells[(c.x, c.y)] == c

      ensures order == if (c.x, c.y) in old(cells) then old(order) else old(order) + [(c.x, c.y)]
    {
      var key := (c.x, c.y);
      if key !in cells {
        order := order + [key];
      }
      cells := cells[key := c];
    }

    /** The cells present at the four lattice neighbours of (x, y), in the order +x, -x,
        +y, -y, each admitted only by the fixed bound test of its direction. The tests
        use the literal 150, which is `Bound`, not the fields `height` and `width`. */
    method AdjacentCells(x: int, y: int) returns (adj: seq<Cell>)
      requires KeyedByPosition()
      ensures adj == Image(cells, AdjacentKeys(cells.Keys, x, y))
      // at most four cells, all distinct, all stored in the map, each a step from (x, y)
      ensures NeighbourList(cells, adj, x, y)
    {
      var cs := cells;
      ghost var keys := cs.Keys;
      ghost var e0, e1, e2, e3 := Image(cs, Try(keys, x, y, 0)), Image(cs, Try(keys, x, y, 1)),
                                  Image(cs, Try(keys, x, y, 2)), Image(cs, Try(keys, x, y, 3));
      TryImage(cs, x, y, 0);
      TryImage(cs, x, y, 1);
      TryImage(cs, x, y, 2);
      TryImage(cs, x, y, 3);
      adj := [];
      if x + 1 < 150 {
        if (x + 1, y) in cs {
          adj := adj + [cs[(x + 1, y)]];
        }
      }
      assert adj == e0;
      if x - 1 > -1 {
        if (x - 1, y) in cs {
          adj := adj + [cs[(x - 1, y)]];
        }
      }
      assert adj == e0 + e1;
      if y + 1 < 150 {
        if (x, y + 1) in cs {
          adj := adj + [cs[(x, y + 1)]];
        }
      }
      assert adj == e0 + e1 + e2;
      if y - 1 > -1 {
        if (x, y - 1) in cs {
          adj := adj + [cs[(x, y - 1)]];
        }
      }
      assert adj == e0 + e1 + e2 + e3;
      ImageAppend(cs, Try(keys, x, y, 0), Try(keys, x, y, 1));
      ImageAppend(cs, Try(keys, x, y, 0) + Try(keys, x, y, 1), Try(keys, x, y, 2));
      ImageAppend(cs, Try(keys, x, y, 0) + Try(keys, x, y, 1) + Try(keys, x, y, 2), Try(keys, x, y, 3));
      assert adj == Image(cs, AdjacentKeys(keys, x, y));
      LookedUpNeighbours(cs, x, y);
    }

    /** The body of the time-step loop for the cell stored at `p`: looks up its
        neighbours and calls `process` on it. On the map's states this is `ProcessAt`. */
    method ProcessCell(p: Coord, rolls: Rolls, k: nat) returns (k': nat)
      requires KeyedByPosition() && p in cells
      modifies cells.Values
      ensures (Snapshot(), k') == ProcessAt(old(Snapshot()), p, rolls, k)
    {
      ghost var before := Snapshot();
      var c := cells[p];
      var adj := AdjacentCells(p.0, p.1);
      ghost var ks := AdjacentKeys(cells.Keys, p.0, p.1);
      ghost var susK := set q | q in ks && before[q].state == S;
      SusceptibleLookedUp(cells, ks, before);
      KeyedInjective(cells);
      k' := c.Process(adj, rolls, k);
      ghost var k1 := Age(before[p], rolls, k).1;
      ghost var infC: set<Cell> := if c.state == I then Spread(adj, Rename(cells, susK), rolls, k1).0 else {};
      ghost var after := Snapshot();
      forall q | q in cells && q != p
        ensures after[q] == if cells[q] in infC then CellState(I, 0) else before[q]
      {
        if cells[q] !in adj {
          assert cells[q] != c;
        }
      }
      StepAgrees(cells, before, after, p, rolls, k, infC, k');
    }

    /** One time step: `process` once on every stored cell, in iteration order, each
        with its neighbours looked up at that moment, so a cell infected earlier in the
        pass is processed in its infected state later in the same pass. The resulting
        states are `Pass` over the iteration order; the keys and the stored cells stay. */
    method TimeStep(rolls: Rolls, k: nat) returns (k': nat)
      requires Valid()
      modifies cells.Values
      ensures Valid() && cells == old(cells) && order == old(order)
      ensures (Snapshot(), k') == Pass(old(Snapshot()), order, rolls, k)
    {
      ghost var start := Snapshot();
      assert forall q :: q in order ==> q in start;
      k' := k;
      var i := 0;
      while i < |order|
        invariant 0 <= i <= |order|
        invariant Valid()
        invariant Snapshot().Keys == start.Keys
        invariant (Snapshot(), k') == Pass(start, order[..i], rolls, k)
      {
        var p := order[i];
        ghost var done := order[..i];
        PassSnoc(start, done, p, rolls, k);
        PrefixSnoc(order, i);
        k' := ProcessCell(p, rolls, k');
        i := i + 1;
      }
      assert order[..i] == order;
    }
  }
}
