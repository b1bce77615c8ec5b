/** Worked examples of single time steps on small maps, with the random draws fixed.
    Each `process` call of an example is its own lemma; the time step chains them. */
module Scenarios {
  import opened Rules
  import opened World

  /** Propagation over a single neighbour: one draw if it is susceptible, none otherwise. */
  lemma SpreadOne<K>(q: K, sus: set<K>, rolls: Rolls, k: nat)
    ensures Spread([q], sus, rolls, k)
         == if q in sus then (if rolls(k) then ({q}, k + 1) else ({}, k + 1)) else ({}, k)
  {
    assert [q][1..] == [];
    assert Spread([], sus - {q}, rolls, k + 1).0 + {q} == {q};
  }

  /** `w` holds just an infected cell at (0, 0), newly infected, beside a new
      susceptible one at (1, 0). */
  predicate IsPair(w: Grid)
  {
    w.Keys == {(0, 0), (1, 0)} && w[(0, 0)] == CellState(I, 0) && w[(1, 0)] == CellState(S, 0)
  }

  /** Draw 1 says yes, every other draw says no. */
  function OnlySecond(): Rolls
  {
    i => i == 1
  }

  /** (0, 0) survives its death draw 0 and infects (1, 0) with draw 1. */
  lemma PairInfects(w: Grid)
    requires w.Keys == {(0, 0), (1, 0)} && w[(0, 0)] == CellState(I, 0) && w[(1, 0)].state == S
    ensures var (r, k) := ProcessAt(w, (0, 0), OnlySecond(), 0);
            r[(0, 0)] == CellState(I, 1) && r[(1, 0)] == CellState(I, 0) && k == 2
  {
    assert AdjacentKeys(w.Keys, 0, 0) == [(1, 0)];
    assert (set q | q in [(1, 0)] && w[q].state == S) == {(1, 0)};
    SpreadOne((1, 0), {(1, 0)}, OnlySecond(), 1);
  }

  /** (1, 0), infected earlier in the step, survives its death draw 2; its only neighbour
      is infected, so nothing more is drawn. */
  lemma PairCascades(w: Grid)
    requires w.Keys == {(0, 0), (1, 0)} && w[(0, 0)] == CellState(I, 1) && w[(1, 0)] == CellState(I, 0)
    ensures var (r, k) := ProcessAt(w, (1, 0), OnlySecond(), 2);
            r[(0, 0)] == CellState(I, 1) && r[(1, 0)] == CellState(I, 1) && k == 3
  {
    assert AdjacentKeys(w.Keys, 1, 0) == [(0, 0)];
    assert (set q | q in [(0, 0)] && w[q].state == S) == {};
    SpreadOne((0, 0), {}, OnlySecond(), 3);
  }

  /** Inserted as (0, 0) then (1, 0): the infected cell survives its death draw (draw 0)
      and infects its neighbour (draw 1); the neighbour, now (I, 0), is processed next in
      the same step, survives its own death draw (draw 2) and ends at time 1. */
  lemma PairInfectedFirst(w0: Grid)
    requires IsPair(w0)
    ensures var (w, k) := Pass(w0, [(0, 0), (1, 0)], OnlySecond(), 0);
            w.Keys == {(0, 0), (1, 0)} && w[(0, 0)] == CellState(I, 1) && w[(1, 0)] == CellState(I, 1) && k == 3
  {
    var ks := [(0, 0), (1, 0)];
    assert ks[..1] == [(0, 0)] && [(0, 0)][..0] == [];
    PairInfects(w0);
    PairCascades(ProcessAt(w0, (0, 0), OnlySecond(), 0).0);
  }

  /** (1, 0), still susceptible, only ages; nothing is drawn. */
  lemma PairAges(w: Grid)
    requires w.Keys == {(0, 0), (1, 0)} && w[(0, 0)] == CellState(I, 0) && w[(1, 0)] == CellState(S, 0)
    ensures var (r, k) := ProcessAt(w, (1, 0), OnlySecond(), 0);
            r[(0, 0)] == CellState(I, 0) && r[(1, 0)] == CellState(S, 1) && k == 0
  {
  }

  /** Inserted as (1, 0) then (0, 0): the susceptible cell is processed first and only
      ages; it is then infected by (0, 0) and ends the step as (I, 0). */
  lemma PairSusceptibleFirst(w0: Grid)
    requires IsPair(w0)
    ensures var (w, k) := Pass(w0, [(1, 0), (0, 0)], OnlySecond(), 0);
            w.Keys == {(0, 0), (1, 0)} && w[(0, 0)] == CellState(I, 1) && w[(1, 0)] == CellState(I, 0) && k == 2
  {
    var ks := [(1, 0), (0, 0)];
    assert ks[..1] == [(1, 0)] && [(1, 0)][..0] == [];
    PairAges(w0);
    PairInfects(ProcessAt(w0, (1, 0), OnlySecond(), 0).0);
  }

  /** Three cells in a row, inserted left to right, the leftmost infected. */
  function Row(): Grid
  {
    map[(0, 0) := CellState(I, 0), (1, 0) := CellState(S, 0), (2, 0) := CellState(S, 0)]
  }

  /** The odd draws say yes: every death draw here is even, every infection draw odd. */
  function OddYes(): Rolls
  {
    i => i % 2 == 1
  }

  /** (0, 0) survives draw 0 and infects (1, 0) with draw 1. */
  lemma RowFirst(w: Grid)
    requires w.Keys == {(0, 0), (1, 0), (2, 0)}
    requires w[(0, 0)] == CellState(I, 0) && w[(1, 0)] == CellState(S, 0) && w[(2, 0)] == CellState(S, 0)
    ensures var (r, k) := ProcessAt(w, (0, 0), OddYes(), 0);
            r[(0, 0)] == CellState(I, 1) && r[(1, 0)] == CellState(I, 0) && r[(2, 0)] == CellState(S, 0) && k == 2
  {
    assert AdjacentKeys(w.Keys, 0, 0) == [(1, 0)];
    assert (set q | q in [(1, 0)] && w[q].state == S) == {(1, 0)};
    SpreadOne((1, 0), {(1, 0)}, OddYes(), 1);
  }

  /** (1, 0) survives draw 2, infects (2, 0) with draw 3 and skips the infected (0, 0). */
  lemma RowSecond(w: Grid)
    requires w.Keys == {(0, 0), (1, 0), (2, 0)}
    requires w[(0, 0)] == CellState(I, 1) && w[(1, 0)] == CellState(I, 0) && w[(2, 0)] == CellState(S, 0)
    ensures var (r, k) := ProcessAt(w, (1, 0), OddYes(), 2);
            r[(0, 0)] == CellState(I, 1) && r[(1, 0)] == CellState(I, 1) && r[(2, 0)] == CellState(I, 0) && k == 4
  {
    var adj := [(2, 0), (0, 0)];
    assert AdjacentKeys(w.Keys, 1, 0) == adj;
    assert (set q | q in adj && w[q].state == S) == {(2, 0)};
    assert adj[1..] == [(0, 0)];
    assert {(2, 0)} - {(2, 0)} == {};
    SpreadOne((0, 0), {}, OddYes(), 4);
    assert Spread(adj[1..], {}, OddYes(), 4).0 + {(2, 0)} == {(2, 0)};
  }

  /** (2, 0) survives draw 4; its only neighbour is infected. */
  lemma RowThird(w: Grid)
    requires w.Keys == {(0, 0), (1, 0), (2, 0)}
    requires w[(0, 0)] == CellState(I, 1) && w[(1, 0)] == CellState(I, 1) && w[(2, 0)] == CellState(I, 0)
    ensures var (r, k) := ProcessAt(w, (2, 0), OddYes(), 4);
            r[(0, 0)] == CellState(I, 1) && r[(1, 0)] == CellState(I, 1) && r[(2, 0)] == CellState(I, 1) && k == 5
  {
    assert AdjacentKeys(w.Keys, 2, 0) == [(1, 0)];
    assert (set q | q in [(1, 0)] && w[q].state == S) == {};
    SpreadOne((1, 0), {}, OddYes(), 5);
  }

  /** The infection crosses the whole row in one step: (0, 0) infects (1, 0), which is
      processed next and infects (2, 0), which is processed last. Five draws are used. */
  lemma RowCascade()
    ensures var (w, k) := Pass(Row(), [(0, 0), (1, 0), (2, 0)], OddYes(), 0);
            && w.Keys == {(0, 0), (1, 0), (2, 0)}
            && w[(0, 0)] == CellState(I, 1) && w[(1, 0)] == CellState(I, 1) && w[(2, 0)] == CellState(I, 1)
            && k == 5
  {
    var ks := [(0, 0), (1, 0), (2, 0)];
    assert ks[..2] == [(0, 0), (1, 0)] && ks[..2][..1] == [(0, 0)] && [(0, 0)][..0] == [];
    RowFirst(Row());
    var w1 := ProcessAt(Row(), (0, 0), OddYes(), 0).0;
    RowSecond(w1);
    var w2 := ProcessAt(w1, (1, 0), OddYes(), 2).0;
    RowThird(w2);
  }

  /** A cell with no neighbour in the map only ages: one step is `Age` on its own. */
  lemma LoneCell(c: CellState, p: Coord, rolls: Rolls, k: nat)
    ensures Pass(map[p := c], [p], rolls, k) == (map[p := Age(c, rolls, k).0], Age(c, rolls, k).1)
  {
    var w := map[p := c];
    assert [p][..0] == [];
    assert Pass(w, [p], rolls, k) == ProcessAt(w, p, rolls, k);
    var r := ProcessAt(w, p, rolls, k);
    if Age(c, rolls, k).0.state == I {
      assert AdjacentKeys(w.Keys, p.0, p.1) == [];
      assert r.1 == Age(c, rolls, k).1;
      assert r.0.Keys == {p} && r.0[p] == Age(c, rolls, k).0;
      assert r.0 == map[p := Age(c, rolls, k).0];
    } else {
      assert w[p := Age(c, rolls, k).0] == map[p := Age(c, rolls, k).0];
    }
  }

  /** `n` time steps in a row, each over the iteration order `ks`, as a driver calling
      `time_step` repeatedly would run them. */
  function Run(w: Grid, ks: seq<Coord>, rolls: Rolls, k: nat, n: nat): (r: (Grid, nat))
    requires forall q :: q in ks ==> q in w
    ensures r.0.Keys == w.Keys
    decreases n
  {
    if n == 0 then (w, k)
    else
      var (w1, k1) := Pass(w, ks, rolls, k);
      Run(w1, ks, rolls, k1, n - 1)
  }

  /** The first of `n > 0` steps, when it is known to lead to `w1` with draw index `k1`. */
  lemma RunFirst(w: Grid, ks: seq<Coord>, rolls: Rolls, k: nat, n: nat, w1: Grid, k1: nat)
    requires forall q :: q in ks ==> q in w
    requires n > 0 && Pass(w, ks, rolls, k) == (w1, k1)
    ensures forall q :: q in ks ==> q in w1
    ensures Run(w, ks, rolls, k, n) == Run(w1, ks, rolls, k1, n - 1)
  {
  }

  /** An isolated susceptible cell stays susceptible for any number of steps, its time
      counting up, and never uses a draw. */
  lemma {:induction false} LoneSusceptibleStays(p: Coord, t: nat, rolls: Rolls, k: nat, n: nat)
    ensures Run(map[p := CellState(S, t)], [p], rolls, k, n) == (map[p := CellState(S, t + n)], k)
    decreases n
  {
    if n > 0 {
      var c := CellState(S, t);
      var w1 := map[p := CellState(S, t + 1)];
      assert Age(c, rolls, k) == (CellState(S, t + 1), k);
      LoneCell(c, p, rolls, k);
      RunFirst(map[p := c], [p], rolls, k, n, w1, k);
      LoneSusceptibleStays(p, t + 1, rolls, k, n - 1);
    }
  }

  /** A lone cell infected at time 0 whose death draws all say no stays infected for three
      steps and is forced back to S at the fourth, with time 4; only the first three steps
      draw. */
  lemma LoneInfectedRecovers(p: Coord)
    ensures Run(map[p := CellState(I, 0)], [p], _ => false, 0, 4) == (map[p := CellState(S, 4)], 3)
  {
    var no: Rolls := _ => false;
    LoneCell(CellState(I, 0), p, no, 0);
    LoneCell(CellState(I, 1), p, no, 1);
    LoneCell(CellState(I, 2), p, no, 2);
    LoneCell(CellState(I, 3), p, no, 3);
    assert Run(map[p := CellState(S, 4)], [p], no, 3, 0) == (map[p := CellState(S, 4)], 3);
    assert Run(map[p := CellState(I, 3)], [p], no, 3, 1) == (map[p := CellState(S, 4)], 3);
    assert Run(map[p := CellState(I, 2)], [p], no, 2, 2) == (map[p := CellState(S, 4)], 3);
    assert Run(map[p := CellState(I, 1)], [p], no, 1, 3) == (map[p := CellState(S, 4)], 3);
  }

  /** A lone infected cell below the recovery time whose death draw says yes dies: it
      ends the step as (R, 1), having used that one draw. */
  lemma LoneDeath(p: Coord, k: nat)
    ensures Pass(map[p := CellState(I, 0)], [p], _ => true, k) == (map[p := CellState(R, 1)], k + 1)
  {
    LoneCell(CellState(I, 0), p, _ => true, k);
  }

  /** An infected cell whose time reaches the recovery time is forced back to S without
      a death draw, even though every draw would say yes. */
  lemma LoneRecovery(p: Coord, k: nat)
    ensures Pass(map[p := CellState(I, 3)], [p], _ => true, k) == (map[p := CellState(S, 4)], k)
  {
    LoneCell(CellState(I, 3), p, _ => true, k);
  }

  /** The bound test looks only at the moving coordinate: at the out-of-range position
      (201, 0) the lookup in direction -x admits (200, 0), also out of range. */
  lemma OutOfRangeNeighbour()
    ensures AdjacentKeys({(200, 0), (201, 0)}, 201, 0) == [(200, 0)]
  {
    assert !Admitted(201, 0, 0);
  }

  /** At the edge (149, 0) the lookup refuses (150, 0) and (149, -1) even when stored. */
  lemma EdgeNeighbours()
    ensures AdjacentKeys({(150, 0), (148, 0), (149, 1), (149, -1)}, 149, 0) == [(148, 0), (149, 1)]
  {
    assert !Admitted(149, 0, 0) && !Admitted(149, 0, 3);
  }
}
