/** One lattice cell: its fixed position and the state and time counter that `infect`
    and `process` update in place. */
module Cells {
  import opened Rules

  /** The cells of `adj` that are susceptible. */
  function Susceptible(adj: seq<Cell>): set<Cell>
    reads adj
  {
    set n | n in adj && n.state == S
  }

  class Cell {
    const x: int
    const y: int
    var state: Health
    var time: nat

    /** The cell's state and time as a value. */
    function View(): (v: CellState)
      reads this
      ensures v.state == state && v.time == time
    {
      CellState(state, time)
    }

    /** A new cell at (x, y) is susceptible with time 0. */
    constructor (x: int, y: int)
      ensures this.x == x && this.y == y
      ensures View() == CellState(S, 0)
    {
      this.x := x;
      this.y := y;
      state := S;
      time := 0;
    }

    /** Makes the cell infected with time 0, whatever it was before. */
    method Infect()
      modifies this
      ensures View() == CellState(I, 0)
    {
      state := I;
      time := 0;
    }

    /** One step of this cell: age, recovery check and death roll (`Age`), then, while
        still infected, the walk over `adj` (`Propagate`). Draws are taken from `rolls`
        from `k` on; `k'` is the next unused draw. Nothing outside this cell and `adj`
        changes. */
    method Process(adj: seq<Cell>, rolls: Rolls, k: nat) returns (k': nat)
      modifies this, adj
      ensures View() == Age(old(View()), rolls, k).0
      ensures var (inf, k2) := Spread(adj, old(Susceptible(adj)), rolls, Age(old(View()), rolls, k).1);
              && k' == (if state == I then k2 else Age(old(View()), rolls, k).1)
              && forall n :: n in adj && n != this ==>
                   n.View() == if state == I && n in inf then CellState(I, 0) else old(n.View())
    {
      ghost var me := View();
      ghost var sus := Susceptible(adj);
      time := time + 1;
      if time >= RecoveryTime {
        state := S;
      }
      k' := k;
      if state == I {
        if rolls(k') {
          state := R;
        }
        k' := k' + 1;
      }
      assert View() == Age(me, rolls, k).0 && k' == Age(me, rolls, k).1;
      if time > 0 && state == I {
        assert this !in Susceptible(adj);
        assert Susceptible(adj) == sus;
        k' := Propagate(adj, rolls, k');
      }
    }
  }

  /** The propagation loop of `process`: each cell of `adj` that is susceptible when it
      is examined uses one draw and is infected on a yes draw. The outcome is `Spread`
      over the cells susceptible beforehand; every other cell keeps its state and time. */
  method Propagate(adj: seq<Cell>, rolls: Rolls, k: nat) returns (k': nat)
    modifies adj
    ensures var (inf, k2) := Spread(adj, old(Susceptible(adj)), rolls, k);
            && k' == k2
            && forall n :: n in adj ==> n.View() == if n in inf then CellState(I, 0) else old(n.View())
  {
    ghost var sus := Susceptible(adj);
    ghost var inf: set<Cell> := {};
    ghost var left := sus;
    k' := k;
    var i := 0;
    while i < |adj|
      invariant 0 <= i <= |adj|
      invariant left <= sus && inf !! left
      invariant Spread(adj, sus, rolls, k).0 == inf + Spread(adj[i..], left, rolls, k').0
      invariant Spread(adj, sus, rolls, k).1 == Spread(adj[i..], left, rolls, k').1
      invariant forall n :: n in adj ==>
                  n.View() == if n in inf then CellState(I, 0) else old(n.View())
      invariant forall n :: n in adj ==> (n in left <==> n.state == S)
    {
      var n := adj[i];
      SuffixCons(adj, i);
      if n.state == S {
        if rolls(k') {
          n.Infect();
          inf := inf + {n};
          left := left - {n};
        }
        k' := k' + 1;
      }
      i := i + 1;
    }
    assert adj[i..] == [];
  }

  /** Taking the first element of a suffix. */
  lemma SuffixCons<T>(s: seq<T>, i: nat)
    requires i < |s|
    ensures s[i..] != [] && s[i..][0] == s[i] && s[i..][1..] == s[i + 1..]
  {
  }
}
