/** The constants and the pure transition rules of the epidemic cellular automaton:
    what one `process` call does to the processing cell itself (`Age`) and which of its
    neighbours it infects (`Spread`). Both the single cell (module Cells) and the whole
    map (module World) are specified with these two functions. */
module Rules {

  /** Steps after which a cell is forced back to susceptible (`recovery_time`). */
  const RecoveryTime: nat := 4

  /** The literal 150 used by the neighbour lookup and as the map's width and height. */
  const Bound: int := 150

  /** "S" susceptible, "I" infected, "R" resistant (dead). */
  datatype Health = S | I | R

  /** What a cell holds besides its position: its state and its time counter. */
  datatype CellState = CellState(state: Health, time: nat)

  /** The shared random stream, seen only through its yes/no outcomes: draw number `k`
      is `rolls(k)`. The death roll ("random value <= death probability") and every
      infection roll ("random value <= virality") consume one draw each, in program order. */
  type Rolls = nat -> bool

  /** The first three steps of `process` on the processing cell: the age increment, the
      forced reset to susceptible once the age reaches the recovery time, and the death
      roll, drawn only while infected. Returns the new cell and the next unused draw. */
  function Age(c: CellState, rolls: Rolls, k: nat): (r: (CellState, nat))
    // the time counter always grows by exactly one
    ensures r.0.time == c.time + 1
    // recovery overrides everything, even a dead cell ("revival"), and draws nothing
    ensures c.time + 1 >= RecoveryTime ==> r == (CellState(S, c.time + 1), k)
    // below the recovery time, a cell is dead afterwards exactly when it was dead already,
    // or was infected and its death draw says yes
    ensures r.0.state == R <==> c.time + 1 < RecoveryTime && (c.state == R || (c.state == I && rolls(k)))
    // a dead cell stays dead until the recovery time is reached
    ensures c.state == R && c.time + 1 < RecoveryTime ==> r == (CellState(R, c.time + 1), k)
    // only an infected cell that survives its death roll is still infected afterwards
    ensures r.0.state == I <==> c.state == I && c.time + 1 < RecoveryTime && !rolls(k)
    // exactly one draw is used by a cell that is still infected before the roll
    ensures r.1 == if c.state == I && c.time + 1 < RecoveryTime then k + 1 else k
  {
    var time := c.time + 1;
    var state := if time >= RecoveryTime then S else c.state;
    if state == I then
      (CellState(if rolls(k) then R else I, time), k + 1)
    else
      (CellState(state, time), k)
  }

  /** Propagation: walks the neighbour list `ids` in order; a neighbour still susceptible
      when it is examined uses one draw and is infected when the draw says yes. `sus` is
      the set of neighbours susceptible before the walk. An infected neighbour leaves
      `sus`, so one listed twice is infected at most once and its second occurrence uses
      no draw. Returns the set of infected neighbours and the next unused draw. `K` is
      whatever identifies a cell: a cell object, or its coordinate. */
  function Spread<K>(ids: seq<K>, sus: set<K>, rolls: Rolls, k: nat): (r: (set<K>, nat))
    // only neighbours that were susceptible are infected, and each one is listed
    ensures r.0 <= sus
    ensures forall q :: q in r.0 ==> q in ids
    // at most one draw per listed neighbour
    ensures k <= r.1 <= k + |ids|
    decreases |ids|
  {
    if ids == [] then ({}, k)
    else if ids[0] in sus then
      if rolls(k) then
        var (inf, k') := Spread(ids[1..], sus - {ids[0]}, rolls, k + 1);
        (inf + {ids[0]}, k')
      else
        Spread(ids[1..], sus, rolls, k + 1)
    else
      Spread(ids[1..], sus, rolls, k)
  }

  /** Every infection used a draw of its own: there are at most as many infected
      neighbours as draws taken. */
  lemma {:induction false} SpreadCount<K>(ids: seq<K>, sus: set<K>, rolls: Rolls, k: nat)
    ensures |Spread(ids, sus, rolls, k).0| <= Spread(ids, sus, rolls, k).1 - k
    decreases |ids|
  {
    if ids != [] {
      var q := ids[0];
      if q in sus {
        if rolls(k) {
          SpreadCount(ids[1..], sus - {q}, rolls, k + 1);
        } else {
          SpreadCount(ids[1..], sus, rolls, k + 1);
        }
      } else {
        SpreadCount(ids[1..], sus, rolls, k);
      }
    }
  }

  /** How many of the first `i` listed neighbours are in `sus`. */
  function SusBefore<K>(ids: seq<K>, sus: set<K>, i: nat): (n: nat)
    requires i <= |ids|
    ensures n <= i
  {
    if i == 0 then 0 else SusBefore(ids, sus, i - 1) + (if ids[i - 1] in sus then 1 else 0)
  }

  /** Counting past the first neighbour: the count over `ids` is the first neighbour's
      share plus the count over the rest, against any `sus2` that agrees with `sus` on it. */
  lemma {:induction false} SusBeforeTail<K>(ids: seq<K>, sus: set<K>, sus2: set<K>, i: nat)
    requires i < |ids|
    requires forall j :: 0 < j < |ids| ==> (ids[j] in sus2 <==> ids[j] in sus)
    ensures SusBefore(ids, sus, i + 1) == (if ids[0] in sus then 1 else 0) + SusBefore(ids[1..], sus2, i)
  {
    if i > 0 {
      SusBeforeTail(ids, sus, sus2, i - 1);
      assert ids[1..][i - 1] == ids[i];
    }
  }

  /** Neighbour `i` of `ids`, if it was susceptible, is in `inf` exactly when its own draw
      says yes: the draw numbered `k` plus the susceptible neighbours listed before it. */
  predicate OwnDraw<K>(ids: seq<K>, sus: set<K>, rolls: Rolls, k: nat, inf: set<K>, i: nat)
    requires i < |ids|
  {
    ids[i] in sus ==> (ids[i] in inf <==> rolls(k + SusBefore(ids, sus, i)))
  }

  /** The walk over a neighbour list without repeats, exactly: every neighbour that was
      susceptible takes one draw of its own and is infected exactly when that draw says
      yes (`OwnDraw`), and the walk uses one draw per susceptible neighbour. */
  lemma {:induction false} SpreadExact<K>(ids: seq<K>, sus: set<K>, rolls: Rolls, k: nat)
    requires forall a, b :: 0 <= a < b < |ids| ==> ids[a] != ids[b]
    ensures Spread(ids, sus, rolls, k).1 == k + SusBefore(ids, sus, |ids|)
    ensures forall i :: 0 <= i < |ids| ==> OwnDraw(ids, sus, rolls, k, Spread(ids, sus, rolls, k).0, i)
    decreases |ids|
  {
    if ids != [] {
      var q, tail := ids[0], ids[1..];
      var sus2 := if q in sus && rolls(k) then sus - {q} else sus;
      var k1 := if q in sus then k + 1 else k;
      var r := Spread(ids, sus, rolls, k);
      var t := Spread(tail, sus2, rolls, k1);
      assert r.1 == t.1;
      assert forall x :: x != q ==> (x in r.0 <==> x in t.0);
      assert q in sus ==> (q in r.0 <==> rolls(k));
      assert forall a, b :: 0 <= a < b < |tail| ==> tail[a] == ids[a + 1] && tail[b] == ids[b + 1];
      SpreadExact(tail, sus2, rolls, k1);
      assert forall j :: 0 < j < |ids| ==> ids[j] != q;
      SpreadExactStep(ids, tail, sus, sus2, rolls, k, k1, r, t);
    }
  }

  /** The inductive step of `SpreadExact`: the first neighbour's own draw, and the rest
      shifted by one position and by the first neighbour's share of the draws. */
  lemma SpreadExactStep<K>(ids: seq<K>, tail: seq<K>, sus: set<K>, sus2: set<K>, rolls: Rolls, k: nat, k1: nat,
                           r: (set<K>, nat), t: (set<K>, nat))
    requires ids != [] && tail == ids[1..] && forall j :: 0 < j < |ids| ==> ids[j] != ids[0]
    requires sus2 == sus || sus2 == sus - {ids[0]}
    requires k1 == if ids[0] in sus then k + 1 else k
    requires r.1 == t.1 && t.1 == k1 + SusBefore(tail, sus2, |tail|)
    requires forall x :: x != ids[0] ==> (x in r.0 <==> x in t.0)
    requires ids[0] in sus ==> (ids[0] in r.0 <==> rolls(k))
    requires forall i :: 0 <= i < |tail| ==> OwnDraw(tail, sus2, rolls, k1, t.0, i)
    ensures r.1 == k + SusBefore(ids, sus, |ids|)
    ensures forall i :: 0 <= i < |ids| ==> OwnDraw(ids, sus, rolls, k, r.0, i)
  {
    assert forall j :: 0 < j < |ids| ==> (ids[j] in sus2 <==> ids[j] in sus);
    SusBeforeTail(ids, sus, sus2, |tail|);
    forall i | 0 < i < |ids|
      ensures OwnDraw(ids, sus, rolls, k, r.0, i)
    {
      OwnDrawShift(ids, tail, sus, sus2, rolls, k, k1, r.0, t.0, i);
    }
    assert SusBefore(ids, sus, 0) == 0;
    assert OwnDraw(ids, sus, rolls, k, r.0, 0);
  }

  /** Neighbour `i > 0` of `ids` is neighbour `i - 1` of the rest, and its draw number is
      shifted by the first neighbour's share. */
  lemma OwnDrawShift<K>(ids: seq<K>, tail: seq<K>, sus: set<K>, sus2: set<K>, rolls: Rolls, k: nat, k1: nat,
                        r0: set<K>, t0: set<K>, i: nat)
    requires 0 < i < |ids| && tail == ids[1..] && ids[i] != ids[0]
    requires forall j :: 0 < j < |ids| ==> (ids[j] in sus2 <==> ids[j] in sus)
    requires k1 == if ids[0] in sus then k + 1 else k
    requires forall x :: x != ids[0] ==> (x in r0 <==> x in t0)
    requires OwnDraw(tail, sus2, rolls, k1, t0, i - 1)
    ensures OwnDraw(ids, sus, rolls, k, r0, i)
  {
    SusBeforeTail(ids, sus, sus2, i - 1);
    assert tail[i - 1] == ids[i];
  }

  /** With no susceptible neighbour listed, propagation infects nobody and draws nothing. */
  lemma {:induction false} SpreadNoTarget<K>(ids: seq<K>, sus: set<K>, rolls: Rolls, k: nat)
    requires forall q :: q in ids ==> q !in sus
    ensures Spread(ids, sus, rolls, k) == ({}, k)
    decreases |ids|
  {
    if ids != [] {
      SpreadNoTarget(ids[1..], sus, rolls, k);
    }
  }

  /** When every draw says yes (virality forced to 1), every listed susceptible neighbour
      is infected, and exactly one draw is used per distinct one. */
  lemma {:induction false} SpreadAllYes<K>(ids: seq<K>, sus: set<K>, rolls: Rolls, k: nat)
    requires forall j :: k <= j < k + |ids| ==> rolls(j)
    ensures Spread(ids, sus, rolls, k).0 == set q | q in ids && q in sus
    decreases |ids|
  {
    if ids != [] {
      var q := ids[0];
      if q in sus {
        SpreadAllYes(ids[1..], sus - {q}, rolls, k + 1);
        var rest := set q' | q' in ids[1..] && q' in sus - {q};
        assert (set q' | q' in ids && q' in sus) == rest + {q};
      } else {
        SpreadAllYes(ids[1..], sus, rolls, k);
        assert (set q' | q' in ids && q' in sus) == (set q' | q' in ids[1..] && q' in sus);
      }
    }
  }

  /** When every draw says no, nobody is infected. */
  lemma {:induction false} SpreadAllNo<K>(ids: seq<K>, sus: set<K>, rolls: Rolls, k: nat)
    requires forall j :: k <= j < k + |ids| ==> !rolls(j)
    ensures Spread(ids, sus, rolls, k).0 == {}
    decreases |ids|
  {
    if ids != [] {
      if ids[0] in sus {
        SpreadAllNo(ids[1..], sus, rolls, k + 1);
      } else {
        SpreadAllNo(ids[1..], sus, rolls, k);
      }
    }
  }

  /** The neighbour list `ids` seen through `f`. */
  function Image<K, L>(f: map<K, L>, ids: seq<K>): (r: seq<L>)
    requires forall q :: q in ids ==> q in f
    ensures |r| == |ids|
    ensures forall i :: 0 <= i < |ids| ==> r[i] == f[ids[i]]
  {
    seq(|ids|, i requires 0 <= i < |ids| => f[ids[i]])
  }

  /** Looking up a concatenation is concatenating the lookups. */
  lemma ImageAppend<K, L>(f: map<K, L>, a: seq<K>, b: seq<K>)
    requires forall q :: q in a + b ==> q in f
    ensures Image(f, a + b) == Image(f, a) + Image(f, b)
  {
  }

  /** The set `s` seen through `f`. */
  function Rename<K, L>(f: map<K, L>, s: set<K>): set<L>
    requires s <= f.Keys
  {
    set q | q in s :: f[q]
  }

  /** Renaming the neighbours by an injective `f` (coordinates to the cells stored there)
      renames the infected set accordingly and uses the same draws. */
  lemma {:induction false} SpreadRename<K, L>(f: map<K, L>, ids: seq<K>, sus: set<K>, rolls: Rolls, k: nat)
    requires forall q :: q in ids ==> q in f
    requires sus <= f.Keys
    requires forall a, b :: a in f && b in f && a != b ==> f[a] != f[b]
    ensures Spread(Image(f, ids), Rename(f, sus), rolls, k)
         == (Rename(f, Spread(ids, sus, rolls, k).0), Spread(ids, sus, rolls, k).1)
    decreases |ids|
  {
    var fs := Rename(f, sus);
    if ids == [] {
      assert Image(f, ids) == [];
      assert forall y :: y !in Rename(f, Spread(ids, sus, rolls, k).0);
      assert Rename(f, Spread(ids, sus, rolls, k).0) == {};
      assert Spread(Image(f, ids), Rename(f, sus), rolls, k) == ({}, k);
      assert Spread(ids, sus, rolls, k).1 == k;
    } else {
      var q := ids[0];
      assert Image(f, ids)[0] == f[q];
      assert Image(f, ids)[1..] == Image(f, ids[1..]);
      if q in sus {
        assert f[q] in fs;
        if rolls(k) {
          SpreadRename(f, ids[1..], sus - {q}, rolls, k + 1);
          assert Rename(f, sus - {q}) == fs - {f[q]};
          var inf := Spread(ids[1..], sus - {q}, rolls, k + 1).0;
          assert Rename(f, inf + {q}) == Rename(f, inf) + {f[q]};
        } else {
          SpreadRename(f, ids[1..], sus, rolls, k + 1);
        }
      } else {
        assert f[q] !in fs;
        SpreadRename(f, ids[1..], sus, rolls, k);
      }
    }
  }
}
