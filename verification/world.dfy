/** The map as a value: every coordinate present maps to its cell's state and time.
    `ProcessAt` is one cell's `process` call seen on the whole map, `Pass` a whole time
    step (one `ProcessAt` per coordinate, in iteration order, each seeing the effects of
    the ones before it). */
module World {
  import opened Rules

  type Coord = (int, int)
  type Grid = map<Coord, CellState>

  /** The lattice (Manhattan) distance between two positions. */
  function Distance(a: Coord, b: Coord): nat
  {
    (if a.0 < b.0 then b.0 - a.0 else a.0 - b.0) + (if a.1 < b.1 then b.1 - a.1 else a.1 - b.1)
  }

  /** The four von Neumann neighbour positions, in the order the lookup tries them:
      +x, -x, +y, -y. */
  function Candidate(x: int, y: int, d: nat): (q: Coord)
    requires d < 4
    ensures Distance(q, (x, y)) == 1
  {
    if d == 0 then (x + 1, y)
    else if d == 1 then (x - 1, y)
    else if d == 2 then (x, y + 1)
    else (x, y - 1)
  }

  /** The bound test for direction `d`: only the coordinate that moves is checked, and
      only on the side it moves towards (`x + 1 < 150`, `x - 1 > -1`, ...). */
  predicate Admitted(x: int, y: int, d: nat)
    requires d < 4
  {
    if d == 0 then x + 1 < Bound
    else if d == 1 then x - 1 > -1
    else if d == 2 then y + 1 < Bound
    else y - 1 > -1
  }

  /** The index of `q` among the candidates of (x, y); 4 when it is none of them. */
  function Direction(x: int, y: int, q: Coord): (d: nat)
    ensures d <= 4
    ensures d < 4 ==> Candidate(x, y, d) == q
  {
    if q == (x + 1, y) then 0
    else if q == (x - 1, y) then 1
    else if q == (x, y + 1) then 2
    else if q == (x, y - 1) then 3
    else 4
  }

  /** The lookup in direction `d`: the candidate, if it passes its bound test and is
      present, else nothing. */
  function Try(keys: set<Coord>, x: int, y: int, d: nat): (r: seq<Coord>)
    requires d < 4
    ensures r == [] || r == [Candidate(x, y, d)]
    ensures r != [] <==> Admitted(x, y, d) && Candidate(x, y, d) in keys
  {
    if Admitted(x, y, d) && Candidate(x, y, d) in keys then [Candidate(x, y, d)] else []
  }

  /** Looking up the coordinates one direction yields: the stored value at the candidate
      when it passes its bound test and is present, else nothing. */
  lemma TryImage<L>(f: map<Coord, L>, x: int, y: int, d: nat)
    requires d < 4
    ensures Image(f, Try(f.Keys, x, y, d))
         == if Admitted(x, y, d) && Candidate(x, y, d) in f then [f[Candidate(x, y, d)]] else []
  {
  }

  /** The coordinates `adjacent_cells(x, y)` returns the cells of, for a map whose
      coordinates are `keys`. */
  function AdjacentKeys(keys: set<Coord>, x: int, y: int): (r: seq<Coord>)
    // at most the four neighbours, each present and a lattice step away
    ensures |r| <= 4
    ensures forall q :: q in r ==> q in keys && Distance(q, (x, y)) == 1
    // exactly the present candidates that pass their bound test
    ensures forall d :: 0 <= d < 4 ==>
              (Candidate(x, y, d) in r <==> Admitted(x, y, d) && Candidate(x, y, d) in keys)
  {
    Try(keys, x, y, 0) + Try(keys, x, y, 1) + Try(keys, x, y, 2) + Try(keys, x, y, 3)
  }

  /** The neighbours come in the order +x, -x, +y, -y, hence without repetition. */
  lemma AdjacentKeysOrder(keys: set<Coord>, x: int, y: int)
    ensures var r := AdjacentKeys(keys, x, y);
            forall i, j :: 0 <= i < j < |r| ==> Direction(x, y, r[i]) < Direction(x, y, r[j])
  {
    var t0, t1, t2, t3 := Try(keys, x, y, 0), Try(keys, x, y, 1), Try(keys, x, y, 2), Try(keys, x, y, 3);
    var r := AdjacentKeys(keys, x, y);
    assert r == t0 + t1 + t2 + t3;
    forall i | 0 <= i < |r|
      ensures Direction(x, y, r[i]) == (if i < |t0| then 0 else if i < |t0| + |t1| then 1 else if i < |t0| + |t1| + |t2| then 2 else 3)
    {
    }
  }

  /** A lookup at an in-range position returns only in-range positions. (At an
      out-of-range position it need not: only the moving coordinate is checked.) */
  lemma AdjacentKeysInRange(keys: set<Coord>, x: int, y: int)
    requires 0 <= x < Bound && 0 <= y < Bound
    ensures forall q :: q in AdjacentKeys(keys, x, y) ==> 0 <= q.0 < Bound && 0 <= q.1 < Bound
  {
    var t0, t1, t2, t3 := Try(keys, x, y, 0), Try(keys, x, y, 1), Try(keys, x, y, 2), Try(keys, x, y, 3);
    assert AdjacentKeys(keys, x, y) == t0 + t1 + t2 + t3;
    forall q: Coord | q in t0 + t1 + t2 + t3
      ensures 0 <= q.0 < Bound && 0 <= q.1 < Bound
    {
      var d := if q in t0 then 0 else if q in t1 then 1 else if q in t2 then 2 else 3;
      assert q == Candidate(x, y, d) && Admitted(x, y, d);
    }
  }

  /** One `process` call of the cell at `p`, on the whole map: the cell itself ages
      (`Age`); if it is then infected, its neighbours susceptible at that moment are
      walked (`Spread`) and the infected ones become (I, 0). */
  function ProcessAt(w: Grid, p: Coord, rolls: Rolls, k: nat): (r: (Grid, nat))
    requires p in w
    // the set of coordinates never changes
    ensures r.0.Keys == w.Keys
    // the processing cell gets exactly its own update
    ensures r.0[p] == Age(w[p], rolls, k).0
    // every other cell is untouched, or was a susceptible neighbour and is now (I, 0)
    ensures forall q :: q in w && q != p ==>
              r.0[q] == w[q] ||
              (w[q].state == S && r.0[q] == CellState(I, 0) && q in AdjacentKeys(w.Keys, p.0, p.1))
    // a cell that is not infected after its own update infects nobody and draws no more
    ensures Age(w[p], rolls, k).0.state != I ==> r == (w[p := Age(w[p], rolls, k).0], Age(w[p], rolls, k).1)
    // at most one death draw and one draw per neighbour
    ensures k <= r.1 <= k + 5
  {
    var (c, k1) := Age(w[p], rolls, k);
    var w1 := w[p := c];
    if c.time > 0 && c.state == I then
      var adj := AdjacentKeys(w.Keys, p.0, p.1);
      var (inf, k2) := Spread(adj, (set q | q in adj && w[q].state == S), rolls, k1);
      (map q | q in w1 :: if q in inf then CellState(I, 0) else w1[q], k2)
    else
      (w1, k1)
  }

  /** One time step: `process` for each coordinate of `ks` in order, each call seeing
      the map as the earlier calls left it. */
  function Pass(w: Grid, ks: seq<Coord>, rolls: Rolls, k: nat): (r: (Grid, nat))
    requires forall q :: q in ks ==> q in w
    ensures r.0.Keys == w.Keys
    ensures k <= r.1 <= k + 5 * |ks|
    decreases |ks|
  {
    if ks == [] then (w, k)
    else
      var (w1, k1) := Pass(w, ks[..|ks| - 1], rolls, k);
      ProcessAt(w1, ks[|ks| - 1], rolls, k1)
  }

  /** Extending the iteration order by one coordinate adds one `ProcessAt` at the end. */
  lemma PassSnoc(w: Grid, ks: seq<Coord>, p: Coord, rolls: Rolls, k: nat)
    requires forall q :: q in ks ==> q in w
    requires p in w
    ensures Pass(w, ks + [p], rolls, k) == ProcessAt(Pass(w, ks, rolls, k).0, p, rolls, Pass(w, ks, rolls, k).1)
  {
    assert (ks + [p])[..|ks|] == ks;
  }

  /** A pass over `a + b` is a pass over `a` followed by a pass over `b`. */
  lemma {:induction false} PassAppend(w: Grid, a: seq<Coord>, b: seq<Coord>, rolls: Rolls, k: nat)
    requires forall q :: q in a + b ==> q in w
    ensures forall q :: q in b ==> q in Pass(w, a, rolls, k).0
    ensures Pass(w, a + b, rolls, k) == Pass(Pass(w, a, rolls, k).0, b, rolls, Pass(w, a, rolls, k).1)
    decreases |b|
  {
    var (wa, ka) := Pass(w, a, rolls, k);
    assert forall q :: q in b ==> q in a + b;
    if b == [] {
      assert a + b == a;
    } else {
      var b' := b[..|b| - 1];
      var p := b[|b| - 1];
      assert b == b' + [p];
      assert forall q :: q in b' ==> q in b;
      assert a + b == (a + b') + [p];
      assert forall q :: q in a + b' ==> q in a + b;
      PassAppend(w, a, b', rolls, k);
      PassSnoc(w, a + b', p, rolls, k);
      PassSnoc(wa, b', p, rolls, ka);
    }
  }

  /** A coordinate the pass does not process keeps its cell, except that a cell
      susceptible at the start may have been infected by a neighbour and then stays (I, 0). */
  lemma {:induction false} PassNotListed(w: Grid, ks: seq<Coord>, q: Coord, rolls: Rolls, k: nat)
    requires forall p :: p in ks ==> p in w
    requires q in w && q !in ks
    ensures Pass(w, ks, rolls, k).0[q] == w[q] ||
            (w[q].state == S && Pass(w, ks, rolls, k).0[q] == CellState(I, 0))
    decreases |ks|
  {
    if ks != [] {
      var ks' := ks[..|ks| - 1];
      assert forall p :: p in ks' ==> p in ks;
      PassNotListed(w, ks', q, rolls, k);
    }
  }

  /** Cutting a repetition-free sequence around position `j`: `s[j]` occurs neither
      before nor after it. */
  lemma SplitAround<T>(s: seq<T>, j: nat)
    requires j < |s|
    requires forall a, b :: 0 <= a < b < |s| ==> s[a] != s[b]
    ensures s == s[..j + 1] + s[j + 1..] && s[..j + 1][..j] == s[..j]
    ensures forall x :: x in s[..j] ==> x in s
    ensures s[j] !in s[..j] && s[j] !in s[j + 1..]
  {
    forall i | 0 <= i < j ensures s[..j][i] != s[j] {
      assert s[..j][i] == s[i];
    }
    var tail := s[j + 1..];
    forall i | 0 <= i < |tail| ensures tail[i] != s[j] {
      assert tail[i] == s[j + 1 + i];
    }
  }

  /** The cascade: a cell that is (I, 0) when its turn comes, because a neighbour processed
      earlier in the same pass infected it, ages to time 1, survives or dies on its own
      death draw, and keeps that outcome to the end of the pass. */
  lemma PassCascade(w: Grid, ks: seq<Coord>, j: nat, rolls: Rolls, k: nat)
    requires forall p :: p in ks ==> p in w
    requires forall a, b :: 0 <= a < b < |ks| ==> ks[a] != ks[b]
    requires j < |ks| && Pass(w, ks[..j], rolls, k).0[ks[j]] == CellState(I, 0)
    ensures Pass(w, ks, rolls, k).0[ks[j]].time == 1
    ensures Pass(w, ks, rolls, k).0[ks[j]].state in {I, R}
  {
    var q := ks[j];
    var head, tail := ks[..j + 1], ks[j + 1..];
    SplitAround(ks, j);
    var (wh, kh) := Pass(w, head, rolls, k);
    assert wh[q] == Age(CellState(I, 0), rolls, Pass(w, ks[..j], rolls, k).1).0;
    PassAppend(w, head, tail, rolls, k);
    PassNotListed(wh, tail, q, rolls, kh);
  }

  /** Every coordinate of a repetition-free pass is processed exactly once: its time grows
      by exactly one, unless it was infected by a neighbour before its turn (then it ends
      at time 1) or after its turn (then it ends as (I, 0)). */
  lemma PassTimes(w: Grid, ks: seq<Coord>, j: nat, rolls: Rolls, k: nat)
    requires forall p :: p in ks ==> p in w
    requires forall a, b :: 0 <= a < b < |ks| ==> ks[a] != ks[b]
    requires j < |ks|
    ensures var (q, r) := (ks[j], Pass(w, ks, rolls, k).0);
            || r[q].time == w[q].time + 1
            || (w[q].state == S && r[q].time == 1)
            || r[q] == CellState(I, 0)
  {
    var q := ks[j];
    var head, tail := ks[..j + 1], ks[j + 1..];
    SplitAround(ks, j);
    PassNotListed(w, ks[..j], q, rolls, k);
    var (wh, kh) := Pass(w, head, rolls, k);
    PassAppend(w, head, tail, rolls, k);
    PassNotListed(wh, tail, q, rolls, kh);
  }

  /** A map with no infected cell stays without one through a pass, and the pass draws
      nothing: susceptible and resistant cells neither roll for death nor spread. */
  lemma {:induction false} PassQuiet(w: Grid, ks: seq<Coord>, rolls: Rolls, k: nat)
    requires forall p :: p in ks ==> p in w
    requires forall q :: q in w ==> w[q].state != I
    ensures Pass(w, ks, rolls, k).1 == k
    ensures forall q :: q in w ==> Pass(w, ks, rolls, k).0[q].state != I
    decreases |ks|
  {
    if ks != [] {
      var ks' := ks[..|ks| - 1];
      assert forall p :: p in ks' ==> p in ks;
      PassQuiet(w, ks', rolls, k);
    }
  }
}
