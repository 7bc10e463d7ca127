/** One tick of the simulation (src/logic.py): the greedy mover, the pass
    decision on a sanitised board, the defenders' slide to the right, the
    whole-board update and the end-of-game test. */
module Logic {
  import opened Utils
  import opened AStar

  // ------------------------------------------------------------- players

  /** `find_players`: attackers, defenders and the ball carrier, each listed
      in row-major order. */
  method FindPlayers(g: Grid) returns (players: map<char, seq<Pos>>)
    ensures players.Keys == {Attacker, Defender, BallCarrier}
    ensures forall s :: s in players ==> players[s] == Scan(g, s)
  {
    players := FindAllPositions(g, [Attacker, Defender, BallCarrier]);
  }

  // --------------------------------------------------- the greedy mover

  /** A cell a mover may enter: empty on the board and not claimed yet. */
  predicate Free(g: Grid, occ: set<Pos>, q: Pos) {
    Holds(g, q, Empty) && q !in occ
  }

  /** Among the first `n` candidates, the index of the first free one at the
      least distance from `t` (a later one replaces it only when strictly
      nearer), or None when none is free. */
  function BestAmong(ns: seq<Pos>, n: nat, g: Grid, occ: set<Pos>, t: Pos): (r: Option<nat>)
    requires n <= |ns|
    ensures r.Some? ==> r.value < n
  {
    if n == 0 then None
    else
      var r := BestAmong(ns, n - 1, g, occ, t);
      if Free(g, occ, ns[n - 1]) && (r.None? || Manhattan(ns[n - 1], t) < Manhattan(ns[r.value], t))
      then Some(n - 1)
      else r
  }

  lemma {:induction false} BestAmongSpec(ns: seq<Pos>, n: nat, g: Grid, occ: set<Pos>, t: Pos)
    requires n <= |ns|
    ensures BestAmong(ns, n, g, occ, t).None? <==> forall i :: 0 <= i < n ==> !Free(g, occ, ns[i])
    ensures BestAmong(ns, n, g, occ, t).Some? ==>
      var k := BestAmong(ns, n, g, occ, t).value;
      && Free(g, occ, ns[k])
      && (forall i :: 0 <= i < n && Free(g, occ, ns[i]) ==> Manhattan(ns[k], t) <= Manhattan(ns[i], t))
      && (forall i :: 0 <= i < k && Free(g, occ, ns[i]) ==> Manhattan(ns[k], t) < Manhattan(ns[i], t))
  {
    if n > 0 {
      BestAmongSpec(ns, n - 1, g, occ, t);
    }
  }

  /** One step of `move_player_towards_target`: the neighbour to enter, if any. */
  function GreedyStep(g: Grid, occ: set<Pos>, p: Pos, t: Pos): Option<Pos> {
    var ns := NeighborsUpTo(g, p, 4);
    var r := BestAmong(ns, |ns|, g, occ, t);
    if r.Some? then Some(ns[r.value]) else None
  }

  /** A step enters a free cell one orthogonal move away. */
  lemma GreedyStepMoves(g: Grid, occ: set<Pos>, p: Pos, t: Pos)
    ensures GreedyStep(g, occ, p, t).Some? ==>
      var q := GreedyStep(g, occ, p, t).value;
      InBounds(g, q) && Manhattan(p, q) == 1 && Free(g, occ, q)
  {
    var ns := NeighborsUpTo(g, p, 4);
    NeighborsUpToSpec(g, p, 4);
    BestAmongSpec(ns, |ns|, g, occ, t);
    var r := BestAmong(ns, |ns|, g, occ, t);
    if r.Some? {
      assert ns[r.value] in ns;
    }
  }

  /** The step is taken exactly when some adjacent cell is free; it enters a
      free adjacent cell whose distance to the target is least, and among
      equally near ones the first in the order east, west, south, north,
      whether or not that brings the mover closer. */
  lemma GreedyStepSpec(g: Grid, occ: set<Pos>, p: Pos, t: Pos)
    ensures GreedyStep(g, occ, p, t).None? <==>
      forall q :: InBounds(g, q) && Manhattan(p, q) == 1 ==> !Free(g, occ, q)
    ensures GreedyStep(g, occ, p, t).Some? ==>
      var q := GreedyStep(g, occ, p, t).value;
      && InBounds(g, q) && Manhattan(p, q) == 1 && Free(g, occ, q)
      && forall q' :: InBounds(g, q') && Manhattan(p, q') == 1 && Free(g, occ, q') ==>
           Manhattan(q, t) <= Manhattan(q', t) &&
           (DirectionOf(p, q') < DirectionOf(p, q) ==> Manhattan(q, t) < Manhattan(q', t))
  {
    GreedyStepMoves(g, occ, p, t);
    GreedyStepStuck(g, occ, p, t);
    GreedyStepChoice(g, occ, p, t);
  }

  lemma GreedyStepStuck(g: Grid, occ: set<Pos>, p: Pos, t: Pos)
    ensures GreedyStep(g, occ, p, t).None? <==>
      forall q :: InBounds(g, q) && Manhattan(p, q) == 1 ==> !Free(g, occ, q)
  {
    var ns := NeighborsUpTo(g, p, 4);
    BestAmongSpec(ns, |ns|, g, occ, t);
    if BestAmong(ns, |ns|, g, occ, t).None? {
      forall q | InBounds(g, q) && Manhattan(p, q) == 1 ensures !Free(g, occ, q) {
        var i := NeighborAt(g, p, q);
      }
    } else {
      NeighborsUpToSpec(g, p, 4);
    }
  }

  lemma GreedyStepChoice(g: Grid, occ: set<Pos>, p: Pos, t: Pos)
    ensures GreedyStep(g, occ, p, t).Some? ==>
      var q := GreedyStep(g, occ, p, t).value;
      forall q' :: InBounds(g, q') && Manhattan(p, q') == 1 && Free(g, occ, q') ==>
        Manhattan(q, t) <= Manhattan(q', t) &&
        (DirectionOf(p, q') < DirectionOf(p, q) ==> Manhattan(q, t) < Manhattan(q', t))
  {
    var ns := NeighborsUpTo(g, p, 4);
    BestAmongSpec(ns, |ns|, g, occ, t);
    var r := BestAmong(ns, |ns|, g, occ, t);
    if r.Some? {
      var k := r.value;
      forall q' | InBounds(g, q') && Manhattan(p, q') == 1 && Free(g, occ, q')
        ensures Manhattan(ns[k], t) <= Manhattan(q', t)
        ensures DirectionOf(p, q') < DirectionOf(p, ns[k]) ==> Manhattan(ns[k], t) < Manhattan(q', t)
      {
        var i := NeighborAt(g, p, q');
        if DirectionOf(p, q') < DirectionOf(p, ns[k]) {
          NeighborOrder(g, p, i, k);
        }
      }
    }
  }

  /** `move_player_towards_target` as a value: up to `steps` greedy steps,
      each claiming the entered cell; the final position and claimed set. */
  function GreedyWalk(g: Grid, occ: set<Pos>, p: Pos, t: Pos, steps: int): (Pos, set<Pos>)
    decreases steps
  {
    if steps <= 0 then (p, occ)
    else
      match GreedyStep(g, occ, p, t)
      case None => (p, occ)
      case Some(q) => GreedyWalk(g, occ + {q}, q, t, steps - 1)
  }

  /** The cells a greedy walk enters, in order. */
  function GreedyTrail(g: Grid, occ: set<Pos>, p: Pos, t: Pos, steps: int): seq<Pos>
    decreases steps
  {
    if steps <= 0 then []
    else
      match GreedyStep(g, occ, p, t)
      case None => []
      case Some(q) => [q] + GreedyTrail(g, occ + {q}, q, t, steps - 1)
  }

  /** The positions listed in `s`. */
  function Elems(s: seq<Pos>): set<Pos> {
    set x | x in s
  }

  /** A trail of moves from `p`: each entered cell is empty on the board,
      was not claimed before and is entered once, and each move is one
      orthogonal step. */
  predicate TrailOk(g: Grid, occ: set<Pos>, p: Pos, tr: seq<Pos>) {
    && (forall k :: 0 <= k < |tr| ==> Holds(g, tr[k], Empty) && tr[k] !in occ)
    && (forall a, b :: 0 <= a < b < |tr| ==> tr[a] != tr[b])
    && (|tr| > 0 ==> Manhattan(p, tr[0]) == 1)
    && (forall k :: 0 < k < |tr| ==> Manhattan(tr[k - 1], tr[k]) == 1)
  }

  lemma TrailCons(g: Grid, occ: set<Pos>, p: Pos, q: Pos, rest: seq<Pos>)
    requires Free(g, occ, q) && Manhattan(p, q) == 1
    requires TrailOk(g, occ + {q}, q, rest)
    ensures TrailOk(g, occ, p, [q] + rest)
  {
    var tr := [q] + rest;
    forall k | 0 < k < |tr| ensures tr[k] != q && tr[k] == rest[k - 1] {
      assert rest[k - 1] !in occ + {q};
    }
  }

  /** The walk makes at most `steps` moves and its trail is a trail of moves
      into free cells. */
  lemma {:induction false} GreedyTrailMoves(g: Grid, occ: set<Pos>, p: Pos, t: Pos, steps: int)
    ensures |GreedyTrail(g, occ, p, t, steps)| <= Max(steps, 0)
    ensures TrailOk(g, occ, p, GreedyTrail(g, occ, p, t, steps))
    decreases steps
  {
    if steps > 0 {
      GreedyStepMoves(g, occ, p, t);
      var step := GreedyStep(g, occ, p, t);
      if step.Some? {
        var q := step.value;
        GreedyTrailMoves(g, occ + {q}, q, t, steps - 1);
        var rest := GreedyTrail(g, occ + {q}, q, t, steps - 1);
        assert GreedyTrail(g, occ, p, t, steps) == [q] + rest;
        TrailCons(g, occ, p, q, rest);
      }
    }
  }

  /** The claimed set grows by exactly the entered cells, the mover ends on
      its start or on the last cell it entered (one it claimed), and it stops
      before `steps` moves only when no adjacent cell is free. */
  lemma {:induction false} GreedyWalkEnd(g: Grid, occ: set<Pos>, p: Pos, t: Pos, steps: int)
    ensures GreedyWalk(g, occ, p, t, steps).1 == occ + Elems(GreedyTrail(g, occ, p, t, steps))
    ensures GreedyWalk(g, occ, p, t, steps).0 ==
      var tr := GreedyTrail(g, occ, p, t, steps);
      if tr == [] then p else tr[|tr| - 1]
    ensures |GreedyTrail(g, occ, p, t, steps)| < steps ==>
      GreedyStep(g, GreedyWalk(g, occ, p, t, steps).1, GreedyWalk(g, occ, p, t, steps).0, t).None?
    decreases steps
  {
    if steps > 0 {
      var step := GreedyStep(g, occ, p, t);
      if step.Some? {
        var q := step.value;
        GreedyWalkEnd(g, occ + {q}, q, t, steps - 1);
        var rest := GreedyTrail(g, occ + {q}, q, t, steps - 1);
        assert GreedyTrail(g, occ, p, t, steps) == [q] + rest;
        assert Elems([q] + rest) == {q} + Elems(rest);
      }
    }
  }

  /** The returned position is the start or a cell the walk newly claimed. */
  lemma GreedyWalkLands(g: Grid, occ: set<Pos>, p: Pos, t: Pos, steps: int)
    ensures var (pos, occ') := GreedyWalk(g, occ, p, t, steps);
      pos == p || (pos in occ' && pos !in occ)
  {
    GreedyTrailMoves(g, occ, p, t, steps);
    GreedyWalkEnd(g, occ, p, t, steps);
    var tr := GreedyTrail(g, occ, p, t, steps);
    if tr != [] {
      assert tr[|tr| - 1] in Elems(tr);
    }
  }

  /** The position a trail's `k`-th move starts from. */
  function Prev(p: Pos, tr: seq<Pos>, k: nat): Pos
    requires k <= |tr|
  {
    if k == 0 then p else tr[k - 1]
  }

  /** Each entered cell is the greedy step from the cell before it, given
      the cells claimed before it. */
  predicate GreedyMoves(g: Grid, occ: set<Pos>, p: Pos, t: Pos, tr: seq<Pos>) {
    forall k {:trigger Elems(tr[..k])} :: 0 <= k < |tr| ==>
      GreedyStep(g, occ + Elems(tr[..k]), Prev(p, tr, k), t) == Some(tr[k])
  }

  lemma GreedyMovesCons(g: Grid, occ: set<Pos>, p: Pos, t: Pos, q: Pos, rest: seq<Pos>)
    requires GreedyStep(g, occ, p, t) == Some(q)
    requires GreedyMoves(g, occ + {q}, q, t, rest)
    ensures GreedyMoves(g, occ, p, t, [q] + rest)
  {
    var tr := [q] + rest;
    forall k | 0 <= k < |tr|
      ensures GreedyStep(g, occ + Elems(tr[..k]), Prev(p, tr, k), t) == Some(tr[k])
    {
      if k == 0 {
        assert Elems(tr[..0]) == {};
        assert occ + Elems(tr[..0]) == occ;
      } else {
        var j := k - 1;
        assert GreedyStep(g, occ + {q} + Elems(rest[..j]), Prev(q, rest, j), t) == Some(rest[j]);
        assert tr[..k] == [q] + rest[..j];
        assert Elems([q] + rest[..j]) == {q} + Elems(rest[..j]);
        assert occ + Elems(tr[..k]) == occ + {q} + Elems(rest[..j]);
        assert Prev(p, tr, k) == Prev(q, rest, j);
      }
    }
  }

  lemma {:induction false} GreedyTrailSteps(g: Grid, occ: set<Pos>, p: Pos, t: Pos, steps: int)
    ensures GreedyMoves(g, occ, p, t, GreedyTrail(g, occ, p, t, steps))
    decreases steps
  {
    if steps > 0 {
      var step := GreedyStep(g, occ, p, t);
      if step.Some? {
        var q := step.value;
        GreedyTrailSteps(g, occ + {q}, q, t, steps - 1);
        var rest := GreedyTrail(g, occ + {q}, q, t, steps - 1);
        assert GreedyTrail(g, occ, p, t, steps) == [q] + rest;
        GreedyMovesCons(g, occ, p, t, q, rest);
      }
    }
  }

  /** The inner loop of `move_player_towards_target` over a list of
      in-bounds cells: keep the first free one at the strictly least
      distance to the target. */
  method NearestFree(ns: seq<Pos>, targetPos: Pos, g: Grid, occ: set<Pos>) returns (best: Option<Pos>)
    requires Rect(g) && forall q :: q in ns ==> InBounds(g, q)
    ensures var r := BestAmong(ns, |ns|, g, occ, targetPos);
      best == if r.Some? then Some(ns[r.value]) else None
  {
    best := None;
    var bestDistance: Cost := Inf;
    for i := 0 to |ns|
      invariant var r := BestAmong(ns, i, g, occ, targetPos);
        best == if r.Some? then Some(ns[r.value]) else None
      invariant best.Some? ==> bestDistance == Finite(Manhattan(best.value, targetPos))
      invariant best.None? ==> bestDistance == Inf
    {
      var q := ns[i];
      assert q in ns;
      if g[q.row][q.col] == Empty && q !in occ {
        var dist := Manhattan(q, targetPos);
        if bestDistance.Inf? || dist < bestDistance.n {
          best := Some(q);
          bestDistance := Finite(dist);
        }
      }
    }
  }

  /** One step of `move_player_towards_target`: the neighbours in order,
      then the first free one at the strictly least distance. */
  method ChooseStep(pos: Pos, targetPos: Pos, g: Grid, occ: set<Pos>) returns (best: Option<Pos>)
    requires Rect(g)
    ensures best == GreedyStep(g, occ, pos, targetPos)
  {
    var neighbors := GetValidNeighbors(pos, g);
    best := NearestFree(neighbors, targetPos, g, occ);
  }

  /** `move_player_towards_target`: the mover and the shared claimed set
      after the greedy walk. */
  method MovePlayerTowardsTarget(playerPos: Pos, targetPos: Pos, g: Grid, occ: set<Pos>, steps: int)
    returns (pos: Pos, occ': set<Pos>)
    requires Rect(g)
    ensures (pos, occ') == GreedyWalk(g, occ, playerPos, targetPos, steps)
  {
    pos, occ' := playerPos, occ;
    var k := 0;
    while k < steps
      invariant GreedyWalk(g, occ', pos, targetPos, steps - k) == GreedyWalk(g, occ, playerPos, targetPos, steps)
      decreases steps - k
    {
      var best := ChooseStep(pos, targetPos, g, occ');
      if best.None? {
        break;
      }
      occ' := occ' + {best.value};
      pos := best.value;
      k := k + 1;
    }
  }

  // ------------------------------------------------------------ cost maps

  /** A dict from positions to search costs, in insertion order. */
  type CostMap = seq<(Pos, Cost)>

  function KeySeq(m: CostMap): (ks: seq<Pos>)
    ensures |ks| == |m| && forall i :: 0 <= i < |m| ==> ks[i] == m[i].0
  {
    seq(|m|, i requires 0 <= i < |m| => m[i].0)
  }

  predicate UniqueKeys(m: CostMap) {
    forall i, j :: 0 <= i < j < |m| ==> m[i].0 != m[j].0
  }

  /** The index of key `k` at or after `i`, if any. */
  function FindFrom(m: CostMap, k: Pos, i: nat): (r: Option<nat>)
    ensures r.Some? ==> i <= r.value < |m| && m[r.value].0 == k
    ensures r.None? ==> forall j :: i <= j < |m| ==> m[j].0 != k
    decreases |m| - i
  {
    if i >= |m| then None
    else if m[i].0 == k then Some(i)
    else FindFrom(m, k, i + 1)
  }

  /** `costs[k] = v`: overwrite in place if present, else append. */
  function Put(m: CostMap, k: Pos, v: Cost): CostMap {
    match FindFrom(m, k, 0)
    case Some(i) => m[i := (k, v)]
    case None => m + [(k, v)]
  }

  /** `costs.get(k, float("inf"))`. */
  function GetCost(m: CostMap, k: Pos): Cost {
    match FindFrom(m, k, 0)
    case Some(i) => m[i].1
    case None => Inf
  }

  /** With unique keys, a lookup finds the value stored under the key, and
      infinity for a key that is absent. */
  lemma GetCostSpec(m: CostMap, k: Pos)
    requires UniqueKeys(m)
    ensures forall i :: 0 <= i < |m| && m[i].0 == k ==> GetCost(m, k) == m[i].1
    ensures k !in KeySeq(m) ==> GetCost(m, k) == Inf
  {
    if k !in KeySeq(m) {
      assert FindFrom(m, k, 0).None?;
    }
  }

  /** A dict store keeps keys unique and in first-insertion order, maps `k`
      to `v`, leaves every other key's value alone, and otherwise keeps the
      old entries. */
  lemma PutSpec(m: CostMap, k: Pos, v: Cost)
    requires UniqueKeys(m)
    ensures UniqueKeys(Put(m, k, v))
    ensures KeySeq(Put(m, k, v)) == if k in KeySeq(m) then KeySeq(m) else KeySeq(m) + [k]
    ensures GetCost(Put(m, k, v), k) == v
    ensures forall k' :: k' != k ==> GetCost(Put(m, k, v), k') == GetCost(m, k')
    ensures forall j :: 0 <= j < |Put(m, k, v)| ==> Put(m, k, v)[j] == (k, v) || (j < |m| && Put(m, k, v)[j] == m[j])
  {
    var m' := Put(m, k, v);
    var r := FindFrom(m, k, 0);
    var idx := if r.Some? then r.value else |m|;
    if r.Some? {
      assert k in KeySeq(m);
      assert KeySeq(m') == KeySeq(m);
    } else {
      assert k !in KeySeq(m);
      assert KeySeq(m') == KeySeq(m) + [k];
    }
    assert m'[idx] == (k, v);
    GetCostSpec(m', k);
    forall k' | k' != k ensures GetCost(m', k') == GetCost(m, k') {
      GetCostSpec(m, k');
      GetCostSpec(m', k');
      if k' in KeySeq(m) {
        var j :| 0 <= j < |m| && m[j].0 == k';
        assert m'[j] == m[j];
      } else {
        assert k' !in KeySeq(m');
      }
    }
  }

  /** Every entry of `m` is a cost the search could return for its key. */
  ghost predicate SearchCosts(g: Grid, ring: Pos, m: CostMap)
    requires Rect(g) && InBounds(g, ring)
  {
    forall i :: 0 <= i < |m| ==> SearchCost(g, m[i].0, ring, m[i].1)
  }

  lemma PutSearchCost(g: Grid, ring: Pos, m: CostMap, k: Pos, v: Cost)
    requires Rect(g) && InBounds(g, ring) && UniqueKeys(m)
    requires SearchCosts(g, ring, m) && SearchCost(g, k, ring, v)
    ensures SearchCosts(g, ring, Put(m, k, v))
  {
    PutSpec(m, k, v);
  }

  /** The distinct elements of `s[..n]` in order of first occurrence: the
      keys of a dict filled from `s[..n]`. */
  function Dedup(s: seq<Pos>, n: nat): seq<Pos>
    requires n <= |s|
  {
    if n == 0 then []
    else
      var d := Dedup(s, n - 1);
      if s[n - 1] in d then d else d + [s[n - 1]]
  }

  lemma {:induction false} DedupSpec(s: seq<Pos>, n: nat)
    requires n <= |s|
    ensures forall x :: x in Dedup(s, n) <==> exists i :: 0 <= i < n && s[i] == x
    ensures forall a, b :: 0 <= a < b < |Dedup(s, n)| ==> Dedup(s, n)[a] != Dedup(s, n)[b]
  {
    if n > 0 {
      DedupSpec(s, n - 1);
    }
  }

  /** Filling the dict from a longer prefix only appends keys. */
  lemma {:induction false} DedupPrefix(s: seq<Pos>, m: nat, n: nat)
    requires m <= n <= |s|
    ensures Dedup(s, m) <= Dedup(s, n)
    decreases n - m
  {
    if m < n {
      DedupPrefix(s, m, n - 1);
    }
  }

  /** The keys come in order of first occurrence: a key listed before
      another occurs in `s[..n]` before every occurrence of the other. */
  lemma DedupOrder(s: seq<Pos>, n: nat)
    requires n <= |s|
    ensures forall a, b, j :: 0 <= a < b < |Dedup(s, n)| && 0 <= j < n && s[j] == Dedup(s, n)[b] ==>
      Dedup(s, n)[a] in s[..j]
  {
    forall a, b, j | 0 <= a < b < |Dedup(s, n)| && 0 <= j < n && s[j] == Dedup(s, n)[b] {
      DedupOrderAt(s, n, a, b, j);
    }
  }

  lemma {:induction false} DedupOrderAt(s: seq<Pos>, n: nat, a: nat, b: nat, j: nat)
    requires n <= |s| && a < b < |Dedup(s, n)| && j < n && s[j] == Dedup(s, n)[b]
    ensures Dedup(s, n)[a] in s[..j]
  {
    var d := Dedup(s, n - 1);
    DedupSpec(s, n - 1);
    if s[n - 1] in d {
      if j < n - 1 {
        DedupOrderAt(s, n - 1, a, b, j);
      } else {
        var j' :| 0 <= j' < n - 1 && s[j'] == d[b];
        DedupOrderAt(s, n - 1, a, b, j');
        var i :| 0 <= i < j' && s[..j'][i] == d[a];
        assert s[..j][i] == d[a];
      }
    } else if b < |d| {
      assert d[b] in d;
      DedupOrderAt(s, n - 1, a, b, j);
    } else {
      assert d[a] in d;
      var i :| 0 <= i < n - 1 && s[i] == d[a];
      assert s[..j][i] == d[a];
    }
  }

  // ------------------------------------------------ attacker search costs

  /** `_, cost = astar_pathfinding(start, ring, grid)`: only the cost is
      kept, and it is a cost the search could return. */
  method SearchCostFrom(start: Pos, ring: Pos, g: Grid) returns (cost: Cost)
    requires Rect(g) && InBounds(g, start) && InBounds(g, ring)
    ensures SearchCost(g, start, ring, cost)
  {
    var path;
    path, cost := AStarPathfinding(start, ring, g);
    ResultCost(g, start, ring, path, cost);
  }

  /** `calculate_all_attacker_costs`: no ring gives the empty dict; otherwise
      one entry per distinct attacker position, in first-occurrence order,
      holding a cost the search could return for that attacker. */
  method CalculateAllAttackerCosts(attackers: seq<Pos>, g: Grid) returns (costs: CostMap)
    requires Rect(g)
    requires forall a :: a in attackers ==> InBounds(g, a)
    ensures TargetRing(g).None? ==> costs == []
    ensures TargetRing(g).Some? ==>
      && InBounds(g, TargetRing(g).value)
      && UniqueKeys(costs)
      && KeySeq(costs) == Dedup(attackers, |attackers|)
      && SearchCosts(g, TargetRing(g).value, costs)
  {
    var target := TargetRing(g);
    if target.None? {
      return [];
    }
    var ring := target.value;
    costs := [];
    for i := 0 to |attackers|
      invariant UniqueKeys(costs) && KeySeq(costs) == Dedup(attackers, i)
      invariant SearchCosts(g, ring, costs)
    {
      var attacker := attackers[i];
      var cost := SearchCostFrom(attacker, ring, g);
      PutSearchCost(g, ring, costs, attacker, cost);
      PutSpec(costs, attacker, cost);
      costs := Put(costs, attacker, cost);
    }
  }

  // ------------------------------------------------------ the pass option

  /** Python's `<` between costs, with infinity above every number. */
  predicate CostLess(a: Cost, b: Cost) {
    a.Finite? && (b.Inf? || a.n < b.n)
  }

  /** The index of the first least cost among the first `n` entries. */
  function MinUpTo(m: CostMap, n: nat): (k: nat)
    requires 0 < n <= |m|
    ensures k < n
  {
    if n == 1 then 0
    else
      var k := MinUpTo(m, n - 1);
      if CostLess(m[n - 1].1, m[k].1) then n - 1 else k
  }

  lemma {:induction false} MinUpToSpec(m: CostMap, n: nat)
    requires 0 < n <= |m|
    ensures forall j :: 0 <= j < n ==> !CostLess(m[j].1, m[MinUpTo(m, n)].1)
    ensures forall j :: 0 <= j < MinUpTo(m, n) ==> CostLess(m[MinUpTo(m, n)].1, m[j].1)
  {
    if n > 1 {
      MinUpToSpec(m, n - 1);
    }
  }

  /** `min(costs.keys(), key=lambda pos: costs[pos])`: the entry of least
      cost, the first inserted among equal ones. */
  function MinCostIndex(m: CostMap): (k: nat)
    requires |m| > 0
    ensures k < |m|
    ensures forall j :: 0 <= j < |m| ==> !CostLess(m[j].1, m[k].1)
    ensures forall j :: 0 <= j < k ==> CostLess(m[k].1, m[j].1)
  {
    MinUpToSpec(m, |m|);
    MinUpTo(m, |m|)
  }

  /** The search reports infinity only where no path exists, so as soon as
      one attacker can reach the ring, the entry `min` picks has a finite
      cost and a path of that length. */
  lemma MinCostReachable(g: Grid, ring: Pos, m: CostMap, i: nat, path: seq<Pos>)
    requires Rect(g) && InBounds(g, ring) && SearchCosts(g, ring, m)
    requires i < |m| && ValidPath(g, m[i].0, ring, path)
    ensures m[MinCostIndex(m)].1.Finite?
    ensures exists q :: ValidPath(g, m[MinCostIndex(m)].0, ring, q) && |q| == m[MinCostIndex(m)].1.n + 1
  {
    assert SearchCost(g, m[i].0, ring, m[i].1);
    var k := MinCostIndex(m);
    assert !CostLess(m[i].1, m[k].1);
    assert SearchCost(g, m[k].0, ring, m[k].1);
  }

  /** `pass_decision`, without its text. Costs shown in a decision carry the
      current tick. */
  datatype Decision =
    | NoDecision                      // the initial empty text
    | NoTargetRing                    // "No target ring found"
    | NoValidCosts                    // "No valid costs calculated"
    | KeepBall(cost: Cost)            // "Keep ball (best option: cost ...)"
    | PassTo(teammate: Pos, cost: Cost)  // "Pass to (r, c) (cost: ...)"

  /** `cost + current_tick`; infinity stays infinite. */
  function WithTick(c: Cost, tick: nat): Cost {
    match c
    case Finite(n) => Finite(n + tick)
    case Inf => Inf
  }

  /** `moved_positions.get(p, p)`. */
  function MovedTo(moved: map<Pos, Pos>, p: Pos): Pos {
    if p in moved then moved[p] else p
  }

  /** The attackers' positions after their moves, in attacker order. */
  function MovedSeq(attackers: seq<Pos>, moved: map<Pos, Pos>): (ms: seq<Pos>)
    ensures |ms| == |attackers| && forall i :: 0 <= i < |ms| ==> ms[i] == MovedTo(moved, attackers[i])
  {
    seq(|attackers|, i requires 0 <= i < |attackers| => MovedTo(moved, attackers[i]))
  }

  /** Attacker and ball-carrier cells are cleared; all others keep their symbol. */
  function Cleared(c: char): char {
    if c == Attacker || c == BallCarrier then Empty else c
  }

  /** The copy of the board with every `A` and `B` cleared. */
  function ClearAttackers(g: Grid): (t: Grid)
    requires Rect(g)
    ensures SameShape(t, g)
    ensures forall p :: InBounds(g, p) ==> At(t, p) == Cleared(At(g, p))
  {
    seq(|g|, i requires 0 <= i < |g| => seq(|g[i]|, j requires 0 <= j < |g[i]| => Cleared(g[i][j])))
  }

  /** The mark for a re-placed attacker: `B` on the ball carrier's new cell. */
  function Mark(p: Pos, carrier: Pos): char {
    if p == carrier then BallCarrier else Attacker
  }

  /** The cells the first `n` attackers moved to. */
  function MovedSet(attackers: seq<Pos>, n: nat, moved: map<Pos, Pos>): set<Pos>
    requires n <= |attackers|
  {
    set i | 0 <= i < n :: MovedTo(moved, attackers[i])
  }

  /** Re-placing the first `n` attackers, each only onto a cell still `.`. */
  function PlaceMoved(t: Grid, attackers: seq<Pos>, n: nat, moved: map<Pos, Pos>, carrier: Pos): (r: Grid)
    requires Rect(t) && n <= |attackers|
    requires forall a :: a in attackers ==> InBounds(t, MovedTo(moved, a))
    ensures SameShape(r, t)
  {
    if n == 0 then t
    else
      var r := PlaceMoved(t, attackers, n - 1, moved, carrier);
      var p := MovedTo(moved, attackers[n - 1]);
      assert attackers[n - 1] in attackers;
      if At(r, p) == Empty then SetCell(r, p, Mark(p, carrier)) else r
  }

  /** A cell ends up marked exactly when it was `.` and some attacker moved
      onto it; every other cell keeps its symbol. */
  lemma {:induction false} PlaceMovedSpec(t: Grid, attackers: seq<Pos>, n: nat, moved: map<Pos, Pos>, carrier: Pos)
    requires Rect(t) && n <= |attackers|
    requires forall a :: a in attackers ==> InBounds(t, MovedTo(moved, a))
    ensures forall p :: InBounds(t, p) ==>
      At(PlaceMoved(t, attackers, n, moved, carrier), p) ==
        if At(t, p) == Empty && p in MovedSet(attackers, n, moved) then Mark(p, carrier) else At(t, p)
  {
    if n > 0 {
      PlaceMovedSpec(t, attackers, n - 1, moved, carrier);
      assert MovedSet(attackers, n, moved) == MovedSet(attackers, n - 1, moved) + {MovedTo(moved, attackers[n - 1])};
    }
  }

  /** `temp_grid` of `find_best_pass_option`: the board with the attackers
      cleared and then re-placed at their moved positions. */
  function SanitizedBoard(g: Grid, ballCarrier: Pos, attackers: seq<Pos>, moved: map<Pos, Pos>): (t: Grid)
    requires Rect(g)
    requires forall a :: a in attackers ==> InBounds(g, MovedTo(moved, a))
    ensures SameShape(t, g)
  {
    PlaceMoved(ClearAttackers(g), attackers, |attackers|, moved, MovedTo(moved, ballCarrier))
  }

  /** On the sanitised board, a cell holds `B` or `A` exactly when an
      attacker moved onto it and it held neither a ring, a defender nor any
      other symbol, with `B` on the ball carrier's new cell; every other cell
      is cleared of `A`/`B` and otherwise unchanged. */
  lemma SanitizedSpec(g: Grid, ballCarrier: Pos, attackers: seq<Pos>, moved: map<Pos, Pos>)
    requires Rect(g)
    requires forall a :: a in attackers ==> InBounds(g, MovedTo(moved, a))
    ensures forall p :: InBounds(g, p) ==>
      At(SanitizedBoard(g, ballCarrier, attackers, moved), p) ==
        if Cleared(At(g, p)) == Empty && p in MovedSet(attackers, |attackers|, moved)
        then Mark(p, MovedTo(moved, ballCarrier))
        else Cleared(At(g, p))
  {
    PlaceMovedSpec(ClearAttackers(g), attackers, |attackers|, moved, MovedTo(moved, ballCarrier));
  }

  /** The clearing loop of `find_best_pass_option`. */
  method ClearAttackerCells(g: Grid) returns (t: Grid)
    requires Rect(g)
    ensures t == ClearAttackers(g)
  {
    t := g;
    for i := 0 to |g|
      invariant SameShape(t, g)
      invariant forall p :: InBounds(g, p) ==> At(t, p) == if p.row < i then Cleared(At(g, p)) else At(g, p)
    {
      for j := 0 to |t[i]|
        invariant SameShape(t, g)
        invariant forall p :: InBounds(g, p) ==>
          At(t, p) == if p.row < i || (p.row == i && p.col < j) then Cleared(At(g, p)) else At(g, p)
      {
        if t[i][j] == Attacker || t[i][j] == BallCarrier {
          t := SetCell(t, Pos(i, j), Empty);
        }
      }
    }
    GridExt(t, ClearAttackers(g));
  }

  /** The re-placing loop of `find_best_pass_option`. */
  method PlaceMovedAttackers(t: Grid, attackers: seq<Pos>, moved: map<Pos, Pos>, carrier: Pos) returns (t': Grid)
    requires Rect(t)
    requires forall a :: a in attackers ==> InBounds(t, MovedTo(moved, a))
    ensures t' == PlaceMoved(t, attackers, |attackers|, moved, carrier)
  {
    t' := t;
    for i := 0 to |attackers|
      invariant t' == PlaceMoved(t, attackers, i, moved, carrier)
    {
      var newPos := MovedTo(moved, attackers[i]);
      assert attackers[i] in attackers;
      if t'[newPos.row][newPos.col] == Empty {
        t' := SetCell(t', newPos, if newPos == carrier then BallCarrier else Attacker);
      }
    }
  }

  /** The cost loop of `find_best_pass_option`: a search from every moved
      attacker to the ring, stored under the moved position. */
  method MovedCosts(attackers: seq<Pos>, moved: map<Pos, Pos>, ring: Pos, t: Grid) returns (costs: CostMap)
    requires Rect(t) && InBounds(t, ring)
    requires forall a :: a in attackers ==> InBounds(t, MovedTo(moved, a))
    ensures UniqueKeys(costs)
    ensures KeySeq(costs) == Dedup(MovedSeq(attackers, moved), |attackers|)
    ensures SearchCosts(t, ring, costs)
  {
    ghost var ms := MovedSeq(attackers, moved);
    costs := [];
    for i := 0 to |attackers|
      invariant UniqueKeys(costs) && KeySeq(costs) == Dedup(ms, i)
      invariant SearchCosts(t, ring, costs)
    {
      var newPos := MovedTo(moved, attackers[i]);
      assert attackers[i] in attackers;
      var cost := SearchCostFrom(newPos, ring, t);
      PutSearchCost(t, ring, costs, newPos, cost);
      PutSpec(costs, newPos, cost);
      costs := Put(costs, newPos, cost);
    }
  }

  /** `find_best_pass_option`. Without a ring: the carrier, no costs. Else
      the search runs from every moved attacker on the sanitised board; the
      cost keys are the moved positions in first-occurrence order; the best
      teammate is the first key of least cost, and the decision keeps the
      ball exactly when that key is the carrier's own moved position, showing
      the best cost plus the tick (the stored costs carry no tick). */
  method FindBestPassOption(ballCarrier: Pos, attackers: seq<Pos>, g: Grid, moved: map<Pos, Pos>, tick: nat)
    returns (best: Pos, costs: CostMap, decision: Decision)
    requires Rect(g)
    requires forall a :: a in attackers ==> InBounds(g, MovedTo(moved, a))
    ensures TargetRing(g).None? ==> best == ballCarrier && costs == [] && decision == NoTargetRing
    ensures TargetRing(g).Some? ==>
      var ring := TargetRing(g).value;
      var board := SanitizedBoard(g, ballCarrier, attackers, moved);
      && InBounds(g, ring)
      && UniqueKeys(costs)
      && KeySeq(costs) == Dedup(MovedSeq(attackers, moved), |attackers|)
      && SearchCosts(board, ring, costs)
      && (costs == [] ==> best == ballCarrier && decision == NoValidCosts)
      && (costs != [] ==>
            var k := MinCostIndex(costs);
            && best == costs[k].0
            && decision == if best == MovedTo(moved, ballCarrier)
                           then KeepBall(WithTick(costs[k].1, tick))
                           else PassTo(best, WithTick(costs[k].1, tick)))
  {
    var target := TargetRing(g);
    if target.None? {
      return ballCarrier, [], NoTargetRing;
    }
    var ring := target.value;
    var temp := ClearAttackerCells(g);
    temp := PlaceMovedAttackers(temp, attackers, moved, MovedTo(moved, ballCarrier));
    costs := MovedCosts(attackers, moved, ring, temp);
    if |costs| == 0 {
      return ballCarrier, [], NoValidCosts;
    }
    var k := MinCostIndex(costs);
    best := costs[k].0;
    var bestCostWithTick := WithTick(costs[k].1, tick);
    if best == MovedTo(moved, ballCarrier) {
      decision := KeepBall(bestCostWithTick);
    } else {
      decision := PassTo(best, bestCostWithTick);
    }
  }

  // ------------------------------------------------------------ defenders

  /** A defender at `p` may step one column right: the cell is inside the
      board's width, empty on the new board, and not where an earlier
      defender ended. */
  predicate CanSlide(ng: Grid, width: int, taken: set<Pos>, p: Pos) {
    p.col + 1 < width && Holds(ng, Pos(p.row, p.col + 1), Empty) && Pos(p.row, p.col + 1) !in taken
  }

  /** Up to `steps` steps right, stopping at the first one not allowed. */
  function Slide(ng: Grid, width: int, taken: set<Pos>, p: Pos, steps: nat): Pos
    decreases steps
  {
    if steps == 0 || !CanSlide(ng, width, taken, p) then p
    else Slide(ng, width, taken, Pos(p.row, p.col + 1), steps - 1)
  }

  /** A slide stays in its row and moves 0 to `steps` columns right; every
      cell it passes into is in range, empty on the new board and not taken;
      and it stops short only where the next step is not allowed. */
  lemma {:induction false} SlideSpec(ng: Grid, width: int, taken: set<Pos>, p: Pos, steps: nat)
    ensures Slide(ng, width, taken, p, steps).row == p.row
    ensures p.col <= Slide(ng, width, taken, p, steps).col <= p.col + steps
    ensures forall c :: p.col < c <= Slide(ng, width, taken, p, steps).col ==>
      c < width && Holds(ng, Pos(p.row, c), Empty) && Pos(p.row, c) !in taken
    ensures Slide(ng, width, taken, p, steps).col < p.col + steps ==>
      !CanSlide(ng, width, taken, Slide(ng, width, taken, p, steps))
    decreases steps
  {
    if steps > 0 && CanSlide(ng, width, taken, p) {
      SlideSpec(ng, width, taken, Pos(p.row, p.col + 1), steps - 1);
    }
  }

  /** `move_defenders` as a value: the first `n` defenders in order, each
      sliding up to two steps and barred from the cells earlier ones ended on. */
  function DefenderMoves(ds: seq<Pos>, ng: Grid, width: int, n: nat): map<Pos, Pos>
    requires n <= |ds|
  {
    if n == 0 then map[]
    else
      var m := DefenderMoves(ds, ng, width, n - 1);
      m[ds[n - 1] := Slide(ng, width, m.Values, ds[n - 1], 2)]
  }

  /** The processed defenders are exactly the keys. */
  lemma {:induction false} DefenderMovesKeys(ds: seq<Pos>, ng: Grid, width: int, n: nat)
    requires n <= |ds|
    ensures DefenderMoves(ds, ng, width, n).Keys == set i | 0 <= i < n :: ds[i]
  {
    if n > 0 {
      DefenderMovesKeys(ds, ng, width, n - 1);
      assert (set i | 0 <= i < n :: ds[i]) == (set i | 0 <= i < n - 1 :: ds[i]) + {ds[n - 1]};
    }
  }

  /** Later defenders never change the entry of a distinct earlier one. */
  lemma {:induction false} DefenderMovesFrame(ds: seq<Pos>, ng: Grid, width: int, n: nat, i: nat)
    requires i < n <= |ds|
    requires forall a, b :: 0 <= a < b < |ds| ==> ds[a] != ds[b]
    ensures ds[i] in DefenderMoves(ds, ng, width, n)
    ensures DefenderMoves(ds, ng, width, n)[ds[i]] == DefenderMoves(ds, ng, width, i + 1)[ds[i]]
  {
    if n > i + 1 {
      DefenderMovesFrame(ds, ng, width, n - 1, i);
      assert ds[i] != ds[n - 1];
    }
  }

  /** Each defender's entry is its slide against the cells the defenders
      before it ended on. */
  lemma DefenderMovesSpec(ds: seq<Pos>, ng: Grid, width: int, i: nat)
    requires i < |ds|
    requires forall a, b :: 0 <= a < b < |ds| ==> ds[a] != ds[b]
    ensures ds[i] in DefenderMoves(ds, ng, width, |ds|)
    ensures DefenderMoves(ds, ng, width, |ds|)[ds[i]] ==
      Slide(ng, width, DefenderMoves(ds, ng, width, i).Values, ds[i], 2)
  {
    DefenderMovesFrame(ds, ng, width, |ds|, i);
  }

  /** Every defender ends in its own row, 0 to 2 columns right of where it
      started, having stepped only onto cells inside the width that are
      empty on the new board. */
  lemma DefenderMovesBounds(ds: seq<Pos>, ng: Grid, width: int)
    requires forall i, j :: 0 <= i < j < |ds| ==> ds[i] != ds[j]
    ensures forall d :: d in DefenderMoves(ds, ng, width, |ds|) ==>
      var e := DefenderMoves(ds, ng, width, |ds|)[d];
      && e.row == d.row && d.col <= e.col <= d.col + 2
      && forall c :: d.col < c <= e.col ==> c < width && Holds(ng, Pos(d.row, c), Empty)
  {
    DefenderMovesKeys(ds, ng, width, |ds|);
    forall d | d in DefenderMoves(ds, ng, width, |ds|)
      ensures var e := DefenderMoves(ds, ng, width, |ds|)[d];
        && e.row == d.row && d.col <= e.col <= d.col + 2
        && forall c :: d.col < c <= e.col ==> c < width && Holds(ng, Pos(d.row, c), Empty)
    {
      var i :| 0 <= i < |ds| && ds[i] == d;
      DefenderMovesSpec(ds, ng, width, i);
      SlideSpec(ng, width, DefenderMoves(ds, ng, width, i).Values, d, 2);
    }
  }

  /** `move_defenders`: where each defender of `players["D"]` ends. */
  method MoveDefenders(players: map<char, seq<Pos>>, g: Grid, ng: Grid) returns (dm: map<Pos, Pos>)
    requires Defender in players
    requires SameShape(g, ng)
    requires forall d :: d in players[Defender] ==> InBounds(g, d)
    ensures dm == DefenderMoves(players[Defender], ng, Width(g), |players[Defender]|)
  {
    var ds := players[Defender];
    dm := map[];
    for k := 0 to |ds|
      invariant dm == DefenderMoves(ds, ng, Width(g), k)
    {
      var d := ds[k];
      assert d in ds;
      var current := d;
      for step := 0 to 2
        invariant current.row == d.row && d.col <= current.col < Width(g)
        invariant Slide(ng, Width(g), dm.Values, current, 2 - step) == Slide(ng, Width(g), dm.Values, d, 2)
      {
        var next := Pos(current.row, current.col + 1);
        if next.col < Width(g) && ng[next.row][next.col] == Empty && next !in dm.Values {
          current := next;
        } else {
          break;
        }
      }
      dm := dm[d := current];
    }
  }

  // ------------------------------------------------------ the tick update

  /** `new_grid` before anyone is placed: the board's shape, every cell `.`
      except the rings, which are copied. */
  function ResetBoard(g: Grid): (ng: Grid)
    requires Rect(g)
    ensures SameShape(ng, g)
    ensures forall p :: InBounds(g, p) ==> At(ng, p) == if At(g, p) == Ring then Ring else Empty
  {
    seq(|g|, i requires 0 <= i < |g| =>
      seq(Width(g), j requires 0 <= j < Width(g) => if g[i][j] == Ring then Ring else Empty))
  }

  /** The opening loops of `update_game_state`: a blank board, then the rings. */
  method NewBoard(g: Grid) returns (ng: Grid)
    requires Rect(g)
    ensures ng == ResetBoard(g)
  {
    ng := seq(|g|, i => seq(Width(g), j => Empty));
    for i := 0 to |g|
      invariant SameShape(ng, g)
      invariant forall p :: InBounds(g, p) ==> At(ng, p) == if p.row < i && At(g, p) == Ring then Ring else Empty
    {
      for j := 0 to |g[i]|
        invariant SameShape(ng, g)
        invariant forall p :: InBounds(g, p) ==>
          At(ng, p) == if (p.row < i || (p.row == i && p.col < j)) && At(g, p) == Ring then Ring else Empty
      {
        if g[i][j] == Ring {
          ng := SetCell(ng, Pos(i, j), Ring);
        }
      }
    }
    GridExt(ng, ResetBoard(g));
  }

  /** `all_attackers`: the attackers, then the ball carrier(s), row-major. */
  function AllAttackers(g: Grid): seq<Pos> {
    Scan(g, Attacker) + Scan(g, BallCarrier)
  }

  /** A greedy walk of `steps` moves ends within `steps` of its start, on
      its start or on a cell that is empty on the board. */
  lemma {:induction false} GreedyWalkNear(g: Grid, occ: set<Pos>, p: Pos, t: Pos, steps: int)
    ensures Manhattan(p, GreedyWalk(g, occ, p, t, steps).0) <= Max(steps, 0)
    ensures GreedyWalk(g, occ, p, t, steps).0 == p || Holds(g, GreedyWalk(g, occ, p, t, steps).0, Empty)
    decreases steps
  {
    if steps > 0 {
      GreedyStepMoves(g, occ, p, t);
      var step := GreedyStep(g, occ, p, t);
      if step.Some? {
        var q := step.value;
        GreedyWalkNear(g, occ + {q}, q, t, steps - 1);
        ManhattanTriangle(p, q, GreedyWalk(g, occ + {q}, q, t, steps - 1).0);
      }
    }
  }

  /** The moving loop of `update_game_state` over the first `n` attackers:
      where each went, and the cells claimed so far. */
  function AttackerMoves(attackers: seq<Pos>, ring: Pos, ng: Grid, n: nat): (map<Pos, Pos>, set<Pos>)
    requires n <= |attackers|
  {
    if n == 0 then (map[], {})
    else
      var (m, occ) := AttackerMoves(attackers, ring, ng, n - 1);
      var (p, occ') := GreedyWalk(ng, occ, attackers[n - 1], ring, 2);
      (m[attackers[n - 1] := p], occ')
  }

  /** The processed attackers are exactly the keys. */
  lemma {:induction false} AttackerMovesKeys(attackers: seq<Pos>, ring: Pos, ng: Grid, n: nat)
    requires n <= |attackers|
    ensures AttackerMoves(attackers, ring, ng, n).0.Keys == Elems(attackers[..n])
  {
    if n == 0 {
      assert Elems(attackers[..0]) == {};
    } else {
      AttackerMovesKeys(attackers, ring, ng, n - 1);
      var prev := AttackerMoves(attackers, ring, ng, n - 1);
      var walk := GreedyWalk(ng, prev.1, attackers[n - 1], ring, 2);
      assert AttackerMoves(attackers, ring, ng, n).0 == prev.0[attackers[n - 1] := walk.0];
      assert AttackerMoves(attackers, ring, ng, n).0.Keys == prev.0.Keys + {attackers[n - 1]};
      assert attackers[..n] == attackers[..n - 1] + [attackers[n - 1]];
      assert Elems(attackers[..n]) == Elems(attackers[..n - 1]) + {attackers[n - 1]};
    }
  }

  /** Every mover ends at most two steps from where it started, on its own
      cell or on one empty on the board. */
  predicate MovesNear(m: map<Pos, Pos>, ng: Grid) {
    forall a :: a in m ==> Manhattan(a, m[a]) <= 2 && (m[a] == a || Holds(ng, m[a], Empty))
  }

  /** The attackers' moves stay near their starts. */
  lemma {:induction false} AttackerMovesNear(attackers: seq<Pos>, ring: Pos, ng: Grid, n: nat)
    requires n <= |attackers|
    ensures MovesNear(AttackerMoves(attackers, ring, ng, n).0, ng)
  {
    if n > 0 {
      AttackerMovesNear(attackers, ring, ng, n - 1);
      var prev := AttackerMoves(attackers, ring, ng, n - 1);
      var walk := GreedyWalk(ng, prev.1, attackers[n - 1], ring, 2);
      assert AttackerMoves(attackers, ring, ng, n).0 == prev.0[attackers[n - 1] := walk.0];
      GreedyWalkNear(ng, prev.1, attackers[n - 1], ring, 2);
    }
  }

  /** The moving loop of `update_game_state`: each attacker in turn walks
      greedily toward the ring on the new board, sharing one claimed set. */
  method MoveAttackers(attackers: seq<Pos>, ring: Pos, ng: Grid) returns (moved: map<Pos, Pos>)
    requires Rect(ng)
    ensures moved == AttackerMoves(attackers, ring, ng, |attackers|).0
  {
    moved := map[];
    var occupied: set<Pos> := {};
    for i := 0 to |attackers|
      invariant (moved, occupied) == AttackerMoves(attackers, ring, ng, i)
    {
      var newPos;
      newPos, occupied := MovePlayerTowardsTarget(attackers[i], ring, ng, occupied, 2);
      moved := moved[attackers[i] := newPos];
    }
  }

  /** Whether one of the first `n` attackers moved onto `best`. */
  predicate Shoots(attackers: seq<Pos>, moved: map<Pos, Pos>, n: nat, best: Pos)
    requires n <= |attackers| && forall a :: a in attackers ==> a in moved
  {
    exists j :: 0 <= j < n && moved[attackers[j]] == best
  }

  /** The cells the first `n` attackers are put back on: all their moved
      cells, except on a goal the cell of the attacker who scores. */
  function PlacedSet(attackers: seq<Pos>, moved: map<Pos, Pos>, n: nat, best: Pos, goal: bool): set<Pos>
    requires n <= |attackers| && forall a :: a in attackers ==> a in moved
  {
    set j | 0 <= j < n && !(goal && moved[attackers[j]] == best) :: moved[attackers[j]]
  }

  /** The placing loop of `update_game_state` over the first `n` attackers:
      the board and `ball_carrier_after_move`. On a goal the attacker at the
      best cell puts `B` on the ring instead of its own cell; every other
      attacker is put on its moved cell if that is still `.`, as `B` on the
      best cell and `A` elsewhere. */
  function PlaceAttackersUpTo(ng: Grid, attackers: seq<Pos>, moved: map<Pos, Pos>, best: Pos, goal: bool,
                              ring: Pos, n: nat): (r: (Grid, Pos))
    requires Rect(ng) && InBounds(ng, ring) && n <= |attackers|
    requires forall a :: a in attackers ==> a in moved && InBounds(ng, moved[a])
    ensures SameShape(r.0, ng)
  {
    if n == 0 then (ng, best)
    else
      var (t, after) := PlaceAttackersUpTo(ng, attackers, moved, best, goal, ring, n - 1);
      assert attackers[n - 1] in attackers;
      var p := moved[attackers[n - 1]];
      if p == best && goal then
        if At(t, ring) == Ring then (SetCell(t, ring, BallCarrier), ring) else (t, after)
      else if At(t, p) == Empty then (SetCell(t, p, Mark(p, best)), after)
      else (t, after)
  }

  /** After placing, the ring holds `B` exactly when a goal was scored by
      some attacker at the best cell, and `ball_carrier_after_move` is then
      the ring; every other cell was `.` and is put back on with its mark,
      or keeps what it held. */
  lemma {:induction false} PlaceAttackersSpec(ng: Grid, attackers: seq<Pos>, moved: map<Pos, Pos>, best: Pos,
                                              goal: bool, ring: Pos, n: nat)
    requires Rect(ng) && InBounds(ng, ring) && n <= |attackers|
    requires forall a :: a in attackers ==> a in moved && InBounds(ng, moved[a])
    requires At(ng, ring) == Ring
    ensures PlaceAttackersUpTo(ng, attackers, moved, best, goal, ring, n).1 ==
      if goal && Shoots(attackers, moved, n, best) then ring else best
    ensures forall p :: InBounds(ng, p) ==>
      At(PlaceAttackersUpTo(ng, attackers, moved, best, goal, ring, n).0, p) ==
        if goal && Shoots(attackers, moved, n, best) && p == ring then BallCarrier
        else if At(ng, p) == Empty && p in PlacedSet(attackers, moved, n, best, goal) then Mark(p, best)
        else At(ng, p)
  {
    if n > 0 {
      PlaceAttackersSpec(ng, attackers, moved, best, goal, ring, n - 1);
      var a := attackers[n - 1];
      assert a in attackers;
      ShootsSnoc(attackers, moved, n, best);
      PlacedSnoc(attackers, moved, n, best, goal);
    }
  }

  /** One more attacker shoots exactly when it moved onto the best cell. */
  lemma ShootsSnoc(attackers: seq<Pos>, moved: map<Pos, Pos>, n: nat, best: Pos)
    requires 0 < n <= |attackers| && forall a :: a in attackers ==> a in moved
    ensures attackers[n - 1] in moved
    ensures Shoots(attackers, moved, n, best) <==>
      Shoots(attackers, moved, n - 1, best) || moved[attackers[n - 1]] == best
  {
    assert attackers[n - 1] in attackers;
  }

  /** One more attacker adds its moved cell, unless it is the scorer. */
  lemma PlacedSnoc(attackers: seq<Pos>, moved: map<Pos, Pos>, n: nat, best: Pos, goal: bool)
    requires 0 < n <= |attackers| && forall a :: a in attackers ==> a in moved
    ensures attackers[n - 1] in moved
    ensures var p := moved[attackers[n - 1]];
      PlacedSet(attackers, moved, n, best, goal) ==
        PlacedSet(attackers, moved, n - 1, best, goal) + (if p == best && goal then {} else {p})
  {
    assert attackers[n - 1] in attackers;
  }

  /** The attacker-placing loop of `update_game_state`. */
  method PlaceAttackers(ng: Grid, attackers: seq<Pos>, moved: map<Pos, Pos>, best: Pos, goal: bool, ring: Pos)
    returns (ng': Grid, after: Pos)
    requires Rect(ng) && InBounds(ng, ring)
    requires forall a :: a in attackers ==> a in moved && InBounds(ng, moved[a])
    ensures (ng', after) == PlaceAttackersUpTo(ng, attackers, moved, best, goal, ring, |attackers|)
  {
    ng', after := ng, best;
    for i := 0 to |attackers|
      invariant (ng', after) == PlaceAttackersUpTo(ng, attackers, moved, best, goal, ring, i)
    {
      assert attackers[i] in attackers;
      var newPos := moved[attackers[i]];
      if newPos == best && goal {
        if ng'[ring.row][ring.col] == Ring {
          ng' := SetCell(ng', ring, BallCarrier);
          after := ring;
        }
      } else {
        if ng'[newPos.row][newPos.col] == Empty {
          ng' := SetCell(ng', newPos, if newPos == best then BallCarrier else Attacker);
        }
      }
    }
  }

  /** The defender-placing loop over the first `n` defenders: each is put on
      its final cell if that is still `.`. */
  function PlaceDefendersUpTo(ng: Grid, ds: seq<Pos>, dm: map<Pos, Pos>, n: nat): (t: Grid)
    requires Rect(ng) && n <= |ds|
    requires forall d :: d in ds ==> d in dm && InBounds(ng, dm[d])
    ensures SameShape(t, ng)
  {
    if n == 0 then ng
    else
      var t := PlaceDefendersUpTo(ng, ds, dm, n - 1);
      assert ds[n - 1] in ds;
      var p := dm[ds[n - 1]];
      if At(t, p) == Empty then SetCell(t, p, Defender) else t
  }

  /** A cell ends up `D` exactly when it was `.` and some defender ended on
      it; every other cell keeps its symbol. */
  lemma {:induction false} PlaceDefendersSpec(ng: Grid, ds: seq<Pos>, dm: map<Pos, Pos>, n: nat)
    requires Rect(ng) && n <= |ds|
    requires forall d :: d in ds ==> d in dm && InBounds(ng, dm[d])
    ensures forall p :: InBounds(ng, p) ==>
      At(PlaceDefendersUpTo(ng, ds, dm, n), p) ==
        if At(ng, p) == Empty && exists j :: 0 <= j < n && dm[ds[j]] == p then Defender else At(ng, p)
  {
    if n > 0 {
      PlaceDefendersSpec(ng, ds, dm, n - 1);
      assert ds[n - 1] in ds;
    }
  }

  /** The defender-placing loop of `update_game_state`. */
  method PlaceDefenders(ng: Grid, ds: seq<Pos>, dm: map<Pos, Pos>) returns (ng': Grid)
    requires Rect(ng)
    requires forall d :: d in ds ==> d in dm && InBounds(ng, dm[d])
    ensures ng' == PlaceDefendersUpTo(ng, ds, dm, |ds|)
  {
    ng' := ng;
    for i := 0 to |ds|
      invariant ng' == PlaceDefendersUpTo(ng, ds, dm, i)
    {
      assert ds[i] in ds;
      var newPos := dm[ds[i]];
      if ng'[newPos.row][newPos.col] == Empty {
        ng' := SetCell(ng', newPos, Defender);
      }
    }
  }

  /** Resetting keeps exactly the ring cells. */
  lemma ResetKeepsRings(g: Grid)
    requires Rect(g)
    ensures forall p :: Holds(g, p, Ring) <==> Holds(ResetBoard(g), p, Ring)
  {
    forall p ensures Holds(g, p, Ring) <==> Holds(ResetBoard(g), p, Ring) {
      if Holds(ResetBoard(g), p, Ring) {
        assert InBounds(g, p);
      }
    }
  }

  /** Where every attacker ends in the tick on board `g`: on the new board,
      each is a key, ends in bounds at most two steps from its start, on a
      cell that is `.` there. */
  function TickMoves(g: Grid): (moved: map<Pos, Pos>)
    requires Rect(g) && TargetRing(g).Some?
    ensures forall a :: a in AllAttackers(g) ==>
      a in moved && InBounds(g, moved[a]) && At(ResetBoard(g), moved[a]) == Empty
    ensures forall a :: a in moved ==> Manhattan(a, moved[a]) <= 2
  {
    var attackers := AllAttackers(g);
    var ng := ResetBoard(g);
    var moved := AttackerMoves(attackers, TargetRing(g).value, ng, |attackers|).0;
    AttackerMovesKeys(attackers, TargetRing(g).value, ng, |attackers|);
    assert attackers[..|attackers|] == attackers;
    AttackerMovesNear(attackers, TargetRing(g).value, ng, |attackers|);
    ScanSpec(g, Attacker);
    ScanSpec(g, BallCarrier);
    assert forall a :: a in attackers ==> a in moved by {
      forall a | a in attackers ensures a in moved {
        var i :| 0 <= i < |attackers| && attackers[i] == a;
      }
    }
    moved
  }

  /** The board after the attackers are placed, and `ball_carrier_after_move`. */
  function TickAttackers(g: Grid, best: Pos, goal: bool): (r: (Grid, Pos))
    requires Rect(g) && TargetRing(g).Some?
    ensures SameShape(r.0, g)
  {
    PlaceAttackersUpTo(ResetBoard(g), AllAttackers(g), TickMoves(g), best, goal, TargetRing(g).value, |AllAttackers(g)|)
  }

  /** A row-major scan lists no position twice. */
  lemma ScanDistinct(g: Grid, ch: char)
    ensures forall i, j :: 0 <= i < j < |Scan(g, ch)| ==> Scan(g, ch)[i] != Scan(g, ch)[j]
  {
    ScanSpec(g, ch);
  }

  /** Every defender of the board is a key of its moves and ends in bounds. */
  lemma DefenderMovesInBounds(g: Grid, ng: Grid)
    requires SameShape(g, ng)
    ensures var ds := Scan(g, Defender);
      forall d :: d in ds ==>
        d in DefenderMoves(ds, ng, Width(g), |ds|) && InBounds(ng, DefenderMoves(ds, ng, Width(g), |ds|)[d])
  {
    var ds := Scan(g, Defender);
    ScanSpec(g, Defender);
    ScanDistinct(g, Defender);
    DefenderMovesKeys(ds, ng, Width(g), |ds|);
    DefenderMovesBounds(ds, ng, Width(g));
    forall d | d in ds ensures d in DefenderMoves(ds, ng, Width(g), |ds|) {
      var i :| 0 <= i < |ds| && ds[i] == d;
    }
  }

  /** The board `update_game_state` returns when it does not exit early,
      given the best pass target and whether a goal was scored. */
  function TickBoard(g: Grid, best: Pos, goal: bool): (out: Grid)
    requires Rect(g) && TargetRing(g).Some?
    ensures SameShape(out, g)
  {
    var t := TickAttackers(g, best, goal).0;
    var ds := Scan(g, Defender);
    DefenderMovesInBounds(g, t);
    PlaceDefendersUpTo(t, ds, DefenderMoves(ds, t, Width(g), |ds|), |ds|)
  }

  /** Each of the first `n` entries survives deduplication. */
  lemma DedupHas(s: seq<Pos>, n: nat, i: nat)
    requires i < n <= |s|
    ensures s[i] in Dedup(s, n)
  {
    DedupSpec(s, n);
  }

  /** Every key of a tick's cost map is the cell some attacker moved to;
      it is `.` on the new board, so it is not the ring. */
  lemma CostKeyMoved(g: Grid, costs: CostMap, i: nat)
    requires Rect(g) && TargetRing(g).Some? && i < |costs|
    requires KeySeq(costs) == Dedup(MovedSeq(AllAttackers(g), TickMoves(g)), |AllAttackers(g)|)
    ensures exists a :: a in AllAttackers(g) && TickMoves(g)[a] == costs[i].0
    ensures InBounds(g, costs[i].0) && At(ResetBoard(g), costs[i].0) == Empty
    ensures costs[i].0 != TargetRing(g).value
  {
    var atts := AllAttackers(g);
    DedupSpec(MovedSeq(atts, TickMoves(g)), |atts|);
    assert KeySeq(costs)[i] in Dedup(MovedSeq(atts, TickMoves(g)), |atts|);
    var j :| 0 <= j < |atts| && MovedSeq(atts, TickMoves(g))[j] == costs[i].0;
    assert atts[j] in atts;
  }

  /** The ring is still a ring, hence passable, on the sanitised board. */
  lemma SanitizedRing(g: Grid, carrier: Pos)
    requires Rect(g) && TargetRing(g).Some?
    ensures var board := SanitizedBoard(ResetBoard(g), carrier, AllAttackers(g), TickMoves(g));
      InBounds(board, TargetRing(g).value) && IsValidNeighbor(TargetRing(g).value, board)
  {
    SanitizedSpec(ResetBoard(g), carrier, AllAttackers(g), TickMoves(g));
  }

  /** If the least recorded cost is at most one, its key is next to the ring. */
  lemma GoalNextToRing(g: Grid, carrier: Pos, costs: CostMap)
    requires Rect(g) && TargetRing(g).Some? && |costs| > 0
    requires KeySeq(costs) == Dedup(MovedSeq(AllAttackers(g), TickMoves(g)), |AllAttackers(g)|)
    requires SearchCosts(SanitizedBoard(ResetBoard(g), carrier, AllAttackers(g), TickMoves(g)),
                         TargetRing(g).value, costs)
    requires WithinOne(costs[MinCostIndex(costs)].1)
    ensures exists a :: a in AllAttackers(g) && Manhattan(TickMoves(g)[a], TargetRing(g).value) == 1
  {
    var k := MinCostIndex(costs);
    SanitizedRing(g, carrier);
    CostKeyMoved(g, costs, k);
    WithinOneIffNear(SanitizedBoard(ResetBoard(g), carrier, AllAttackers(g), TickMoves(g)),
                     costs[k].0, TargetRing(g).value, costs[k].1);
  }

  /** A key next to a passable ring makes the least recorded cost at most one. */
  lemma NearKeyWithinOne(board: Grid, ring: Pos, costs: CostMap, key: Pos)
    requires Rect(board) && InBounds(board, ring) && |costs| > 0
    requires SearchCosts(board, ring, costs) && IsValidNeighbor(ring, board)
    requires key in KeySeq(costs) && Manhattan(key, ring) == 1
    ensures WithinOne(costs[MinCostIndex(costs)].1)
  {
    var j :| 0 <= j < |costs| && KeySeq(costs)[j] == key;
    WithinOneIffNear(board, costs[j].0, ring, costs[j].1);
    assert !CostLess(costs[j].1, costs[MinCostIndex(costs)].1);
  }

  /** If attacker `a` ended next to the ring, the least recorded cost is at
      most one: `a`'s own cost is one. */
  lemma NextToRingGoal(g: Grid, carrier: Pos, costs: CostMap, a: Pos)
    requires Rect(g) && TargetRing(g).Some? && |costs| > 0
    requires KeySeq(costs) == Dedup(MovedSeq(AllAttackers(g), TickMoves(g)), |AllAttackers(g)|)
    requires SearchCosts(SanitizedBoard(ResetBoard(g), carrier, AllAttackers(g), TickMoves(g)),
                         TargetRing(g).value, costs)
    requires a in AllAttackers(g) && Manhattan(TickMoves(g)[a], TargetRing(g).value) == 1
    ensures WithinOne(costs[MinCostIndex(costs)].1)
  {
    var atts := AllAttackers(g);
    var moved := TickMoves(g);
    var i :| 0 <= i < |atts| && atts[i] == a;
    DedupHas(MovedSeq(atts, moved), |atts|, i);
    SanitizedRing(g, carrier);
    NearKeyWithinOne(SanitizedBoard(ResetBoard(g), carrier, atts, moved), TargetRing(g).value, costs, moved[a]);
  }

  /** A goal is scored exactly when some attacker ended its move right next
      to the ring: the least recorded cost is at most one if and only if
      one of the attackers' new cells is adjacent to the ring. */
  lemma GoalIffNextToRing(g: Grid, carrier: Pos, costs: CostMap)
    requires Rect(g) && TargetRing(g).Some? && |costs| > 0
    requires KeySeq(costs) == Dedup(MovedSeq(AllAttackers(g), TickMoves(g)), |AllAttackers(g)|)
    requires SearchCosts(SanitizedBoard(ResetBoard(g), carrier, AllAttackers(g), TickMoves(g)),
                         TargetRing(g).value, costs)
    ensures WithinOne(costs[MinCostIndex(costs)].1) <==>
      exists a :: a in AllAttackers(g) && Manhattan(TickMoves(g)[a], TargetRing(g).value) == 1
  {
    if WithinOne(costs[MinCostIndex(costs)].1) {
      GoalNextToRing(g, carrier, costs);
    }
    if exists a :: a in AllAttackers(g) && Manhattan(TickMoves(g)[a], TargetRing(g).value) == 1 {
      var a :| a in AllAttackers(g) && Manhattan(TickMoves(g)[a], TargetRing(g).value) == 1;
      NextToRingGoal(g, carrier, costs, a);
    }
  }

  /** Every cell an attacker is put back on is `.` on the new board. */
  lemma PlacedOnEmpty(g: Grid, best: Pos, goal: bool)
    requires Rect(g) && TargetRing(g).Some?
    ensures forall p :: p in PlacedSet(AllAttackers(g), TickMoves(g), |AllAttackers(g)|, best, goal) ==>
      InBounds(g, p) && At(ResetBoard(g), p) == Empty
  {
    var atts := AllAttackers(g);
    var moved := TickMoves(g);
    forall p | p in PlacedSet(atts, moved, |atts|, best, goal) ensures InBounds(g, p) && At(ResetBoard(g), p) == Empty {
      var j :| 0 <= j < |atts| && !(goal && moved[atts[j]] == best) && moved[atts[j]] == p;
      assert atts[j] in atts;
    }
  }

  /** Cell by cell, the board after the attackers are placed: on a goal by
      an attacker at the best cell the ring holds `B`; every other ring
      stays; each cell an attacker is put back on holds `A`, or `B` on the
      best cell; every other cell is `.`. */
  lemma TickAttackersCells(g: Grid, best: Pos, goal: bool)
    requires Rect(g) && TargetRing(g).Some?
    ensures var atts := AllAttackers(g);
      forall p :: InBounds(g, p) ==>
        At(TickAttackers(g, best, goal).0, p) ==
          if goal && Shoots(atts, TickMoves(g), |atts|, best) && p == TargetRing(g).value then BallCarrier
          else if At(g, p) == Ring then Ring
          else if p in PlacedSet(atts, TickMoves(g), |atts|, best, goal) then Mark(p, best)
          else Empty
  {
    var atts := AllAttackers(g);
    var moved := TickMoves(g);
    var ng := ResetBoard(g);
    var placed := PlacedSet(atts, moved, |atts|, best, goal);
    var t := TickAttackers(g, best, goal).0;
    PlaceAttackersSpec(ng, atts, moved, best, goal, TargetRing(g).value, |atts|);
    PlacedOnEmpty(g, best, goal);
    forall p | InBounds(g, p)
      ensures At(t, p) ==
        if goal && Shoots(atts, moved, |atts|, best) && p == TargetRing(g).value then BallCarrier
        else if At(g, p) == Ring then Ring
        else if p in placed then Mark(p, best)
        else Empty
    {
      assert InBounds(ng, p);
    }
  }

  /** With every defender a key and every key a defender, a cell ends up
      `D` exactly when it was `.` and is some defender's final cell. */
  lemma PlaceDefendersValues(ng: Grid, ds: seq<Pos>, dm: map<Pos, Pos>)
    requires Rect(ng)
    requires forall d :: d in dm <==> d in ds
    requires forall d :: d in ds ==> InBounds(ng, dm[d])
    ensures forall p :: InBounds(ng, p) ==>
      At(PlaceDefendersUpTo(ng, ds, dm, |ds|), p) ==
        if At(ng, p) == Empty && p in dm.Values then Defender else At(ng, p)
  {
    PlaceDefendersSpec(ng, ds, dm, |ds|);
    forall p | p in dm.Values ensures exists j :: 0 <= j < |ds| && dm[ds[j]] == p {
      var d :| d in dm && dm[d] == p;
      var j :| 0 <= j < |ds| && ds[j] == d;
    }
  }

  /** Cell by cell, the board a tick returns: the attacker-placed board,
      with `D` on each cell still `.` that some defender ended on. */
  lemma TickBoardCells(g: Grid, best: Pos, goal: bool)
    requires Rect(g) && TargetRing(g).Some?
    ensures var atts := AllAttackers(g);
      var ds := Scan(g, Defender);
      var dm := DefenderMoves(ds, TickAttackers(g, best, goal).0, Width(g), |ds|);
      forall p :: InBounds(g, p) ==>
        At(TickBoard(g, best, goal), p) ==
          if goal && Shoots(atts, TickMoves(g), |atts|, best) && p == TargetRing(g).value then BallCarrier
          else if At(g, p) == Ring then Ring
          else if p in PlacedSet(atts, TickMoves(g), |atts|, best, goal) then Mark(p, best)
          else if p in dm.Values then Defender
          else Empty
  {
    var t := TickAttackers(g, best, goal).0;
    var ds := Scan(g, Defender);
    TickAttackersCells(g, best, goal);
    DefenderMovesInBounds(g, t);
    DefenderMovesKeys(ds, t, Width(g), |ds|);
    var dm := DefenderMoves(ds, t, Width(g), |ds|);
    PlaceDefendersValues(t, ds, dm);
    var out := TickBoard(g, best, goal);
    assert out == PlaceDefendersUpTo(t, ds, dm, |ds|);
    forall p | InBounds(g, p)
      ensures At(out, p) == if At(t, p) == Empty && p in dm.Values then Defender else At(t, p)
    {
      assert InBounds(t, p);
    }
  }

  /** When the best cell is where some attacker moved,
      `ball_carrier_after_move` is the ring after a goal, else the best cell. */
  lemma TickAfterMove(g: Grid, best: Pos, goal: bool)
    requires Rect(g) && TargetRing(g).Some?
    requires Shoots(AllAttackers(g), TickMoves(g), |AllAttackers(g)|, best)
    ensures TickAttackers(g, best, goal).1 == if goal then TargetRing(g).value else best
  {
    TargetRingInBounds(g);
    PlaceAttackersSpec(ResetBoard(g), AllAttackers(g), TickMoves(g), best, goal, TargetRing(g).value,
                       |AllAttackers(g)|);
  }

  /** When the best cell is where some attacker moved, the returned board
      holds exactly one `B`: on the ring after a goal, else on the best cell. */
  lemma TickOneCarrier(g: Grid, best: Pos, goal: bool)
    requires Rect(g) && TargetRing(g).Some?
    requires Shoots(AllAttackers(g), TickMoves(g), |AllAttackers(g)|, best)
    ensures forall p :: InBounds(g, p) ==>
      (At(TickBoard(g, best, goal), p) == BallCarrier <==> p == if goal then TargetRing(g).value else best)
  {
    var atts := AllAttackers(g);
    var moved := TickMoves(g);
    var j :| 0 <= j < |atts| && moved[atts[j]] == best;
    assert atts[j] in atts;
    assert At(g, best) != Ring;
    var placed := PlacedSet(atts, moved, |atts|, best, goal);
    if goal {
      assert best !in placed;
    } else {
      assert best in placed;
    }
    TargetRingInBounds(g);
    TickBoardCells(g, best, goal);
    var ring := TargetRing(g).value;
    var shoot := goal && Shoots(atts, moved, |atts|, best);
    assert shoot == goal;
    forall p | InBounds(g, p)
      ensures At(TickBoard(g, best, goal), p) == BallCarrier <==> p == if goal then ring else best
    {
      if shoot && p == ring {
      } else if At(g, p) == Ring {
        assert p != best;
      } else if p in placed {
        assert Mark(p, best) == BallCarrier <==> p == best;
      }
    }
  }

  /** The ring of the board is in bounds and resets to a ring. */
  lemma TargetRingInBounds(g: Grid)
    requires Rect(g) && TargetRing(g).Some?
    ensures InBounds(g, TargetRing(g).value) && At(g, TargetRing(g).value) == Ring
  {
  }

  /** Rings survive a tick, except that the target ring becomes `B` on a
      goal; no ring is created; every cell ends as `.`, `A`, `B`, `D` or `R`. */
  lemma TickRings(g: Grid, best: Pos, goal: bool)
    requires Rect(g) && TargetRing(g).Some?
    requires Shoots(AllAttackers(g), TickMoves(g), |AllAttackers(g)|, best)
    ensures forall p :: InBounds(g, p) ==>
      (At(TickBoard(g, best, goal), p) == Ring <==> At(g, p) == Ring && !(goal && p == TargetRing(g).value))
    ensures forall p :: InBounds(g, p) ==>
      At(TickBoard(g, best, goal), p) in {Empty, Attacker, BallCarrier, Defender, Ring}
  {
    TargetRingInBounds(g);
    TickBoardCells(g, best, goal);
  }

  /** Every `D` of the returned board is in the row of a `D` of the input
      board, 0 to 2 columns right of it, and every cell between them was
      free on the board the defenders moved on. */
  lemma TickDefendersNear(g: Grid, best: Pos, goal: bool)
    requires Rect(g) && TargetRing(g).Some?
    ensures forall p :: InBounds(g, p) && At(TickBoard(g, best, goal), p) == Defender ==>
      exists d :: Holds(g, d, Defender) && d.row == p.row && d.col <= p.col <= d.col + 2
  {
    var t := TickAttackers(g, best, goal).0;
    var ds := Scan(g, Defender);
    var dm := DefenderMoves(ds, t, Width(g), |ds|);
    TickBoardCells(g, best, goal);
    ScanSpec(g, Defender);
    ScanDistinct(g, Defender);
    DefenderMovesKeys(ds, t, Width(g), |ds|);
    DefenderMovesBounds(ds, t, Width(g));
    forall p | InBounds(g, p) && At(TickBoard(g, best, goal), p) == Defender
      ensures exists d :: Holds(g, d, Defender) && d.row == p.row && d.col <= p.col <= d.col + 2
    {
      assert p in dm.Values;
      var d :| d in dm && dm[d] == p;
      var i :| 0 <= i < |ds| && ds[i] == d;
    }
  }

  /** A cell an attacker is put back on is at most two steps from an
      attacker or ball carrier of the input board. */
  lemma PlacedNear(g: Grid, best: Pos, goal: bool, p: Pos)
    requires Rect(g) && TargetRing(g).Some?
    requires p in PlacedSet(AllAttackers(g), TickMoves(g), |AllAttackers(g)|, best, goal)
    ensures exists a :: (Holds(g, a, Attacker) || Holds(g, a, BallCarrier)) && Manhattan(a, p) <= 2
  {
    var atts := AllAttackers(g);
    var moved := TickMoves(g);
    var j :| 0 <= j < |atts| && !(goal && moved[atts[j]] == best) && moved[atts[j]] == p;
    assert atts[j] in atts;
    ScanSpec(g, Attacker);
    ScanSpec(g, BallCarrier);
  }

  /** Every `A` of the returned board, and the `B` unless it was shot onto
      the ring, is at most two steps from an attacker or ball carrier of the
      input board. */
  lemma TickAttackersNear(g: Grid, best: Pos, goal: bool)
    requires Rect(g) && TargetRing(g).Some?
    ensures forall p :: InBounds(g, p) && At(TickBoard(g, best, goal), p) in {Attacker, BallCarrier} &&
                        !(goal && p == TargetRing(g).value) ==>
      exists a :: (Holds(g, a, Attacker) || Holds(g, a, BallCarrier)) && Manhattan(a, p) <= 2
  {
    TickBoardCells(g, best, goal);
    forall p | InBounds(g, p) && At(TickBoard(g, best, goal), p) in {Attacker, BallCarrier} &&
               !(goal && p == TargetRing(g).value)
      ensures exists a :: (Holds(g, a, Attacker) || Holds(g, a, BallCarrier)) && Manhattan(a, p) <= 2
    {
      PlacedNear(g, best, goal, p);
    }
  }

  /** `game_info`. */
  datatype GameInfo = GameInfo(
    attackerCosts: CostMap,
    passDecision: Decision,
    ballCarrier: Option<Pos>,
    targetRing: Option<Pos>,
    goalScored: bool,
    ballCarrierAfterMove: Option<Pos>)

  /** `game_info` as first built, and as returned on an early exit. */
  const InitialInfo: GameInfo := GameInfo([], NoDecision, None, None, false, None)

  /** `update_game_state`. Without a ball carrier or a ring the board is
      returned as it is. Otherwise the attackers move, the pass is chosen on
      the sanitised new board, the attackers and then the defenders are
      placed; a goal is scored exactly when the best recorded cost is at
      most one. */
  method UpdateGameState(g: Grid, tick: nat) returns (out: Grid, info: GameInfo)
    requires Rect(g) && |g| > 0
    ensures |Scan(g, BallCarrier)| == 0 || TargetRing(g).None? ==> out == g && info == InitialInfo
    ensures |Scan(g, BallCarrier)| > 0 && TargetRing(g).Some? ==>
      var ring := TargetRing(g).value;
      var carrier := Scan(g, BallCarrier)[0];
      var costs := info.attackerCosts;
      && info.ballCarrier == Some(carrier)
      && info.targetRing == Some(ring)
      && UniqueKeys(costs) && |costs| > 0
      && KeySeq(costs) == Dedup(MovedSeq(AllAttackers(g), TickMoves(g)), |AllAttackers(g)|)
      && SearchCosts(SanitizedBoard(ResetBoard(g), carrier, AllAttackers(g), TickMoves(g)), ring, costs)
      && var k := MinCostIndex(costs);
         && Shoots(AllAttackers(g), TickMoves(g), |AllAttackers(g)|, costs[k].0)
         && info.goalScored == WithinOne(costs[k].1)
         && (info.goalScored <==> exists a :: a in AllAttackers(g) && Manhattan(TickMoves(g)[a], ring) == 1)
         && info.passDecision == (if costs[k].0 == MovedTo(TickMoves(g), carrier)
                                  then KeepBall(WithTick(costs[k].1, tick))
                                  else PassTo(costs[k].0, WithTick(costs[k].1, tick)))
         && info.ballCarrierAfterMove == Some(if info.goalScored then ring else costs[k].0)
         && out == TickBoard(g, costs[k].0, info.goalScored)
         && forall p :: InBounds(g, p) ==> (At(out, p) == BallCarrier <==> p == info.ballCarrierAfterMove.value)
  {
    var ng := NewBoard(g);
    var players := FindPlayers(g);
    var carriers := players[BallCarrier];
    if |carriers| == 0 {
      return g, InitialInfo;
    }
    var carrier := carriers[0];
    var attackers := players[Attacker] + carriers;
    var target := TargetRing(g);
    if target.None? {
      return g, InitialInfo;
    }
    var ring := target.value;
    var moved := MoveAttackers(attackers, ring, ng);
    assert attackers == AllAttackers(g);
    assert moved == TickMoves(g);
    var best, costs, decision, goal := PassPhase(g, ng, attackers, moved, carrier, tick);
    var after;
    out, after := PlacePlayers(g, players, ng, moved, best, goal);
    TickAfterMove(g, best, goal);
    TickOneCarrier(g, best, goal);
    info := GameInfo(costs, decision, Some(carrier), Some(ring), goal, Some(after));
  }

  /** The passing half of `update_game_state`: the pass choice on the new
      board, and whether the best recorded cost scores a goal. */
  method PassPhase(g: Grid, ng: Grid, attackers: seq<Pos>, moved: map<Pos, Pos>, carrier: Pos, tick: nat)
    returns (best: Pos, costs: CostMap, decision: Decision, goal: bool)
    requires Rect(g) && TargetRing(g).Some?
    requires ng == ResetBoard(g) && attackers == AllAttackers(g) && moved == TickMoves(g)
    requires carrier in attackers
    ensures UniqueKeys(costs) && |costs| > 0
    ensures KeySeq(costs) == Dedup(MovedSeq(attackers, moved), |attackers|)
    ensures SearchCosts(SanitizedBoard(ng, carrier, attackers, moved), TargetRing(g).value, costs)
    ensures var k := MinCostIndex(costs);
      && best == costs[k].0
      && goal == WithinOne(costs[k].1)
      && decision == (if best == MovedTo(moved, carrier)
                      then KeepBall(WithTick(costs[k].1, tick))
                      else PassTo(best, WithTick(costs[k].1, tick)))
    ensures Shoots(attackers, moved, |attackers|, best)
    ensures goal <==> exists a :: a in attackers && Manhattan(moved[a], TargetRing(g).value) == 1
  {
    ResetKeepsRings(g);
    TargetRingSameRings(g, ng);
    best, costs, decision := FindBestPassOption(carrier, attackers, ng, moved, tick);
    assert |Dedup(MovedSeq(attackers, moved), |attackers|)| > 0;
    GetCostSpec(costs, best);
    goal := WithinOne(GetCost(costs, best));
    CostKeyMoved(g, costs, MinCostIndex(costs));
    GoalIffNextToRing(g, carrier, costs);
  }

  /** The placing half of `update_game_state`: the attackers, then the
      defenders moved on the attacker-placed board. */
  method PlacePlayers(g: Grid, players: map<char, seq<Pos>>, ng: Grid, moved: map<Pos, Pos>, best: Pos, goal: bool)
    returns (out: Grid, after: Pos)
    requires Rect(g) && TargetRing(g).Some?
    requires ng == ResetBoard(g) && moved == TickMoves(g)
    requires players.Keys == {Attacker, Defender, BallCarrier}
    requires forall s :: s in players ==> players[s] == Scan(g, s)
    ensures out == TickBoard(g, best, goal)
    ensures after == TickAttackers(g, best, goal).1
  {
    var ng' := ng;
    var attackers := players[Attacker] + players[BallCarrier];
    ng', after := PlaceAttackers(ng', attackers, moved, best, goal, TargetRing(g).value);
    ScanSpec(g, Defender);
    assert (ng', after) == TickAttackers(g, best, goal);
    var defenderMoves := MoveDefenders(players, g, ng');
    DefenderMovesInBounds(g, ng');
    out := PlaceDefenders(ng', players[Defender], defenderMoves);
  }

  /** A cell holding `ch` with none before it in row-major order is the
      first entry of the scan for `ch`. */
  lemma FirstInScan(g: Grid, ch: char, p: Pos)
    requires Holds(g, p, ch)
    requires forall q :: Holds(g, q, ch) ==> !Before(q, p)
    ensures |Scan(g, ch)| > 0 && Scan(g, ch)[0] == p
  {
    ScanSpec(g, ch);
    var s := Scan(g, ch);
    var i :| 0 <= i < |s| && s[i] == p;
    assert s[0] in s;
  }

  /** `check_game_end`: the first ball carrier in row-major order is at most
      one step from the target ring by the search, which holds exactly when
      it stands right next to the ring. */
  method CheckGameEnd(g: Grid) returns (over: bool)
    requires Rect(g)
    ensures over <==> |Scan(g, BallCarrier)| > 0 && TargetRing(g).Some? &&
                      Manhattan(Scan(g, BallCarrier)[0], TargetRing(g).value) == 1
  {
    var carrier: Option<Pos> := None;
    var i := 0;
    while i < |g|
      invariant 0 <= i <= |g|
      invariant carrier.None?
      invariant forall q :: Holds(g, q, BallCarrier) ==> !Before(q, Pos(i, 0))
    {
      var j := 0;
      while j < |g[i]|
        invariant 0 <= j <= |g[i]|
        invariant carrier.None?
        invariant forall q :: Holds(g, q, BallCarrier) ==> !Before(q, Pos(i, j))
      {
        if g[i][j] == BallCarrier {
          carrier := Some(Pos(i, j));
          break;
        }
        j := j + 1;
      }
      if carrier.Some? {
        break;
      }
      i := i + 1;
    }
    if carrier.None? {
      ScanSpec(g, BallCarrier);
      if |Scan(g, BallCarrier)| > 0 {
        assert Scan(g, BallCarrier)[0] in Scan(g, BallCarrier);
      }
      return false;
    }
    FirstInScan(g, BallCarrier, carrier.value);
    var target := TargetRing(g);
    if target.None? {
      return false;
    }
    var ring := target.value;
    var _, cost := AStarPathfinding(carrier.value, ring, g);
    WithinOneIffNear(g, carrier.value, ring, cost);
    over := WithinOne(cost);
  }
}
