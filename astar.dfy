/** The A* search of the simulation (src/astar.py): search nodes and their
    heap ordering, the defender-penalising heuristic, passability, the
    best-first search itself and the ring-targeted wrapper around it. */
module AStar {
  import opened Utils

  /** A path cost; the source's `float("inf")` is the explicit Inf. */
  datatype Cost = Finite(n: nat) | Inf

  // -------------------------------------------------------------- nodes

  /** `AStarNode`: position, cost so far, heuristic estimate and the index of
      the predecessor node in the arena of nodes the search allocates. */
  datatype Node = Node(pos: Pos, g: nat, h: nat, parent: Option<nat>) {
    /** The node's total estimate, `f_cost = g_cost + h_cost`. */
    function f(): nat { g + h }
  }

  /** `AStarNode.__lt__`: lower f first; on equal f, higher g first. */
  predicate NodeLess(a: Node, b: Node) {
    if a.f() == b.f() then a.g > b.g else a.f() < b.f()
  }

  /** The node order is a strict weak order, which is what a binary heap
      needs: irreflexive, asymmetric, transitive, and two nodes are
      unordered exactly when they agree on f and on g. */
  lemma NodeOrder(a: Node, b: Node, c: Node)
    ensures !NodeLess(a, a)
    ensures NodeLess(a, b) ==> !NodeLess(b, a)
    ensures NodeLess(a, b) && NodeLess(b, c) ==> NodeLess(a, c)
    ensures !NodeLess(a, b) && !NodeLess(b, a) <==> a.f() == b.f() && a.g == b.g
  {
  }

  // ---------------------------------------------------------- heuristic

  /** Defenders in row r over the columns lo <= c < hi. */
  function CountRow(g: Grid, r: int, lo: int, hi: int): (n: nat)
    requires Rect(g) && 0 <= r < |g| && 0 <= lo && hi <= Width(g)
    ensures n <= if lo < hi then hi - lo else 0
    decreases hi - lo
  {
    if hi <= lo then 0
    else CountRow(g, r, lo, hi - 1) + (if g[r][hi - 1] == Defender then 1 else 0)
  }

  lemma {:induction false} CountRowZero(g: Grid, r: int, lo: int, hi: int)
    requires Rect(g) && 0 <= r < |g| && 0 <= lo && hi <= Width(g)
    ensures CountRow(g, r, lo, hi) == 0 <==> forall c :: lo <= c < hi ==> g[r][c] != Defender
    decreases hi - lo
  {
    if lo < hi {
      CountRowZero(g, r, lo, hi - 1);
    }
  }

  /** Defenders in column c over the rows lo <= r < hi. */
  function CountCol(g: Grid, c: int, lo: int, hi: int): (n: nat)
    requires Rect(g) && 0 <= c < Width(g) && 0 <= lo && hi <= |g|
    ensures n <= if lo < hi then hi - lo else 0
    decreases hi - lo
  {
    if hi <= lo then 0
    else CountCol(g, c, lo, hi - 1) + (if g[hi - 1][c] == Defender then 1 else 0)
  }

  lemma {:induction false} CountColZero(g: Grid, c: int, lo: int, hi: int)
    requires Rect(g) && 0 <= c < Width(g) && 0 <= lo && hi <= |g|
    ensures CountCol(g, c, lo, hi) == 0 <==> forall r :: lo <= r < hi ==> g[r][c] != Defender
    decreases hi - lo
  {
    if lo < hi {
      CountColZero(g, c, lo, hi - 1);
    }
  }

  /** q lies on the row leg of the corridor: pos's row, between the two columns. */
  predicate OnRowLeg(pos: Pos, goal: Pos, q: Pos) {
    q.row == pos.row && Min(pos.col, goal.col) <= q.col <= Max(pos.col, goal.col)
  }

  /** q lies on the column leg of the corridor: goal's column, between the two rows. */
  predicate OnColLeg(pos: Pos, goal: Pos, q: Pos) {
    q.col == goal.col && Min(pos.row, goal.row) <= q.row <= Max(pos.row, goal.row)
  }

  /** How many times the heuristic inspects cell q: once for a cell of the
      straight segment, and for an L-shaped corridor once per leg, so the
      corner (pos.row, goal.col) twice. */
  function ScanCount(pos: Pos, goal: Pos, q: Pos): (k: nat)
    ensures k <= 2
    ensures k == 2 <==> pos.row != goal.row && pos.col != goal.col && q == Pos(pos.row, goal.col)
  {
    if pos.row == goal.row then (if OnRowLeg(pos, goal, q) then 1 else 0)
    else if pos.col == goal.col then (if OnColLeg(pos, goal, q) then 1 else 0)
    else (if OnRowLeg(pos, goal, q) then 1 else 0) + (if OnColLeg(pos, goal, q) then 1 else 0)
  }

  /** Number of cell inspections the heuristic makes. */
  function ScannedCells(pos: Pos, goal: Pos): nat {
    if pos.row == goal.row then Abs(pos.col - goal.col) + 1
    else if pos.col == goal.col then Abs(pos.row - goal.row) + 1
    else Abs(pos.col - goal.col) + 1 + Abs(pos.row - goal.row) + 1
  }

  /** The defender penalty: one per defender inspection along the corridor. */
  function Penalty(g: Grid, pos: Pos, goal: Pos): nat
    requires Rect(g) && InBounds(g, pos) && InBounds(g, goal)
  {
    if pos.row == goal.row then
      CountRow(g, pos.row, Min(pos.col, goal.col), Max(pos.col, goal.col) + 1)
    else if pos.col == goal.col then
      CountCol(g, pos.col, Min(pos.row, goal.row), Max(pos.row, goal.row) + 1)
    else
      CountRow(g, pos.row, Min(pos.col, goal.col), Max(pos.col, goal.col) + 1)
      + CountCol(g, goal.col, Min(pos.row, goal.row), Max(pos.row, goal.row) + 1)
  }

  /** `calculate_heuristic`: Manhattan distance plus the defender penalty.
      It never undercuts the Manhattan distance and exceeds it by at most the
      number of inspected cells. */
  function Heuristic(g: Grid, pos: Pos, goal: Pos): (h: nat)
    requires Rect(g) && InBounds(g, pos) && InBounds(g, goal)
    ensures Manhattan(pos, goal) <= h <= Manhattan(pos, goal) + ScannedCells(pos, goal)
  {
    Manhattan(pos, goal) + Penalty(g, pos, goal)
  }

  /** The heuristic is exactly the Manhattan distance when, and only when,
      no inspected cell holds a defender. */
  lemma HeuristicExact(g: Grid, pos: Pos, goal: Pos)
    requires Rect(g) && InBounds(g, pos) && InBounds(g, goal)
    ensures Heuristic(g, pos, goal) == Manhattan(pos, goal) <==>
      forall q :: ScanCount(pos, goal, q) > 0 && InBounds(g, q) ==> At(g, q) != Defender
  {
    PenaltyZeroIff(g, pos, goal);
  }

  /** No defender penalty exactly when no inspected cell holds a defender. */
  lemma PenaltyZeroIff(g: Grid, pos: Pos, goal: Pos)
    requires Rect(g) && InBounds(g, pos) && InBounds(g, goal)
    ensures Penalty(g, pos, goal) == 0 <==>
      forall q :: ScanCount(pos, goal, q) > 0 && InBounds(g, q) ==> At(g, q) != Defender
  {
    var clo, chi := Min(pos.col, goal.col), Max(pos.col, goal.col) + 1;
    var rlo, rhi := Min(pos.row, goal.row), Max(pos.row, goal.row) + 1;
    var rowClear := forall c :: clo <= c < chi ==> g[pos.row][c] != Defender;
    var colClear := forall r :: rlo <= r < rhi ==> g[r][goal.col] != Defender;
    var allClear := forall q :: ScanCount(pos, goal, q) > 0 && InBounds(g, q) ==> At(g, q) != Defender;
    CountRowZero(g, pos.row, clo, chi);
    CountColZero(g, goal.col, rlo, rhi);
    CountColZero(g, pos.col, rlo, rhi);
    if allClear {
      forall c | clo <= c < chi ensures g[pos.row][c] != Defender {
        assert OnRowLeg(pos, goal, Pos(pos.row, c));
        if pos.row != goal.row && pos.col == goal.col {
          assert OnColLeg(pos, goal, Pos(pos.row, c));
        }
        assert ScanCount(pos, goal, Pos(pos.row, c)) > 0;
      }
      if pos.row != goal.row {
        forall r | rlo <= r < rhi ensures g[r][goal.col] != Defender {
          assert OnColLeg(pos, goal, Pos(r, goal.col));
          assert ScanCount(pos, goal, Pos(r, goal.col)) > 0;
        }
      }
    }
    if pos.row == goal.row {
      assert rowClear ==> allClear;
    } else if pos.col == goal.col {
      assert colClear ==> allClear;
    } else {
      assert rowClear && colClear ==> allClear;
    }
  }

  /** Placing a defender on a cell that held none raises the heuristic by the
      number of times that cell is inspected: never lowers it, and raises it
      by two for the corner of an L-shaped corridor. */
  lemma HeuristicAddDefender(g: Grid, pos: Pos, goal: Pos, q: Pos)
    requires Rect(g) && InBounds(g, pos) && InBounds(g, goal) && InBounds(g, q)
    requires At(g, q) != Defender
    ensures Heuristic(SetCell(g, q, Defender), pos, goal) == Heuristic(g, pos, goal) + ScanCount(pos, goal, q)
  {
    PenaltyAddDefender(g, pos, goal, q);
  }

  lemma PenaltyAddDefender(g: Grid, pos: Pos, goal: Pos, q: Pos)
    requires Rect(g) && InBounds(g, pos) && InBounds(g, goal) && InBounds(g, q)
    requires At(g, q) != Defender
    ensures Penalty(SetCell(g, q, Defender), pos, goal) == Penalty(g, pos, goal) + ScanCount(pos, goal, q)
  {
    var clo, chi := Min(pos.col, goal.col), Max(pos.col, goal.col) + 1;
    var rlo, rhi := Min(pos.row, goal.row), Max(pos.row, goal.row) + 1;
    var g' := SetCell(g, q, Defender);
    ScanCountLegs(pos, goal, q);
    if pos.row == goal.row {
      CountRowAddDefender(g, q, pos.row, clo, chi);
      assert Penalty(g', pos, goal) == CountRow(g', pos.row, clo, chi);
    } else if pos.col == goal.col {
      CountColAddDefender(g, q, goal.col, rlo, rhi);
      assert Penalty(g', pos, goal) == CountCol(g', goal.col, rlo, rhi);
    } else {
      CountRowAddDefender(g, q, pos.row, clo, chi);
      CountColAddDefender(g, q, goal.col, rlo, rhi);
      assert Penalty(g', pos, goal) == CountRow(g', pos.row, clo, chi) + CountCol(g', goal.col, rlo, rhi);
    }
  }

  /** ScanCount written leg by leg, with the legs' half-open ranges. */
  lemma ScanCountLegs(pos: Pos, goal: Pos, q: Pos)
    ensures
      var onRow := if q.row == pos.row && Min(pos.col, goal.col) <= q.col < Max(pos.col, goal.col) + 1 then 1 else 0;
      var onCol := if q.col == goal.col && Min(pos.row, goal.row) <= q.row < Max(pos.row, goal.row) + 1 then 1 else 0;
      ScanCount(pos, goal, q) == if pos.row == goal.row then onRow else if pos.col == goal.col then onCol else onRow + onCol
  {
  }

  lemma {:induction false} CountRowAddDefender(g: Grid, q: Pos, r: int, lo: int, hi: int)
    requires Rect(g) && InBounds(g, q) && At(g, q) != Defender
    requires 0 <= r < |g| && 0 <= lo && hi <= Width(g)
    ensures CountRow(SetCell(g, q, Defender), r, lo, hi)
         == CountRow(g, r, lo, hi) + (if q.row == r && lo <= q.col < hi then 1 else 0)
    decreases hi - lo
  {
    if lo < hi {
      CountRowAddDefender(g, q, r, lo, hi - 1);
      assert SetCell(g, q, Defender)[r][hi - 1] == At(SetCell(g, q, Defender), Pos(r, hi - 1));
    }
  }

  lemma {:induction false} CountColAddDefender(g: Grid, q: Pos, c: int, lo: int, hi: int)
    requires Rect(g) && InBounds(g, q) && At(g, q) != Defender
    requires 0 <= c < Width(g) && 0 <= lo && hi <= |g|
    ensures CountCol(SetCell(g, q, Defender), c, lo, hi)
         == CountCol(g, c, lo, hi) + (if q.col == c && lo <= q.row < hi then 1 else 0)
    decreases hi - lo
  {
    if lo < hi {
      CountColAddDefender(g, q, c, lo, hi - 1);
      assert SetCell(g, q, Defender)[hi - 1][c] == At(SetCell(g, q, Defender), Pos(hi - 1, c));
    }
  }

  /** The loops of `calculate_heuristic` accumulating the penalty. */
  method CalculateHeuristic(pos: Pos, goal: Pos, g: Grid) returns (h: nat)
    requires Rect(g) && InBounds(g, pos) && InBounds(g, goal)
    ensures h == Heuristic(g, pos, goal)
  {
    var baseDistance := Manhattan(pos, goal);
    var penalty := 0;
    var clo, chi := Min(pos.col, goal.col), Max(pos.col, goal.col) + 1;
    var rlo, rhi := Min(pos.row, goal.row), Max(pos.row, goal.row) + 1;
    if pos.row == goal.row {
      for c := clo to chi
        invariant penalty == CountRow(g, pos.row, clo, c)
      {
        if g[pos.row][c] == Defender { penalty := penalty + 1; }
      }
    } else if pos.col == goal.col {
      for r := rlo to rhi
        invariant penalty == CountCol(g, pos.col, rlo, r)
      {
        if g[r][pos.col] == Defender { penalty := penalty + 1; }
      }
    } else {
      for c := clo to chi
        invariant penalty == CountRow(g, pos.row, clo, c)
      {
        if g[pos.row][c] == Defender { penalty := penalty + 1; }
      }
      for r := rlo to rhi
        invariant penalty == CountRow(g, pos.row, clo, chi) + CountCol(g, goal.col, rlo, r)
      {
        if g[r][goal.col] == Defender { penalty := penalty + 1; }
      }
    }
    h := baseDistance + penalty;
  }

  // -------------------------------------------------------- passability

  /** `is_valid_neighbor`: only empty and ring cells can be entered, so
      defenders, attackers and the ball carrier are all obstacles. */
  predicate IsValidNeighbor(p: Pos, g: Grid)
    requires Rect(g) && InBounds(g, p)
  {
    At(g, p) == Empty || At(g, p) == Ring
  }

  /** On a cell holding one of the five game symbols, a step may enter
      exactly when no player stands there. */
  lemma ValidNeighborObstacles(g: Grid, p: Pos)
    requires Rect(g) && InBounds(g, p)
    requires At(g, p) == Empty || At(g, p) == Attacker || At(g, p) == BallCarrier
          || At(g, p) == Defender || At(g, p) == Ring
    ensures IsValidNeighbor(p, g) <==> At(g, p) != Attacker && At(g, p) != BallCarrier && At(g, p) != Defender
  {
  }

  // ------------------------------------------------------ search results

  predicate Distinct(s: seq<Pos>) {
    forall a, b :: 0 <= a < b < |s| ==> s[a] != s[b]
  }

  /** A well-formed search result: from start to goal through orthogonal
      steps, every entered cell passable, no position twice. */
  predicate ValidPath(g: Grid, start: Pos, goal: Pos, path: seq<Pos>) {
    && Rect(g)
    && |path| > 0 && path[0] == start && path[|path| - 1] == goal
    && (forall k :: 0 <= k < |path| ==> InBounds(g, path[k]))
    && (forall k :: 0 < k < |path| ==> Manhattan(path[k - 1], path[k]) == 1 && IsValidNeighbor(path[k], g))
    && Distinct(path)
  }

  /** A walk of orthogonal steps is at least as long as the Manhattan
      distance between its ends. */
  lemma {:induction false} WalkLength(path: seq<Pos>)
    requires |path| > 0
    requires forall k :: 0 < k < |path| ==> Manhattan(path[k - 1], path[k]) == 1
    ensures Manhattan(path[0], path[|path| - 1]) <= |path| - 1
  {
    if |path| > 1 {
      WalkLength(path[..|path| - 1]);
      ManhattanTriangle(path[0], path[|path| - 2], path[|path| - 1]);
    }
  }

  /** No valid path leads from start to goal. */
  ghost predicate NoPath(g: Grid, start: Pos, goal: Pos) {
    forall path :: !ValidPath(g, start, goal, path)
  }

  /** What the cost returned by the search guarantees on its own: at least
      the Manhattan distance, zero from the goal itself, one from a passable
      goal next door, infinite towards an impassable goal, and infinite only
      when no valid path reaches the goal. */
  ghost predicate ReachCost(g: Grid, start: Pos, goal: Pos, c: Cost)
    requires Rect(g) && InBounds(g, goal)
  {
    && (c.Finite? ==> c.n >= Manhattan(start, goal))
    && (start == goal ==> c == Finite(0))
    && (start != goal && Manhattan(start, goal) == 1 && IsValidNeighbor(goal, g) ==> c == Finite(1))
    && (start != goal && !IsValidNeighbor(goal, g) ==> c == Inf)
    && (c == Inf ==> NoPath(g, start, goal))
  }

  /** The source's terminal test `cost <= 1` (infinity compares greater). */
  predicate WithinOne(c: Cost) {
    c.Finite? && c.n <= 1
  }

  /** A search cost is at most one exactly when start is the goal or a
      passable goal is adjacent to it. */
  lemma WithinOneIffNear(g: Grid, start: Pos, goal: Pos, c: Cost)
    requires Rect(g) && InBounds(g, goal) && ReachCost(g, start, goal, c)
    ensures WithinOne(c) <==> start == goal || (Manhattan(start, goal) == 1 && IsValidNeighbor(goal, g))
  {
  }

  /** What a search's cost alone tells its caller: the bounds of ReachCost
      and, for a finite cost, that a valid path of that many steps exists. */
  ghost predicate SearchCost(g: Grid, start: Pos, goal: Pos, c: Cost)
    requires Rect(g) && InBounds(g, goal)
  {
    && ReachCost(g, start, goal, c)
    && (c.Finite? ==> exists path :: ValidPath(g, start, goal, path) && |path| == c.n + 1)
  }

  /** A search result's path is the witness its cost needs. */
  lemma ResultCost(g: Grid, start: Pos, goal: Pos, path: seq<Pos>, cost: Cost)
    requires Rect(g) && InBounds(g, goal)
    requires path == [] <==> cost == Inf
    requires path != [] ==> ValidPath(g, start, goal, path) && cost == Finite(|path| - 1)
    requires ReachCost(g, start, goal, cost)
    ensures SearchCost(g, start, goal, cost)
  {
  }

  // ----------------------------------------------------- the node arena

  /** Every node but the first has a parent allocated before it. */
  predicate ParentsBefore(arena: seq<Node>) {
    forall i :: 0 <= i < |arena| ==>
      (i == 0 <==> arena[i].parent.None?) && (arena[i].parent.Some? ==> arena[i].parent.value < i)
  }

  /** The positions from the root to node i along parent links: what walking
      `node.parent` and reversing yields. */
  ghost function Chain(arena: seq<Node>, i: nat): seq<Pos>
    requires ParentsBefore(arena) && i < |arena|
    decreases i
  {
    match arena[i].parent
    case None => [arena[i].pos]
    case Some(j) => Chain(arena, j) + [arena[i].pos]
  }

  /** The search's node arena: the root is start with cost 0, every other
      node steps from its parent onto a passable neighbour at one more cost,
      and every node carries the heuristic of its position. */
  ghost predicate ArenaWf(g: Grid, start: Pos, goal: Pos, arena: seq<Node>) {
    && Rect(g) && InBounds(g, goal)
    && |arena| > 0 && ParentsBefore(arena)
    && arena[0].pos == start && arena[0].g == 0
    && (forall i :: 0 <= i < |arena| ==>
          InBounds(g, arena[i].pos) && arena[i].h == Heuristic(g, arena[i].pos, goal))
    && (forall i :: 0 < i < |arena| ==> StepsFromParent(g, arena, i))
  }

  /** Node i is one passable orthogonal step from its parent, at one more
      cost. (Kept as a predicate of its own so that facts about a node do
      not unfold into facts about its ancestors.) */
  ghost predicate StepsFromParent(g: Grid, arena: seq<Node>, i: nat)
    requires Rect(g) && ParentsBefore(arena) && 0 < i < |arena|
  {
    var j := arena[i].parent.value;
    && arena[i].g == arena[j].g + 1
    && Manhattan(arena[j].pos, arena[i].pos) == 1
    && InBounds(g, arena[i].pos) && IsValidNeighbor(arena[i].pos, g)
  }

  /** The chain of any node is a walk from start to it whose length matches
      the node's cost. */
  lemma {:induction false} ChainWalk(g: Grid, start: Pos, goal: Pos, arena: seq<Node>, i: nat)
    requires ArenaWf(g, start, goal, arena) && i < |arena|
    ensures |Chain(arena, i)| == arena[i].g + 1
    ensures Chain(arena, i)[0] == start && Chain(arena, i)[|Chain(arena, i)| - 1] == arena[i].pos
    ensures forall k :: 0 <= k < |Chain(arena, i)| ==> InBounds(g, Chain(arena, i)[k])
    ensures forall k :: 0 < k < |Chain(arena, i)| ==>
      Manhattan(Chain(arena, i)[k - 1], Chain(arena, i)[k]) == 1 && IsValidNeighbor(Chain(arena, i)[k], g)
    decreases i
  {
    if i > 0 {
      var j := arena[i].parent.value;
      assert StepsFromParent(g, arena, i);
      ChainWalk(g, start, goal, arena, j);
    }
  }

  /** `rank` numbers the closed positions in the order they were closed.
      Every parent was closed before its child's position was, if ever. */
  ghost predicate Ranked(arena: seq<Node>, rank: map<Pos, nat>)
    requires ParentsBefore(arena)
  {
    && (forall x :: x in rank ==> rank[x] < |rank|)
    && (forall i :: 0 < i < |arena| ==> RankedLink(arena, rank, i))
  }

  /** The parent of node i is closed, and before node i's position if that
      is closed too. */
  ghost predicate RankedLink(arena: seq<Node>, rank: map<Pos, nat>, i: nat)
    requires ParentsBefore(arena) && 0 < i < |arena|
  {
    var p := arena[arena[i].parent.value].pos;
    p in rank && (arena[i].pos in rank ==> rank[p] < rank[arena[i].pos])
  }

  /** Closing a new position gives it the next rank. */
  lemma CloseRanked(arena: seq<Node>, rank: map<Pos, nat>, x: Pos)
    requires ParentsBefore(arena) && Ranked(arena, rank) && x !in rank
    ensures Ranked(arena, rank[x := |rank|])
  {
    var r' := rank[x := |rank|];
    forall i | 0 < i < |arena| ensures RankedLink(arena, r', i) {
      assert RankedLink(arena, rank, i);
    }
  }

  /** Ranks strictly increase along a chain, so no chain repeats a position:
      the root-to-node path of `astar_pathfinding` is simple. */
  lemma {:induction false} ChainDistinct(arena: seq<Node>, rank: map<Pos, nat>, i: nat)
    requires ParentsBefore(arena) && Ranked(arena, rank) && i < |arena|
    ensures Distinct(Chain(arena, i))
    ensures forall k :: 0 <= k < |Chain(arena, i)| - 1 ==> Chain(arena, i)[k] in rank
    ensures arena[i].pos in rank ==> forall k :: 0 <= k < |Chain(arena, i)| - 1 ==>
      rank[Chain(arena, i)[k]] < rank[arena[i].pos]
    decreases i
  {
    if i > 0 {
      var j := arena[i].parent.value;
      assert RankedLink(arena, rank, i);
      ChainDistinct(arena, rank, j);
      var c := Chain(arena, j);
      var pj := arena[j].pos;
      assert c[|c| - 1] == pj by {
        if j > 0 {
          assert c == Chain(arena, arena[j].parent.value) + [pj];
        }
      }
      assert Chain(arena, i) == c + [arena[i].pos];
      assert forall k :: 0 <= k < |c| ==> c[k] in rank && rank[c[k]] <= rank[pj];
      forall a, b | 0 <= a < b < |c| + 1 ensures (c + [arena[i].pos])[a] != (c + [arena[i].pos])[b] {
        if b == |c| {
          assert c[a] in rank;
        }
      }
    }
  }

  /** Every frontier entry names a node of the arena. */
  predicate FrontierOk(arena: seq<Node>, open: seq<nat>) {
    forall j :: 0 <= j < |open| ==> open[j] < |arena|
  }

  /** Entry k of the frontier is one `heappop` may return: no entry is
      strictly smaller. Entries equal in both f and g are not ordered. */
  predicate IsMinEntry(arena: seq<Node>, open: seq<nat>, k: nat)
    requires FrontierOk(arena, open)
  {
    k < |open| && forall j :: 0 <= j < |open| ==> !NodeLess(arena[open[j]], arena[open[k]])
  }

  lemma {:induction false} MinEntryExists(arena: seq<Node>, open: seq<nat>)
    requires FrontierOk(arena, open) && |open| > 0
    ensures exists k: nat :: IsMinEntry(arena, open, k)
  {
    if |open| == 1 {
      NodeOrder(arena[open[0]], arena[open[0]], arena[open[0]]);
      assert IsMinEntry(arena, open, 0);
    } else {
      var front := open[..|open| - 1];
      MinEntryExists(arena, front);
      var k: nat :| IsMinEntry(arena, front, k);
      var last := arena[open[|open| - 1]];
      if NodeLess(last, arena[open[k]]) {
        forall j | 0 <= j < |open| ensures !NodeLess(arena[open[j]], last) {
          NodeOrder(arena[open[j]], last, arena[open[k]]);
          if j < |open| - 1 {
            assert open[j] == front[j];
          }
        }
        assert IsMinEntry(arena, open, |open| - 1);
      } else {
        forall j | 0 <= j < |open| ensures !NodeLess(arena[open[j]], arena[open[k]]) {
          if j < |open| - 1 {
            assert open[j] == front[j];
          }
        }
        assert IsMinEntry(arena, open, k);
      }
    }
  }

  /** The goal's first push (cost one) is still waiting in the frontier. */
  ghost predicate GoalQueued(arena: seq<Node>, open: seq<nat>, bestG: map<Pos, nat>, goal: Pos)
    requires FrontierOk(arena, open)
  {
    goal in bestG && bestG[goal] == 1
    && exists j :: 0 <= j < |open| && arena[open[j]].pos == goal && arena[open[j]].g == 1
  }

  /** Positions one step apart. */
  ghost predicate Adjacent(a: Pos, b: Pos) {
    Manhattan(a, b) == 1
  }

  /** Every passable neighbour of a closed position is closed or has a best
      known cost: expanding a position records all its enterable neighbours. */
  ghost predicate ClosedCovered(g: Grid, closed: set<Pos>, bestG: map<Pos, nat>)
    requires Rect(g)
  {
    forall c, nb :: c in closed && Adjacent(c, nb) && Enterable(g, nb) ==> nb in closed || nb in bestG
  }

  /** A cell of the grid that a step may enter, as `is_valid_neighbor` decides. */
  ghost predicate Enterable(g: Grid, p: Pos) {
    Rect(g) && InBounds(g, p) && (At(g, p) == Empty || At(g, p) == Ring)
  }

  /** Every position with a best known cost that is not closed yet still has
      a frontier entry at that cost. */
  ghost predicate BestQueued(arena: seq<Node>, open: seq<nat>, closed: set<Pos>, bestG: map<Pos, nat>)
    requires FrontierOk(arena, open)
  {
    forall p {:trigger bestG[p]} :: p in bestG && p !in closed ==>
      exists j :: 0 <= j < |open| && arena[open[j]].pos == p && arena[open[j]].g == bestG[p]
  }

  /** Pushing a node at a new best cost for its position keeps every
      unclosed best cost queued. */
  lemma BestQueuedPush(arena: seq<Node>, open: seq<nat>, closed: set<Pos>, bestG: map<Pos, nat>, node: Node)
    requires FrontierOk(arena, open) && BestQueued(arena, open, closed, bestG)
    ensures FrontierOk(arena + [node], open + [|arena|])
    ensures BestQueued(arena + [node], open + [|arena|], closed, bestG[node.pos := node.g])
  {
    var a', o', b' := arena + [node], open + [|arena|], bestG[node.pos := node.g];
    forall p | p in b' && p !in closed
      ensures exists j :: 0 <= j < |o'| && a'[o'[j]].pos == p && a'[o'[j]].g == b'[p]
    {
      if p == node.pos {
        assert a'[o'[|open|]] == node;
      } else {
        var j :| 0 <= j < |open| && arena[open[j]].pos == p && arena[open[j]].g == bestG[p];
        assert o'[j] == open[j] && a'[open[j]] == arena[open[j]];
      }
    }
  }

  /** Popping entry k keeps every unclosed best cost queued, provided the
      entry is not the one that queues its position's best cost, or that
      position is closed by now. */
  lemma PopQueued(arena: seq<Node>, open: seq<nat>, closed: set<Pos>, closed': set<Pos>, bestG: map<Pos, nat>, k: nat)
    requires FrontierOk(arena, open) && k < |open| && closed <= closed'
    requires BestQueued(arena, open, closed, bestG)
    requires arena[open[k]].pos in closed' ||
             !(arena[open[k]].pos in bestG && arena[open[k]].g == bestG[arena[open[k]].pos])
    ensures FrontierOk(arena, RemoveAt(open, k))
    ensures BestQueued(arena, RemoveAt(open, k), closed', bestG)
  {
    var r := RemoveAt(open, k);
    forall p | p in bestG && p !in closed'
      ensures exists j :: 0 <= j < |r| && arena[r[j]].pos == p && arena[r[j]].g == bestG[p]
    {
      var j :| 0 <= j < |open| && arena[open[j]].pos == p && arena[open[j]].g == bestG[p];
      if j < k {
        assert r[j] == open[j];
      } else {
        assert j != k;
        assert r[j - 1] == open[j];
      }
    }
  }

  /** Once nothing is queued, every position with a best cost is closed, so a
      walk from a closed start through passable cells never leaves the
      closed set. */
  lemma {:induction false} WalkStaysClosed(g: Grid, start: Pos, goal: Pos, closed: set<Pos>, bestG: map<Pos, nat>,
                                           path: seq<Pos>, n: nat)
    requires Rect(g) && ClosedCovered(g, closed, bestG) && bestG.Keys <= closed
    requires ValidPath(g, start, goal, path) && start in closed && n < |path|
    ensures path[n] in closed
  {
    if n > 0 {
      WalkStaysClosed(g, start, goal, closed, bestG, path, n - 1);
      assert Adjacent(path[n - 1], path[n]) && IsValidNeighbor(path[n], g);
    }
  }

  /** The start and the goal are distinct neighbours and the goal is enterable. */
  predicate NextDoor(g: Grid, start: Pos, goal: Pos)
    requires Rect(g) && InBounds(g, goal)
  {
    start != goal && Manhattan(start, goal) == 1 && IsValidNeighbor(goal, g)
  }

  function AllCells(g: Grid): set<Pos> {
    set r, c | 0 <= r < |g| && 0 <= c < Width(g) :: Pos(r, c)
  }

  // ---------------------------------------------------------- the search

  /** Appending a node that steps from a closed node onto a passable,
      unclosed neighbour keeps the arena well formed and ranked. */
  lemma AppendNode(g: Grid, start: Pos, goal: Pos, arena: seq<Node>, rank: map<Pos, nat>, cur: nat, node: Node)
    requires ArenaWf(g, start, goal, arena) && Ranked(arena, rank)
    requires cur < |arena| && arena[cur].pos in rank
    requires node.parent == Some(cur) && node.pos !in rank && InBounds(g, node.pos)
    requires node.g == arena[cur].g + 1 && Manhattan(arena[cur].pos, node.pos) == 1
    requires IsValidNeighbor(node.pos, g) && node.h == Heuristic(g, node.pos, goal)
    ensures ArenaWf(g, start, goal, arena + [node]) && Ranked(arena + [node], rank)
  {
    var a' := arena + [node];
    assert ParentsBefore(a');
    forall i | 0 < i < |a'| ensures StepsFromParent(g, a', i) && RankedLink(a', rank, i) {
      if i < |arena| {
        assert StepsFromParent(g, arena, i) && RankedLink(arena, rank, i);
      }
    }
  }

  /** A queued first push of the goal stays queued while the arena and the
      frontier only grow and the goal's best cost stays one. */
  lemma QueuedStable(arena: seq<Node>, open: seq<nat>, bestG: map<Pos, nat>, goal: Pos,
                     arena': seq<Node>, open': seq<nat>, bestG': map<Pos, nat>)
    requires FrontierOk(arena, open) && FrontierOk(arena', open')
    requires |arena'| >= |arena| && arena'[..|arena|] == arena
    requires |open'| >= |open| && open'[..|open|] == open
    requires goal in bestG' && bestG'[goal] == 1
    requires GoalQueued(arena, open, bestG, goal)
    ensures GoalQueued(arena', open', bestG', goal)
  {
    var j :| 0 <= j < |open| && arena[open[j]].pos == goal && arena[open[j]].g == 1;
    assert open'[j] == open[j];
    assert arena'[open[j]] == arena[open[j]];
  }

  /** The node store and the frontier are well formed and ranked. */
  ghost predicate Store(g: Grid, start: Pos, goal: Pos, arena: seq<Node>, open: seq<nat>, rank: map<Pos, nat>) {
    ArenaWf(g, start, goal, arena) && FrontierOk(arena, open) && Ranked(arena, rank)
  }

  /** One neighbour of the expansion step: when the neighbour is not closed,
      is passable and its cost through node `cur` beats its best known cost,
      that cost is recorded and a node for it is pushed; otherwise nothing
      changes. */
  method Relax(start: Pos, goal: Pos, g: Grid, arena: seq<Node>, open: seq<nat>,
               closed: set<Pos>, bestG: map<Pos, nat>, cur: nat, nb: Pos, ghost rank: map<Pos, nat>)
    returns (arena': seq<Node>, open': seq<nat>, bestG': map<Pos, nat>)
    requires Store(g, start, goal, arena, open, rank) && closed == rank.Keys
    requires cur < |arena| && arena[cur].pos in closed
    requires InBounds(g, nb) && Manhattan(arena[cur].pos, nb) == 1
    ensures Store(g, start, goal, arena', open', rank)
    ensures if nb !in closed && IsValidNeighbor(nb, g) && (nb !in bestG || arena[cur].g + 1 < bestG[nb])
            then bestG' == bestG[nb := arena[cur].g + 1]
              && arena' == arena + [Node(nb, arena[cur].g + 1, Heuristic(g, nb, goal), Some(cur))]
              && open' == open + [|arena|]
            else arena' == arena && open' == open && bestG' == bestG
    ensures |arena'| >= |arena| && arena'[..|arena|] == arena && |open'| >= |open| && open'[..|open|] == open
    ensures goal in bestG && bestG[goal] == 1 ==> goal in bestG' && bestG'[goal] == 1
    ensures nb != goal ==> (goal in bestG' <==> goal in bestG)
    ensures nb == goal && goal !in closed && IsValidNeighbor(goal, g) && goal !in bestG && arena[cur].g == 0 ==>
      GoalQueued(arena', open', bestG', goal)
    ensures bestG.Keys <= bestG'.Keys
    ensures nb !in closed && IsValidNeighbor(nb, g) ==> nb in bestG'
    ensures BestQueued(arena, open, closed, bestG) ==> BestQueued(arena', open', closed, bestG')
  {
    arena', open', bestG' := arena, open, bestG;
    var current := arena[cur];
    if nb !in closed && IsValidNeighbor(nb, g) {
      var tentative := current.g + 1;
      if nb !in bestG || tentative < bestG[nb] {
        bestG' := bestG[nb := tentative];
        var h := CalculateHeuristic(nb, goal, g);
        var node := Node(nb, tentative, h, Some(cur));
        AppendNode(g, start, goal, arena, rank, cur, node);
        if BestQueued(arena, open, closed, bestG) {
          BestQueuedPush(arena, open, closed, bestG, node);
        }
        arena' := arena + [node];
        open' := open + [|arena|];
        assert arena'[open'[|open'| - 1]] == node;
      }
    }
  }

  /** The store after relaxing the neighbours `ns`, first to last, through
      node `cur` of cost `cg`: a neighbour that is not closed, is passable
      and whose cost `cg + 1` beats its best known cost gets that best cost
      and a pushed node; any other neighbour changes nothing. */
  function RelaxAll(g: Grid, goal: Pos, closed: set<Pos>, cur: nat, cg: nat,
                    arena: seq<Node>, open: seq<nat>, bestG: map<Pos, nat>, ns: seq<Pos>)
    : (seq<Node>, seq<nat>, map<Pos, nat>)
    requires Rect(g) && InBounds(g, goal) && forall nb :: nb in ns ==> InBounds(g, nb)
    decreases |ns|
  {
    if ns == [] then (arena, open, bestG)
    else
      var nb := ns[|ns| - 1];
      var (a, o, b) := RelaxAll(g, goal, closed, cur, cg, arena, open, bestG, ns[..|ns| - 1]);
      if nb !in closed && IsValidNeighbor(nb, g) && (nb !in b || cg + 1 < b[nb])
      then (a + [Node(nb, cg + 1, Heuristic(g, nb, goal), Some(cur))], o + [|a|], b[nb := cg + 1])
      else (a, o, b)
  }

  /** Relaxing one more neighbour extends the fold by one step. */
  lemma RelaxAllSnoc(g: Grid, goal: Pos, closed: set<Pos>, cur: nat, cg: nat,
                     arena: seq<Node>, open: seq<nat>, bestG: map<Pos, nat>, ns: seq<Pos>, i: nat,
                     a: seq<Node>, o: seq<nat>, b: map<Pos, nat>, a': seq<Node>, o': seq<nat>, b': map<Pos, nat>)
    requires Rect(g) && InBounds(g, goal) && (forall nb :: nb in ns ==> InBounds(g, nb)) && i < |ns|
    requires (a, o, b) == RelaxAll(g, goal, closed, cur, cg, arena, open, bestG, ns[..i])
    requires if ns[i] !in closed && IsValidNeighbor(ns[i], g) && (ns[i] !in b || cg + 1 < b[ns[i]])
             then b' == b[ns[i] := cg + 1] && a' == a + [Node(ns[i], cg + 1, Heuristic(g, ns[i], goal), Some(cur))]
               && o' == o + [|a|]
             else a' == a && o' == o && b' == b
    ensures (a', o', b') == RelaxAll(g, goal, closed, cur, cg, arena, open, bestG, ns[..i + 1])
  {
    assert ns[..i + 1][..i] == ns[..i];
  }

  /** What relaxing a list of neighbours does to the store: it and the
      frontier only grow, by one pushed node and one entry at a time, and
      every pushed node steps from `cur` onto a listed, unclosed, passable
      neighbour at cost `cg + 1`. */
  lemma {:induction false} RelaxAllSpec(g: Grid, goal: Pos, closed: set<Pos>, cur: nat, cg: nat,
                                        arena: seq<Node>, open: seq<nat>, bestG: map<Pos, nat>, ns: seq<Pos>)
    requires Rect(g) && InBounds(g, goal) && forall nb :: nb in ns ==> InBounds(g, nb)
    ensures var (a, o, b) := RelaxAll(g, goal, closed, cur, cg, arena, open, bestG, ns);
      && |a| >= |arena| && a[..|arena|] == arena
      && |o| >= |open| && o[..|open|] == open
      && |a| - |arena| == |o| - |open|
      && (forall j :: |open| <= j < |o| ==> o[j] == |arena| + (j - |open|))
      && (forall i :: |arena| <= i < |a| ==>
            && a[i].parent == Some(cur) && a[i].g == cg + 1 && a[i].pos in ns
            && a[i].pos !in closed && IsValidNeighbor(a[i].pos, g))
  {
    if ns != [] {
      RelaxAllSpec(g, goal, closed, cur, cg, arena, open, bestG, ns[..|ns| - 1]);
    }
  }

  /** What relaxing a list of neighbours does to the best costs: none is
      dropped or raised; one changes only at a listed, unclosed, passable
      neighbour, to `cg + 1`; and every such neighbour ends with one. */
  lemma {:induction false} RelaxAllBest(g: Grid, goal: Pos, closed: set<Pos>, cur: nat, cg: nat,
                                        arena: seq<Node>, open: seq<nat>, bestG: map<Pos, nat>, ns: seq<Pos>)
    requires Rect(g) && InBounds(g, goal) && forall nb :: nb in ns ==> InBounds(g, nb)
    ensures var (a, o, b) := RelaxAll(g, goal, closed, cur, cg, arena, open, bestG, ns);
      && (forall p :: p in bestG ==> p in b && b[p] <= bestG[p])
      && (forall p :: p in b ==>
            (p in bestG && b[p] == bestG[p])
            || (p in ns && p !in closed && IsValidNeighbor(p, g) && b[p] == cg + 1))
      && (forall nb :: nb in ns && nb !in closed && IsValidNeighbor(nb, g) ==> nb in b)
  {
    if ns != [] {
      RelaxAllBest(g, goal, closed, cur, cg, arena, open, bestG, ns[..|ns| - 1]);
    }
  }

  /** The expansion step of `astar_pathfinding`: every in-bounds neighbour of
      the popped node is relaxed in the order `get_valid_neighbors` lists
      them, so the result is `RelaxAll` over `Neighbors`. */
  method ExpandNode(start: Pos, goal: Pos, g: Grid, arena: seq<Node>, open: seq<nat>,
                    closed: set<Pos>, bestG: map<Pos, nat>, cur: nat, ghost rank: map<Pos, nat>)
    returns (arena': seq<Node>, open': seq<nat>, bestG': map<Pos, nat>)
    requires ArenaWf(g, start, goal, arena) && FrontierOk(arena, open)
    requires Ranked(arena, rank) && closed == rank.Keys
    requires cur < |arena| && arena[cur].pos in closed
    ensures ArenaWf(g, start, goal, arena') && FrontierOk(arena', open') && Ranked(arena', rank)
    ensures (arena', open', bestG') ==
      RelaxAll(g, goal, closed, cur, arena[cur].g, arena, open, bestG, Neighbors(g, arena[cur].pos))
  {
    arena', open', bestG' := arena, open, bestG;
    var current := arena[cur];
    var neighbors := GetValidNeighbors(current.pos, g);
    for i := 0 to |neighbors|
      invariant Store(g, start, goal, arena', open', rank)
      invariant cur < |arena'| && arena'[cur] == current
      invariant (arena', open', bestG') ==
        RelaxAll(g, goal, closed, cur, current.g, arena, open, bestG, neighbors[..i])
    {
      ghost var arena0, open0, bestG0 := arena', open', bestG';
      arena', open', bestG' := Relax(start, goal, g, arena', open', closed, bestG', cur, neighbors[i], rank);
      RelaxAllSnoc(g, goal, closed, cur, current.g, arena, open, bestG, neighbors, i,
                   arena0, open0, bestG0, arena', open', bestG');
    }
    assert neighbors[..|neighbors|] == neighbors;
  }

  /** Every new best cost the relaxation records has a pushed frontier entry
      at that cost. */
  lemma {:induction false} RelaxAllPushed(g: Grid, goal: Pos, closed: set<Pos>, cur: nat, cg: nat,
                                          arena: seq<Node>, open: seq<nat>, bestG: map<Pos, nat>, ns: seq<Pos>)
    requires Rect(g) && InBounds(g, goal) && (forall nb :: nb in ns ==> InBounds(g, nb))
    requires FrontierOk(arena, open)
    ensures var (a, o, b) := RelaxAll(g, goal, closed, cur, cg, arena, open, bestG, ns);
      && FrontierOk(a, o)
      && forall p {:trigger b[p]} :: p in b && !(p in bestG && b[p] == bestG[p]) ==>
           exists j :: |open| <= j < |o| && a[o[j]].pos == p && a[o[j]].g == b[p]
  {
    if ns != [] {
      var ns0 := ns[..|ns| - 1];
      RelaxAllPushed(g, goal, closed, cur, cg, arena, open, bestG, ns0);
      RelaxAllSpec(g, goal, closed, cur, cg, arena, open, bestG, ns0);
      var (a, o, b) := RelaxAll(g, goal, closed, cur, cg, arena, open, bestG, ns0);
      var nb := ns[|ns| - 1];
      if nb !in closed && IsValidNeighbor(nb, g) && (nb !in b || cg + 1 < b[nb]) {
        var node := Node(nb, cg + 1, Heuristic(g, nb, goal), Some(cur));
        var a', o', b' := a + [node], o + [|a|], b[nb := cg + 1];
        assert a'[o'[|o|]] == node;
        forall p | p in b' && !(p in bestG && b'[p] == bestG[p])
          ensures exists j :: |open| <= j < |o'| && a'[o'[j]].pos == p && a'[o'[j]].g == b'[p]
        {
          if p != nb {
            var j :| |open| <= j < |o| && a[o[j]].pos == p && a[o[j]].g == b[p];
            assert o'[j] == o[j] && a'[o[j]] == a[o[j]];
          }
        }
      }
    }
  }

  /** Relaxing keeps every unclosed best cost queued. */
  lemma RelaxAllQueued(g: Grid, goal: Pos, closed: set<Pos>, cur: nat, cg: nat,
                       arena: seq<Node>, open: seq<nat>, bestG: map<Pos, nat>, ns: seq<Pos>)
    requires Rect(g) && InBounds(g, goal) && (forall nb :: nb in ns ==> InBounds(g, nb))
    requires FrontierOk(arena, open) && BestQueued(arena, open, closed, bestG)
    ensures var (a, o, b) := RelaxAll(g, goal, closed, cur, cg, arena, open, bestG, ns);
      FrontierOk(a, o) && BestQueued(a, o, closed, b)
  {
    RelaxAllSpec(g, goal, closed, cur, cg, arena, open, bestG, ns);
    RelaxAllBest(g, goal, closed, cur, cg, arena, open, bestG, ns);
    RelaxAllPushed(g, goal, closed, cur, cg, arena, open, bestG, ns);
    var (a, o, b) := RelaxAll(g, goal, closed, cur, cg, arena, open, bestG, ns);
    forall p | p in b && p !in closed
      ensures exists j :: 0 <= j < |o| && a[o[j]].pos == p && a[o[j]].g == b[p]
    {
      if p in bestG && b[p] == bestG[p] {
        var j :| 0 <= j < |open| && arena[open[j]].pos == p && arena[open[j]].g == bestG[p];
        assert o[j] == open[j] && a[open[j]] == arena[open[j]];
      }
    }
  }

  /** Expanding x leaves every enterable neighbour of x closed or with a
      best cost, and drops no best cost. */
  lemma ExpandCovers(g: Grid, goal: Pos, closed: set<Pos>, cur: nat, cg: nat, x: Pos,
                     arena: seq<Node>, open: seq<nat>, bestG: map<Pos, nat>)
    requires Rect(g) && InBounds(g, goal)
    ensures var (a, o, b) := RelaxAll(g, goal, closed, cur, cg, arena, open, bestG, Neighbors(g, x));
      && bestG.Keys <= b.Keys
      && forall nb :: InBounds(g, nb) && Adjacent(x, nb) && IsValidNeighbor(nb, g) ==> nb in closed || nb in b
  {
    var ns := Neighbors(g, x);
    RelaxAllBest(g, goal, closed, cur, cg, arena, open, bestG, ns);
    var (a, o, b) := RelaxAll(g, goal, closed, cur, cg, arena, open, bestG, ns);
    forall j | 0 <= j < |ns| ensures Handled(g, closed, b, ns[j]) {
      assert ns[j] in ns;
    }
    AllNeighborsHandled(g, closed, b, x, ns);
  }

  /** With the goal next door, expanding the start at cost zero queues the
      goal's first push at cost one, and a push already queued stays so. */
  lemma ExpandQueuesGoal(g: Grid, start: Pos, goal: Pos, arena: seq<Node>, open: seq<nat>,
                         closed: set<Pos>, bestG: map<Pos, nat>, cur: nat)
    requires ArenaWf(g, start, goal, arena) && FrontierOk(arena, open)
    requires cur < |arena| && goal !in closed && NextDoor(g, start, goal)
    ensures var (a, o, b) :=
        RelaxAll(g, goal, closed, cur, arena[cur].g, arena, open, bestG, Neighbors(g, arena[cur].pos));
      && FrontierOk(a, o)
      && (GoalQueued(arena, open, bestG, goal) ==> GoalQueued(a, o, b, goal))
      && (arena[cur].pos == start && arena[cur].g == 0 && goal !in bestG ==> GoalQueued(a, o, b, goal))
  {
    var x, cg, ns := arena[cur].pos, arena[cur].g, Neighbors(g, arena[cur].pos);
    RelaxAllSpec(g, goal, closed, cur, cg, arena, open, bestG, ns);
    RelaxAllBest(g, goal, closed, cur, cg, arena, open, bestG, ns);
    RelaxAllPushed(g, goal, closed, cur, cg, arena, open, bestG, ns);
    var (a, o, b) := RelaxAll(g, goal, closed, cur, cg, arena, open, bestG, ns);
    if GoalQueued(arena, open, bestG, goal) {
      QueuedStable(arena, open, bestG, goal, a, o, b);
    }
    if x == start && cg == 0 && goal !in bestG {
      assert goal in ns;
      var j :| |open| <= j < |o| && a[o[j]].pos == goal && a[o[j]].g == b[goal];
    }
  }

  /** Once every listed neighbour of x is handled, every enterable cell next
      to x is closed or has a best cost. */
  lemma AllNeighborsHandled(g: Grid, closed: set<Pos>, bestG: map<Pos, nat>, x: Pos, ns: seq<Pos>)
    requires Rect(g) && ns == Neighbors(g, x)
    requires forall j :: 0 <= j < |ns| ==> Handled(g, closed, bestG, ns[j])
    ensures forall nb :: InBounds(g, nb) && Adjacent(x, nb) && IsValidNeighbor(nb, g) ==> nb in closed || nb in bestG
  {
    forall nb | InBounds(g, nb) && Adjacent(x, nb) && IsValidNeighbor(nb, g)
      ensures nb in closed || nb in bestG
    {
      assert nb in ns;
      var j :| 0 <= j < |ns| && ns[j] == nb;
      assert Handled(g, closed, bestG, ns[j]);
    }
  }

  /** A neighbour the expansion has dealt with: closed, given a best cost,
      or not enterable. */
  ghost predicate Handled(g: Grid, closed: set<Pos>, bestG: map<Pos, nat>, nb: Pos) {
    nb in closed || nb in bestG || !(Rect(g) && InBounds(g, nb) && IsValidNeighbor(nb, g))
  }

  /** The frontier after `heappop` took entry k: one occurrence fewer of
      that entry, the others in their order. */
  function RemoveAt(s: seq<nat>, k: nat): (r: seq<nat>)
    requires k < |s|
    ensures |r| == |s| - 1 && multiset(r) + multiset{s[k]} == multiset(s)
    ensures forall j :: 0 <= j < |r| ==> r[j] == if j < k then s[j] else s[j + 1]
  {
    assert s == s[..k] + [s[k]] + s[k + 1..];
    s[..k] + s[k + 1..]
  }

  /** Popping keeps every remaining entry valid, and a queued first push of
      the goal stays queued unless it is the entry popped. */
  lemma PopKeeps(arena: seq<Node>, open: seq<nat>, bestG: map<Pos, nat>, goal: Pos, k: nat)
    requires FrontierOk(arena, open) && k < |open|
    ensures FrontierOk(arena, RemoveAt(open, k))
    ensures GoalQueued(arena, open, bestG, goal) && (arena[open[k]].pos != goal || arena[open[k]].g != 1) ==>
      GoalQueued(arena, RemoveAt(open, k), bestG, goal)
  {
    var r := RemoveAt(open, k);
    if GoalQueued(arena, open, bestG, goal) && (arena[open[k]].pos != goal || arena[open[k]].g != 1) {
      var j :| 0 <= j < |open| && arena[open[j]].pos == goal && arena[open[j]].g == 1;
      if j < k {
        assert r[j] == open[j];
      } else {
        assert r[j - 1] == open[j];
      }
    }
  }

  /** At the goal itself the heuristic is zero unless a defender stands there. */
  lemma HeuristicAtGoal(g: Grid, goal: Pos)
    requires Rect(g) && InBounds(g, goal) && At(g, goal) != Defender
    ensures Heuristic(g, goal, goal) == 0
  {
    HeuristicExact(g, goal, goal);
    forall q | ScanCount(goal, goal, q) > 0 && InBounds(g, q) ensures At(g, q) != Defender {
      assert q == goal;
    }
  }

  /** With the goal one passable step away and its push queued, the minimum
      of the frontier is a node at the goal with cost one: nothing else can
      have f below 1, and the tie at f == 1 goes to the larger g. */
  lemma NextDoorPop(g: Grid, start: Pos, goal: Pos, arena: seq<Node>, open: seq<nat>, bestG: map<Pos, nat>, k: nat)
    requires ArenaWf(g, start, goal, arena) && FrontierOk(arena, open) && NextDoor(g, start, goal)
    requires GoalQueued(arena, open, bestG, goal) && IsMinEntry(arena, open, k)
    ensures arena[open[k]].pos == goal && arena[open[k]].g == 1
  {
    var j :| 0 <= j < |open| && arena[open[j]].pos == goal && arena[open[j]].g == 1;
    HeuristicAtGoal(g, goal);
    assert arena[open[j]].f() == 1;
    assert !NodeLess(arena[open[j]], arena[open[k]]);
    if open[k] > 0 {
      assert StepsFromParent(g, arena, open[k]);
    }
  }

  /** Path reconstruction: follow parent links from node i to the root.
      Prepending each position gives at once the reversed list the source
      builds by appending and then reversing. */
  method ReconstructPath(arena: seq<Node>, i: nat) returns (path: seq<Pos>)
    requires ParentsBefore(arena) && i < |arena|
    ensures path == Chain(arena, i)
  {
    path := [];
    var node: nat := i;
    while true
      invariant node < |arena|
      invariant Chain(arena, node) + path == Chain(arena, i)
      decreases node
    {
      path := [arena[node].pos] + path;
      match arena[node].parent {
        case None =>
          return;
        case Some(j) =>
          node := j;
      }
    }
  }

  /** Everything `astar_pathfinding` keeps true between rounds. Before the
      first round the frontier holds just the start node; after it the start
      is closed and, when the goal is one passable step away, its push with
      cost one is still queued. Throughout, every enterable neighbour of a
      closed position is closed or has a best cost, and every unclosed best
      cost still has a frontier entry. */
  ghost predicate SearchState(g: Grid, start: Pos, goal: Pos, arena: seq<Node>, open: seq<nat>,
                              closed: set<Pos>, bestG: map<Pos, nat>, rank: map<Pos, nat>)
  {
    && Rect(g) && InBounds(g, start) && InBounds(g, goal)
    && ArenaWf(g, start, goal, arena) && FrontierOk(arena, open)
    && closed <= AllCells(g) && Ranked(arena, rank) && closed == rank.Keys
    && goal !in closed
    && (closed == {} ==> open == [0] && |arena| == 1 && bestG == map[start := 0])
    && (closed != {} ==> start in closed)
    && (NextDoor(g, start, goal) && closed != {} ==> GoalQueued(arena, open, bestG, goal))
    && start in bestG && ClosedCovered(g, closed, bestG) && BestQueued(arena, open, closed, bestG)
  }

  /** A round that pops a stale entry, or one whose position is already
      closed, only shrinks the frontier. */
  lemma SkipKeeps(g: Grid, start: Pos, goal: Pos, arena: seq<Node>, open: seq<nat>,
                  closed: set<Pos>, bestG: map<Pos, nat>, rank: map<Pos, nat>, k: nat)
    requires SearchState(g, start, goal, arena, open, closed, bestG, rank) && IsMinEntry(arena, open, k)
    requires (arena[open[k]].pos in bestG && arena[open[k]].g > bestG[arena[open[k]].pos]) || arena[open[k]].pos in closed
    ensures SearchState(g, start, goal, arena, RemoveAt(open, k), closed, bestG, rank)
  {
    PopKeeps(arena, open, bestG, goal, k);
    PopQueued(arena, open, closed, closed, bestG, k);
    if NextDoor(g, start, goal) && closed != {} {
      NextDoorPop(g, start, goal, arena, open, bestG, k);
    }
  }

  /** The node popped at the goal yields, through its parent links, a valid
      simple path whose length is its cost. */
  lemma GoalReached(g: Grid, start: Pos, goal: Pos, arena: seq<Node>, open: seq<nat>,
                    closed: set<Pos>, bestG: map<Pos, nat>, rank: map<Pos, nat>, k: nat)
    requires SearchState(g, start, goal, arena, open, closed, bestG, rank) && IsMinEntry(arena, open, k)
    requires arena[open[k]].pos == goal
    requires !(goal in bestG && arena[open[k]].g > bestG[goal])
    ensures ValidPath(g, start, goal, Chain(arena, open[k])) && |Chain(arena, open[k])| == arena[open[k]].g + 1
    ensures ReachCost(g, start, goal, Finite(arena[open[k]].g))
    ensures start == goal ==> Chain(arena, open[k]) == [start]
    ensures NextDoor(g, start, goal) ==> Chain(arena, open[k]) == [start, goal]
  {
    var cur := open[k];
    var c := Chain(arena, cur);
    if NextDoor(g, start, goal) && closed != {} {
      NextDoorPop(g, start, goal, arena, open, bestG, k);
    }
    ChainWalk(g, start, goal, arena, cur);
    ChainDistinct(arena, rank, cur);
    WalkLength(c);
    if start != goal {
      assert |c| >= 2;
      assert IsValidNeighbor(c[|c| - 1], g);
    }
    if NextDoor(g, start, goal) {
      assert c == [start, goal];
    }
    if start == goal {
      assert c == [start];
    }
  }

  /** An empty frontier happens only after the first round, so start and
      goal differ and the goal is not one passable step away. With nothing
      queued, every position with a best cost is closed, so every cell a
      valid path from the start can reach is closed; the goal never is, so
      no valid path reaches it. */
  lemma Exhausted(g: Grid, start: Pos, goal: Pos, arena: seq<Node>, open: seq<nat>,
                  closed: set<Pos>, bestG: map<Pos, nat>, rank: map<Pos, nat>)
    requires SearchState(g, start, goal, arena, open, closed, bestG, rank) && |open| == 0
    ensures ReachCost(g, start, goal, Inf)
  {
    assert bestG.Keys <= closed;
    ClosedReach(g, start, closed, bestG);
  }

  /** Every valid path from a closed start ends in the closed set. */
  lemma ClosedReach(g: Grid, start: Pos, closed: set<Pos>, bestG: map<Pos, nat>)
    requires Rect(g) && ClosedCovered(g, closed, bestG) && bestG.Keys <= closed && start in closed
    ensures forall goal, path :: ValidPath(g, start, goal, path) ==> path[|path| - 1] in closed
  {
    forall goal, path | ValidPath(g, start, goal, path) ensures path[|path| - 1] in closed {
      WalkStaysClosed(g, start, goal, closed, bestG, path, |path| - 1);
    }
  }

  /** The state before the first round. */
  lemma InitialState(g: Grid, start: Pos, goal: Pos, h0: nat)
    requires Rect(g) && InBounds(g, start) && InBounds(g, goal) && h0 == Heuristic(g, start, goal)
    ensures SearchState(g, start, goal, [Node(start, 0, h0, None)], [0], {}, map[start := 0], map[])
  {
    var arena, open := [Node(start, 0, h0, None)], [0];
    assert arena[open[0]].pos == start && arena[open[0]].g == 0;
  }

  /** With the goal next door, the goal is popped before any other position
      after the start, so the only position closed before it is the start,
      closed in the first round. */
  lemma NextDoorFirst(g: Grid, start: Pos, goal: Pos, arena: seq<Node>, open: seq<nat>,
                      closed: set<Pos>, bestG: map<Pos, nat>, rank: map<Pos, nat>, k: nat)
    requires SearchState(g, start, goal, arena, open, closed, bestG, rank) && IsMinEntry(arena, open, k)
    requires arena[open[k]].pos != goal
    ensures NextDoor(g, start, goal) ==>
      closed == {} && arena[open[k]].pos == start && arena[open[k]].g == 0 && goal !in bestG
  {
    if NextDoor(g, start, goal) && closed != {} {
      NextDoorPop(g, start, goal, arena, open, bestG, k);
      assert false;
    }
  }

  /** Closing x after recording all its enterable neighbours keeps every
      closed position's neighbours covered. */
  lemma CoveredAfterExpand(g: Grid, closed: set<Pos>, bestG: map<Pos, nat>, bestG': map<Pos, nat>, x: Pos)
    requires Rect(g) && ClosedCovered(g, closed, bestG) && bestG.Keys <= bestG'.Keys
    requires forall nb :: InBounds(g, nb) && Adjacent(x, nb) && IsValidNeighbor(nb, g) ==>
      nb in closed + {x} || nb in bestG'
    ensures ClosedCovered(g, closed + {x}, bestG')
  {
  }

  /** Closing the popped position x and expanding it leads from one search
      state to the next. */
  lemma FinishClosing(g: Grid, start: Pos, goal: Pos, arena: seq<Node>, open: seq<nat>,
                      closed: set<Pos>, bestG: map<Pos, nat>, rank: map<Pos, nat>, cur: nat,
                      arena': seq<Node>, open': seq<nat>, bestG': map<Pos, nat>)
    requires SearchState(g, start, goal, arena, open, closed, bestG, rank)
    requires cur < |arena| && arena[cur].pos != goal && arena[cur].pos !in closed
    requires ArenaWf(g, start, goal, arena') && FrontierOk(arena', open')
    requires Ranked(arena', rank[arena[cur].pos := |rank|])
    requires NextDoor(g, start, goal) ==> GoalQueued(arena', open', bestG', goal)
    requires bestG.Keys <= bestG'.Keys && BestQueued(arena', open', closed + {arena[cur].pos}, bestG')
    requires forall nb :: InBounds(g, nb) && Adjacent(arena[cur].pos, nb) && IsValidNeighbor(nb, g) ==>
      nb in closed + {arena[cur].pos} || nb in bestG'
    ensures SearchState(g, start, goal, arena', open', closed + {arena[cur].pos}, bestG',
                        rank[arena[cur].pos := |rank|])
  {
    CoveredAfterExpand(g, closed, bestG, bestG', arena[cur].pos);
  }

  /** Closing a position leaves one unclosed cell fewer. */
  lemma CloseShrinks(g: Grid, closed: set<Pos>, x: Pos)
    requires Rect(g) && InBounds(g, x) && x !in closed
    ensures |AllCells(g) - (closed + {x})| < |AllCells(g) - closed|
  {
    assert AllCells(g) - (closed + {x}) == (AllCells(g) - closed) - {x};
    assert x in AllCells(g) - closed;
  }

  /** A round that closes the popped position and expands it. */
  method CloseAndExpand(start: Pos, goal: Pos, g: Grid, arena: seq<Node>, open: seq<nat>,
                        closed: set<Pos>, bestG: map<Pos, nat>, ghost rank: map<Pos, nat>, k: nat)
    returns (arena': seq<Node>, open': seq<nat>, closed': set<Pos>, bestG': map<Pos, nat>, ghost rank': map<Pos, nat>)
    requires SearchState(g, start, goal, arena, open, closed, bestG, rank) && IsMinEntry(arena, open, k)
    requires arena[open[k]].pos != goal && arena[open[k]].pos !in closed
    requires !(arena[open[k]].pos in bestG && arena[open[k]].g > bestG[arena[open[k]].pos])
    ensures SearchState(g, start, goal, arena', open', closed', bestG', rank')
    ensures closed' == closed + {arena[open[k]].pos}
    ensures |AllCells(g) - closed'| < |AllCells(g) - closed|
  {
    var cur := open[k];
    var x := arena[cur].pos;
    NextDoorFirst(g, start, goal, arena, open, closed, bestG, rank, k);
    var rest := RemoveAt(open, k);
    closed' := closed + {x};
    PopQueued(arena, open, closed, closed', bestG, k);
    CloseRanked(arena, rank, x);
    rank' := rank[x := |rank|];
    arena', open', bestG' := ExpandNode(start, goal, g, arena, rest, closed', bestG, cur, rank');
    ExpandCovers(g, goal, closed', cur, arena[cur].g, x, arena, rest, bestG);
    if BestQueued(arena, rest, closed', bestG) {
      RelaxAllQueued(g, goal, closed', cur, arena[cur].g, arena, rest, bestG, Neighbors(g, x));
    }
    if NextDoor(g, start, goal) {
      ExpandQueuesGoal(g, start, goal, arena, rest, closed', bestG, cur);
    }
    FinishClosing(g, start, goal, arena, open, closed, bestG, rank, cur, arena', open', bestG');
    CloseShrinks(g, closed, x);
  }

  /** One round of `astar_pathfinding`: pop a minimum entry, skip it when
      stale or already closed, stop at the goal (reporting the node), and
      otherwise close and expand it. */
  method Round(start: Pos, goal: Pos, g: Grid, arena: seq<Node>, open: seq<nat>,
               closed: set<Pos>, bestG: map<Pos, nat>, ghost rank: map<Pos, nat>)
    returns (arena': seq<Node>, open': seq<nat>, closed': set<Pos>, bestG': map<Pos, nat>,
             ghost rank': map<Pos, nat>, found: Option<nat>, k: nat)
    requires SearchState(g, start, goal, arena, open, closed, bestG, rank) && |open| > 0
    ensures k < |open| && IsMinEntry(arena, open, k)
    ensures var e := arena[open[k]];
      if (e.pos in bestG && e.g > bestG[e.pos]) || (e.pos != goal && e.pos in closed) then
        && found.None? && open' == RemoveAt(open, k)
        && arena' == arena && closed' == closed && bestG' == bestG && rank' == rank
      else if e.pos == goal then found == Some(open[k])
      else found.None? && closed' == closed + {e.pos}
    ensures found.None? ==> SearchState(g, start, goal, arena', open', closed', bestG', rank')
    ensures found.None? ==>
      |AllCells(g) - closed'| < |AllCells(g) - closed|
      || (|AllCells(g) - closed'| == |AllCells(g) - closed| && |open'| < |open|)
    ensures found.Some? ==> arena' == arena && found.value < |arena| && arena[found.value].pos == goal
    ensures found.Some? ==>
      var c := Chain(arena, found.value);
      && ValidPath(g, start, goal, c) && |c| == arena[found.value].g + 1
      && ReachCost(g, start, goal, Finite(arena[found.value].g))
      && (start == goal ==> c == [start])
      && (NextDoor(g, start, goal) ==> c == [start, goal])
  {
    arena', open', closed', bestG', rank', found := arena, open, closed, bestG, rank, None;
    MinEntryExists(arena, open);
    k :| IsMinEntry(arena, open, k);
    var cur := open[k];
    var current := arena[cur];
    if current.pos in bestG && current.g > bestG[current.pos] {
      SkipKeeps(g, start, goal, arena, open, closed, bestG, rank, k);
      open' := RemoveAt(open, k);
    } else if current.pos == goal {
      GoalReached(g, start, goal, arena, open, closed, bestG, rank, k);
      found := Some(cur);
    } else if current.pos in closed {
      SkipKeeps(g, start, goal, arena, open, closed, bestG, rank, k);
      open' := RemoveAt(open, k);
    } else {
      arena', open', closed', bestG', rank' := CloseAndExpand(start, goal, g, arena, open, closed, bestG, rank, k);
    }
  }

  /** `astar_pathfinding`. The frontier is a list of arena indices; each
      round removes an entry no other entry is strictly smaller than (which
      one, among entries equal in f and g, is left open, as it depends on
      the heap's layout). Stale entries are skipped, the goal ends the search
      with the path through parent links, and closed positions are never
      expanded twice. An empty frontier gives the empty path at infinite
      cost. */
  method AStarPathfinding(start: Pos, goal: Pos, g: Grid) returns (path: seq<Pos>, cost: Cost)
    requires Rect(g) && InBounds(g, start) && InBounds(g, goal)
    ensures path == [] <==> cost == Inf
    ensures path != [] ==> ValidPath(g, start, goal, path) && cost == Finite(|path| - 1)
    ensures ReachCost(g, start, goal, cost)
    ensures start == goal ==> path == [start]
    ensures NextDoor(g, start, goal) ==> path == [start, goal]
  {
    var h0 := CalculateHeuristic(start, goal, g);
    var arena := [Node(start, 0, h0, None)];
    var open: seq<nat> := [0];
    var closed: set<Pos> := {};
    var bestG: map<Pos, nat> := map[start := 0];
    ghost var rank: map<Pos, nat> := map[];
    InitialState(g, start, goal, h0);
    while |open| > 0
      invariant SearchState(g, start, goal, arena, open, closed, bestG, rank)
      decreases |AllCells(g) - closed|, |open|
    {
      var found, k;
      arena, open, closed, bestG, rank, found, k := Round(start, goal, g, arena, open, closed, bestG, rank);
      if found.Some? {
        path := ReconstructPath(arena, found.value);
        return path, Finite(arena[found.value].g);
      }
    }
    Exhausted(g, start, goal, arena, open, closed, bestG, rank);
    return [], Inf;
  }

  /** `find_best_path_to_ring`: no ring gives the empty path at infinite
      cost; otherwise the search from the player to the target ring. */
  method FindBestPathToRing(player: Pos, g: Grid) returns (path: seq<Pos>, cost: Cost)
    requires Rect(g) && InBounds(g, player)
    ensures TargetRing(g).None? ==> path == [] && cost == Inf
    ensures TargetRing(g).Some? ==>
      var ring := TargetRing(g).value;
      && (path == [] <==> cost == Inf)
      && (path != [] ==> ValidPath(g, player, ring, path) && cost == Finite(|path| - 1))
      && ReachCost(g, player, ring, cost)
  {
    var target := TargetRing(g);
    if target.Some? {
      path, cost := AStarPathfinding(player, target.value, g);
      return;
    }
    return [], Inf;
  }
}
