# Grid game core in Dafny

This project models one tick of a small grid game, plus the queries the tick relies on.
- **The board.** A rectangle of one-character cells:
  - `.` is empty;
  - `A` is an attacker;
  - `B` is the attacker with the ball;
  - `D` is a defender;
  - `R` is a ring.
- **A tick.**
  1. Every attacker takes up to two greedy steps towards the target ring. The target ring is the right-most `R`.
  2. The ball goes to the attacker whose A\* cost to the ring is lowest, with the first attacker winning ties.
  3. If that cost is at most one, a goal is scored and `B` is placed on the ring.
  4. The attackers are redrawn.
  5. The defenders slide up to two cells to the right.
- **The terminal test.** The game ends when the ball carrier stands next to the ring.

The modules follow the source files:
- `Utils` (`utils.dfy`): the board and grid queries:
  - neighbour enumeration in the order east, west, south, north;
  - row-major symbol scans;
  - target-ring choice;
  - Manhattan distance;
  - the straight-segment blocking test.
- `AStar` (`astar.dfy`): the search.
  - **Node order**: lower `f` first, then higher `g`.
  - **Heuristic**: penalises defenders. It scans the straight or L-shaped corridor to the goal.
  - **Search loop**: a best-first search. It keeps a `best_g_cost` map and a closed set, and discards stale entries lazily.
  - **Frontier and parents**: the frontier is a sequence of indices into an arena of nodes, and each node's parent is an arena index. A pop removes some entry that is minimal under the node order. No order is promised among entries with equal `f` and `g`.
  - **Result**: the path is rebuilt through the parent links.
- `Logic` (`logic.dfy`): the tick.
  - **Greedy mover.** A position that a walker enters is claimed in a set that the next walker receives.
  - **Pass choice.** Made on a sanitised copy of the board.
  - **Defender slide.**
  - **`update_game_state`.** The full transition.
  - **`check_game_end`.**

How the model is structured:
- **Loops become methods.** Each loop of the source is a method with loop invariants. Most of these methods are proved equal to a specification function, built by recursion over the processed prefix. `AStarPathfinding`, `IsPathBlocked` and `CheckGameEnd` are instead characterised directly by their `ensures` clauses.
- **Lemmas.** Separate lemmas give each specification function a cell-by-cell or element-by-element meaning.
- **Costs.** A\* costs are `Finite(n)` or `Inf`.
- **Cost maps.** A cost dictionary is a sequence of (position, cost) pairs in insertion order. Insertion order is what makes ties go to the first entry.

## Model

| member | source | states |
|---|---|---|
| Utils.Neighbors | src/utils.py:5-17 | there are at most 4 neighbours; a position is listed iff it is in bounds and at Manhattan distance 1; neighbours appear in direction order east, west, south, north |
| Utils.GetValidNeighbors | src/utils.py:5-17 | the loop over the four directions returns exactly `Neighbors` |
| Utils.NeighborsUpToSpec | src/utils.py:10-15 | after the first n directions: at most n positions, exactly the in-bounds ones in those directions, in direction order |
| Utils.ScanSpec | src/utils.py:26-31 | a position is in the scan for a symbol iff its cell holds the symbol; the scan is strictly increasing in row-major order |
| Utils.ScanRowsSpec | src/utils.py:26-31 | the same membership and ordering after the first m rows |
| Utils.RowHitsSpec | src/utils.py:29-31 | the same membership and ordering within one row, up to column n |
| Utils.ScanRowInto | src/utils.py:28-31 | one row of the scanning loop extends every symbol's list from m rows to m+1 rows and keeps the keys |
| Utils.FindAllPositions | src/utils.py:20-33 | the keys are exactly the requested symbols; each list is the row-major scan for its symbol |
| Utils.MaxColIndex | src/utils.py:40 | picks the maximal column, and the first occurrence of it, as Python's `max` does |
| Utils.RingPick | src/utils.py:36-40 | the picked ring is an `R` cell; no `R` has a larger column; every `R` before it in row-major order has a strictly smaller column |
| Utils.TargetRing | src/utils.py:36-40 | `None` iff there is no `R`; otherwise an `R` of maximal column, the first in row-major order among ties |
| Utils.TargetRingSameRings | src/utils.py:36-40 | the target ring depends only on where the `R` cells are |
| Utils.Manhattan | src/utils.py:43-44 | the distance is a natural number, and it is zero exactly when the positions are equal |
| Utils.ManhattanSymmetric | src/utils.py:43-44 | the distance is symmetric |
| Utils.ManhattanTriangle | src/utils.py:43-44 | the distance satisfies the triangle inequality |
| Utils.IsPathBlocked | src/utils.py:47-65 | blocked iff the endpoints share neither row nor column, or some strictly interior cell of the segment holds `D`; the endpoints are never inspected |
| AStar.NodeOrder | src/astar.py:20-23 | `<` is irreflexive, asymmetric and transitive; two nodes are incomparable exactly when they have equal `f` and equal `g` |
| AStar.CountRowZero | src/astar.py:35-38 | a row stretch counts zero iff it holds no `D` |
| AStar.CountColZero | src/astar.py:39-42 | a column stretch counts zero iff it holds no `D` |
| AStar.ScanCount | src/astar.py:35-49 | a cell is scanned at most twice; it is scanned twice exactly when it is the corner `(row, goal_col)` of an L-shaped corridor |
| AStar.Heuristic | src/astar.py:26-51 | the heuristic is at least the Manhattan distance and at most the Manhattan distance plus the number of scanned cells |
| AStar.HeuristicExact | src/astar.py:26-51 | the heuristic equals the Manhattan distance iff no scanned corridor cell holds `D` |
| AStar.PenaltyZeroIff | src/astar.py:30-49 | the penalty is zero iff no cell of the scanned legs holds `D` |
| AStar.HeuristicAddDefender | src/astar.py:26-51 | adding one `D` raises the heuristic by the number of times that cell is scanned: 0, 1, or 2 at the corner |
| AStar.PenaltyAddDefender | src/astar.py:30-49 | adding one `D` raises the penalty by the cell's scan count |
| AStar.CalculateHeuristic | src/astar.py:26-51 | the accumulating loops compute `Heuristic` |
| AStar.ValidNeighborObstacles | src/astar.py:54-56 | on a cell holding one of the five game symbols, a step may enter iff no `A`, `B` or `D` stands there, so exactly `.` and `R` cells are enterable |
| AStar.WalkLength | src/astar.py:79-85 | a walk of unit steps is at least as long as the Manhattan distance between its ends |
| AStar.WithinOneIffNear | src/astar.py:79-102 | for any cost the search may return, `cost <= 1` iff start is the goal, or the goal is a passable neighbour |
| AStar.RemoveAt | src/astar.py:72 | popping an entry keeps all other entries in order and removes that one from the multiset |
| AStar.MinEntryExists | src/astar.py:72 | a non-empty frontier has an entry that no other entry precedes under the node order |
| AStar.ChainWalk | src/astar.py:81-85 | following parent links from a node gives g+1 positions from start to the node, all in bounds, moving in unit steps onto passable cells |
| AStar.ChainDistinct | src/astar.py:87-90 | the chain of a node repeats no position, because each position is closed at most once |
| AStar.ReconstructPath | src/astar.py:81-85 | the parent-link loop returns the chain |
| AStar.InitialState | src/astar.py:67-69 | the start node alone satisfies the search invariant |
| AStar.SkipKeeps | src/astar.py:73-88 | discarding a stale or closed entry keeps the search invariant |
| AStar.GoalReached | src/astar.py:79-85 | popping the goal gives a valid path whose cost meets every promise on returned costs; start equal to goal gives `[start]`; a passable goal next door gives `[start, goal]` |
| AStar.Exhausted | src/astar.py:102 | an empty frontier justifies the `Inf` result: every cell a valid path from the start can reach is closed, the goal is not, so no valid path leads to the goal |
| AStar.WalkStaysClosed | src/astar.py:87-100 | once every position with a best cost is closed, and every enterable neighbour of a closed position is closed or has a best cost, each step of a valid path from the closed start stays in the closed set |
| AStar.ClosedReach | src/astar.py:102 | under the same conditions, every valid path from the start ends on a closed position |
| AStar.BestQueuedPush | src/astar.py:96-100 | pushing a node at a new best cost keeps every unclosed position with a best cost queued at that cost |
| AStar.PopQueued | src/astar.py:72-90 | popping an entry that is stale, or whose position is (now) closed, keeps every unclosed best cost queued |
| AStar.AllNeighborsHandled | src/astar.py:92-94 | once each neighbour from `get_valid_neighbors` is closed, has a best cost, or cannot be entered, so does every enterable cell next to the expanded position |
| AStar.CoveredAfterExpand | src/astar.py:87-100 | closing a position whose enterable neighbours are all closed or have a best cost keeps that property for every closed position |
| AStar.NextDoorFirst | src/astar.py:72-90 | with a passable goal next door, a minimal entry other than the goal can only be popped in the first round, at the start |
| AStar.CloseAndExpand | src/astar.py:87-100 | closing and expanding a node keeps the invariant and strictly shrinks the set of unclosed cells |
| AStar.Relax | src/astar.py:93-100 | a neighbour is queued iff it is unclosed, passable and improves `best_g_cost`; queued nodes keep the invariant; an unclosed passable neighbour always ends with a best cost; no best-cost key is dropped; unclosed best costs stay queued |
| AStar.RelaxAllSpec | src/astar.py:96-100 | relaxing a list of neighbours only appends to the node store and the frontier, one node and one entry per push; every pushed node steps from the expanded node onto a listed, unclosed, passable neighbour at its cost plus one |
| AStar.RelaxAllBest | src/astar.py:92-97 | relaxing drops and raises no best cost; a best cost changes only at a listed, unclosed, passable neighbour, to the expanded node's cost plus one; every such neighbour ends with a best cost |
| AStar.RelaxAllPushed | src/astar.py:96-100 | every best cost the relaxation records anew has a pushed frontier entry at that cost |
| AStar.RelaxAllQueued | src/astar.py:92-100 | relaxing keeps every unclosed position with a best cost queued at that cost |
| AStar.ExpandCovers | src/astar.py:92-100 | expanding a position drops no best cost and leaves each enterable cell next to it closed or with a best cost |
| AStar.ExpandQueuesGoal | src/astar.py:92-100 | with the goal one passable step from the start, expanding the start at cost zero queues the goal at cost one, and a goal push already queued stays queued |
| AStar.ExpandNode | src/astar.py:92-100 | the loop over `get_valid_neighbors` gives exactly the fold of one relaxation step over `Neighbors` of the popped position, in that list's east, west, south, north order, and keeps the node store and frontier valid |
| AStar.Round | src/astar.py:71-100 | one pop of the loop, returning the popped entry `k`, a minimal one: a stale entry, or a closed one other than the goal, is removed from the frontier and nothing else changes; the goal stops the search, reporting that entry's node, with a valid path whose length is its cost and which meets every promise on returned costs; any other entry's position is added to the closed set. After a round that does not stop, the invariant holds again and the measure (unclosed cells, frontier size) strictly decreases |
| AStar.AStarPathfinding | src/astar.py:59-102 | path empty iff cost is `Inf`; a non-empty path starts at start and ends at goal, takes orthogonal unit steps onto `.`/`R` cells, repeats no position, and has cost `len-1 >= Manhattan`; start equal to goal gives `([start], 0)`; an impassable goal gives `Inf`; a passable goal next door gives `[start, goal]`; `Inf` only when no valid path leads from start to goal |
| AStar.FindBestPathToRing | src/astar.py:105-111 | no ring gives `([], Inf)`; otherwise the result carries every guarantee of the search towards the target ring |
| Logic.FindPlayers | src/logic.py:11-12 | the keys are `A`, `D` and `B`, each mapped to its row-major scan |
| Logic.BestAmongSpec | src/logic.py:24-36 | no pick iff no candidate is free; a pick is free, no free candidate is nearer the target, and earlier free candidates are strictly farther |
| Logic.GreedyStepSpec | src/logic.py:22-43 | the mover stays put iff no adjacent cell is free (in bounds, `.`, unclaimed); otherwise it enters a free adjacent cell of least distance to the target, with the first in direction order winning ties, even when that is farther than where it stands |
| Logic.NearestFree | src/logic.py:24-36 | the inner loop with `best_distance` returns the neighbour `BestAmong` selects |
| Logic.ChooseStep | src/logic.py:24-36 | one iteration of the step loop picks exactly `GreedyStep` |
| Logic.GreedyTrailMoves | src/logic.py:22-43 | at most `steps` moves; each enters an adjacent free cell, which is claimed before the next move |
| Logic.GreedyTrailSteps | src/logic.py:22-43 | every move of the trail is the greedy step from the previous cell against the set claimed so far |
| Logic.GreedyWalkEnd | src/logic.py:22-43 | the grown set is the old set plus the trail; the result is the trail's last cell, or the start; fewer moves than `steps` only when the mover is stuck |
| Logic.GreedyWalkLands | src/logic.py:43 | the result is the start, or a cell newly added to the set |
| Logic.GreedyWalkNear | src/logic.py:22-43 | the mover ends within Manhattan distance `steps` of its start, on its start or on a `.` cell |
| Logic.MovePlayerTowardsTarget | src/logic.py:15-43 | the loop returns `GreedyWalk`: the final position and the grown claimed set |
| Logic.GetCostSpec | src/logic.py:203 | reading a key returns its recorded cost; a missing key reads `Inf` |
| Logic.PutSpec | src/logic.py:96-99 | a dict store keeps keys unique, appends a new key at the end or keeps the old order, and changes only that key's value |
| Logic.DedupSpec | src/logic.py:95-99 | a position is a key iff it is one of the inputs, and no key repeats |
| Logic.DedupPrefix | src/logic.py:95-99 | filling the dict from more inputs only appends keys: the keys from a prefix are a prefix of the keys |
| Logic.DedupOrder | src/logic.py:95-99 | the keys come in order of first occurrence: a key listed before another occurs among the inputs before every occurrence of the other |
| Logic.SearchCostFrom | src/logic.py:55 | the cost kept from a search is one the search could return: finite exactly with a valid path of that length, `Inf` exactly when no path exists |
| Logic.CalculateAllAttackerCosts | src/logic.py:46-57 | no ring gives `{}`; otherwise the keys are exactly the attackers, in first-occurrence order, each with a cost the search may return towards the ring |
| Logic.MinUpToSpec | src/logic.py:106-107 | no entry costs less than the pick; every earlier entry costs strictly more |
| Logic.MinCostIndex | src/logic.py:106-107 | the minimum-cost key, the first inserted on ties; `Inf` compares above every finite cost |
| Logic.MinCostReachable | src/logic.py:106-107 | when any entry's position has a valid path to the ring, the entry `min` picks has a finite cost and a valid path of that length |
| Logic.ClearAttackers | src/logic.py:77-82 | the copy has the same shape, with every `A`/`B` cleared and every other cell kept |
| Logic.ClearAttackerCells | src/logic.py:77-82 | the clearing loops compute `ClearAttackers` |
| Logic.PlaceMovedSpec | src/logic.py:84-93 | a cell is marked iff it was `.` and some attacker moved there, with `B` on the carrier's moved cell; every other cell is unchanged |
| Logic.SanitizedSpec | src/logic.py:77-93 | the sanitised board: `A`/`B` only on `.` cells that attackers moved onto, `B` at the carrier's new cell, other cells cleared of `A`/`B` and otherwise as on the input board |
| Logic.PlaceMovedAttackers | src/logic.py:84-93 | the re-placing loop computes `PlaceMoved` |
| Logic.MovedCosts | src/logic.py:95-99 | the keys are the moved positions in first-occurrence order, each with a cost the search may return on the sanitised board |
| Logic.FindBestPassOption | src/logic.py:70-124 | no ring gives the carrier, `{}` and the no-ring decision; otherwise the keys are the moved positions with search costs on the sanitised board; no costs gives the carrier; else the first minimum-cost key, with "keep" iff it is the carrier's moved cell; the tick is added only in the decision |
| Logic.SlideSpec | src/logic.py:134-149 | the row is kept; the slide is 0 to `steps` columns right, over in-bounds `.` cells not yet taken; it stops early only when blocked |
| Logic.DefenderMovesKeys | src/logic.py:131-151 | the keys are exactly the defenders processed |
| Logic.DefenderMovesSpec | src/logic.py:134-149 | each defender slides against the cells taken by the defenders before it |
| Logic.DefenderMovesBounds | src/logic.py:134-149 | each defender ends in its own row, 0 to 2 columns right, stepping only over in-bounds `.` cells |
| Logic.MoveDefenders | src/logic.py:127-151 | the loop computes `DefenderMoves` over `players["D"]` |
| Logic.ResetBoard | src/logic.py:158-163 | same shape; `R` cells kept, every other cell `.` |
| Logic.NewBoard | src/logic.py:158-163 | the loops compute `ResetBoard` |
| Logic.AttackerMovesKeys | src/logic.py:186-193 | the moved map has exactly the attackers as keys |
| Logic.AttackerMovesNear | src/logic.py:186-193 | each attacker ends within distance 2, on its start or on a `.` cell of the new board |
| Logic.MoveAttackers | src/logic.py:186-193 | the loop computes `AttackerMoves` with one shared claimed set |
| Logic.TickMoves | src/logic.py:183-193 | every attacker, including `B`, is moved, stays in bounds and within distance 2, on a cell that is `.` on the new board |
| Logic.PlaceAttackersSpec | src/logic.py:209-220 | after the placing loop: `B` on the ring iff a goal was scored and some attacker reached the best cell; rings kept; placed cells get `B` at the best cell and `A` elsewhere; everything else `.` |
| Logic.PlaceAttackers | src/logic.py:209-220 | the placing loop computes `PlaceAttackersUpTo` |
| Logic.PlaceDefendersSpec | src/logic.py:226-228 | a defender's target cell becomes `D` only if it is still `.`; other cells are unchanged |
| Logic.PlaceDefenders | src/logic.py:226-228 | the loop computes `PlaceDefendersUpTo` |
| Logic.GoalIffNextToRing | src/logic.py:195-207 | the minimal cost is at most 1 iff some attacker's moved cell is next to the target ring |
| Logic.TickBoardCells | src/logic.py:209-228 | cell by cell, the output is: `B` on the ring after a goal; otherwise `R` where the input had `R`; otherwise the attacker mark where an attacker landed; otherwise `D` where a defender landed; otherwise `.` |
| Logic.TickOneCarrier | src/logic.py:209-220 | the output has exactly one `B`: on the ring after a goal, otherwise on the best cell |
| Logic.TickRings | src/logic.py:158-228 | a cell is `R` in the output iff it was `R` in the input, except the target ring after a goal; every cell is one of `.`, `A`, `B`, `D`, `R` |
| Logic.TickDefendersNear | src/logic.py:222-228 | every output `D` is 0 to 2 columns right of an input `D` in the same row |
| Logic.TickAttackersNear | src/logic.py:186-220 | every output `A`/`B` lies within distance 2 of an input `A`/`B`, except the ring cell after a goal |
| Logic.UpdateGameState | src/logic.py:154-230 | no `B` or no ring: input board and the initial info. Otherwise: carrier and ring recorded; costs as in `FindBestPassOption`; goal iff the minimal cost is at most 1, iff an attacker's moved cell is next to the ring; decision as in `FindBestPassOption`; `ballCarrierAfterMove` is the ring on a goal and the best cell otherwise; board is `TickBoard`; exactly one `B`, at `ballCarrierAfterMove` |
| Logic.PassPhase | src/logic.py:195-207 | the costs and decision of `FindBestPassOption` on the new board; the best cell is some attacker's moved cell; goal iff the minimal cost is at most 1, iff some attacker's moved cell is next to the ring |
| Logic.PlacePlayers | src/logic.py:209-228 | attacker and defender placement produce `TickBoard` and `ballCarrierAfterMove` |
| Logic.FirstInScan | src/logic.py:234-241 | a `B` with no `B` before it in row-major order is the first element of the scan |
| Logic.CheckGameEnd | src/logic.py:233-252 | true iff there is a `B`, there is a ring, and the first `B` in row-major order is next to the target ring (the A\* cost is then at most 1, since `R` is passable) |

## Left out

- `print_grid` in `src/utils.py`, and all of `src/simulation.py`, `src/main.py` and `src/config.py`: console output, emoji rendering, user input, sleeping, a driver loop and constant data. `src/config.py` is not part of this model.
- `create_pass_options_text` and the wording of `pass_decision`: the decision is the `Decision` datatype. Its five variants are no decision yet (the initial empty text), no target ring, no valid costs, keep ball, and pass to a position. Only keep ball and pass carry a cost, which includes the tick.
- Float infinity: `Cost.Inf` is a constructor that compares above every finite cost. Adding the tick to infinity gives infinity, as in IEEE arithmetic.
- `heapq` internals: the pop chooses any entry that is minimal under the node order. Ties between entries with equal `f` and `g` are not resolved as the heap would resolve them.
- AStar.AStarPathfinding: optimality is not stated. The contract gives path validity, the cost bounds, exact answers for cost 0, cost 1 and impassable goals, and completeness (`Inf` only when no valid path exists). The heuristic can exceed the remaining distance: a `D` on the scanned L-shaped corridor counts even when the other L of the same length is clear. So shortest paths are not claimed, and the order among tied frontier entries is left open.
- Logic.CalculateAllAttackerCosts, Logic.MovedCosts, Logic.FindBestPassOption, Logic.UpdateGameState, Logic.PassPhase: because of the above, a recorded cost is pinned down only as far as `SearchCost` allows. It is finite exactly when a path exists, and then at least the Manhattan distance, with a path of that length. It is exact when it is 0 or 1. The pass target is therefore fixed when an attacker is next to the ring (`GoalIffNextToRing`). When some attackers can reach the ring, it is one of them (`MinCostReachable`). Among reachable attackers whose costs are 2 or more, which one wins is left open.
- Aliasing of dicts, lists and sets: `occupied_positions`, `moved_positions` and the grids are passed and returned as values. Every grid the source mutates is a fresh copy, so no other reference observes the mutation.
- Logic.UpdateGameState: the update of `moved_positions` with the defender moves is not modelled. Nothing reads that map afterwards.
- Logic.UpdateGameState: requires a rectangular, non-empty board. On an empty list of rows, the source fails when it reads the width from the first row.
- Utils.IsPathBlocked: requires in-bounds endpoints when they are aligned. The source never reads the endpoints themselves. Cells between out-of-range endpoints would either raise an index error or, for negative indices, wrap around to the other end of a row. Positions in this game are always cells of the board, so the model keeps to them.
- The `current_tick` argument is a natural number.
- Attackers can end on the same cell. An attacker's own start cell is not claimed before it moves, so an earlier attacker may step onto it; if the later attacker then cannot move, it stays there. On the board `A.BR`, the `A` moves first and takes `B`'s cell, and `B`, blocked by the ring and the claimed cell, stays. Both end on the cell left of the ring. Only one symbol is drawn there, and on the goal that follows, no `A` remains. This is the source's behaviour and the model keeps it. `TickBoardCells` shows that only one symbol lands on such a cell.
- A defender whose final cell has already been filled by an attacker or by an earlier defender is not drawn. The source behaves the same way, and `PlaceDefendersSpec` states it.
