/** The board and the grid queries every other part of the simulation reads
    (src/utils.py): positions, the four-neighbourhood, row-major symbol scans,
    the target ring, Manhattan distance and the straight-segment blocking test. */
module Utils {

  datatype Option<T> = None | Some(value: T)

  /** A board position: (row, column). Neighbour enumeration may produce
      positions outside the board, so the coordinates are unbounded integers. */
  datatype Pos = Pos(row: int, col: int)

  /** A board: a list of rows of one-character cells. */
  type Grid = seq<seq<char>>

  /** The cell symbols of the game. */
  const Empty: char := '.'
  const Defender: char := 'D'
  const Attacker: char := 'A'
  const BallCarrier: char := 'B'
  const Ring: char := 'R'

  /** Column count, read from the first row as the source does. */
  function Width(g: Grid): nat {
    if |g| == 0 then 0 else |g[0]|
  }

  /** Every row has the width of the first one. */
  predicate Rect(g: Grid) {
    forall i :: 0 <= i < |g| ==> |g[i]| == Width(g)
  }

  predicate InBounds(g: Grid, p: Pos) {
    0 <= p.row < |g| && 0 <= p.col < Width(g)
  }

  function At(g: Grid, p: Pos): char
    requires Rect(g) && InBounds(g, p)
  {
    g[p.row][p.col]
  }

  /** Cell p exists and holds ch; meaningful for ragged lists of rows too. */
  predicate Holds(g: Grid, p: Pos, ch: char) {
    0 <= p.row < |g| && 0 <= p.col < |g[p.row]| && g[p.row][p.col] == ch
  }

  /** Two boards of the same dimensions. */
  predicate SameShape(a: Grid, b: Grid) {
    Rect(a) && Rect(b) && |a| == |b| && Width(a) == Width(b)
  }

  /** The board with one cell overwritten: `grid[i][j] = ch`. */
  function SetCell(g: Grid, p: Pos, ch: char): (g': Grid)
    requires Rect(g) && InBounds(g, p)
    ensures SameShape(g', g)
    ensures forall q :: InBounds(g, q) ==> At(g', q) == if q == p then ch else At(g, q)
  {
    g[p.row := g[p.row][p.col := ch]]
  }

  /** Boards of the same shape that agree on every cell are equal. */
  lemma GridExt(a: Grid, b: Grid)
    requires SameShape(a, b)
    requires forall p :: InBounds(a, p) ==> At(a, p) == At(b, p)
    ensures a == b
  {
    forall i | 0 <= i < |a| ensures a[i] == b[i] {
      forall j | 0 <= j < |a[i]| ensures a[i][j] == b[i][j] {
        assert At(a, Pos(i, j)) == At(b, Pos(i, j));
      }
    }
  }

  // ---------------------------------------------------------------- distance

  function Abs(x: int): nat {
    if x < 0 then -x else x
  }

  /** `manhattan_distance`: never negative, and zero exactly on equal positions. */
  function Manhattan(a: Pos, b: Pos): (d: nat)
    ensures d == 0 <==> a == b
  {
    Abs(a.row - b.row) + Abs(a.col - b.col)
  }

  lemma ManhattanSymmetric(a: Pos, b: Pos)
    ensures Manhattan(a, b) == Manhattan(b, a)
  {
  }

  lemma ManhattanTriangle(a: Pos, b: Pos, c: Pos)
    ensures Manhattan(a, c) <= Manhattan(a, b) + Manhattan(b, c)
  {
  }

  // ------------------------------------------------------------- neighbours

  /** The direction offsets in the order the source tries them: east, west,
      south, north. */
  const Directions: seq<(int, int)> := [(0, 1), (0, -1), (1, 0), (-1, 0)]

  function Step(p: Pos, i: nat): Pos
    requires i < |Directions|
  {
    Pos(p.row + Directions[i].0, p.col + Directions[i].1)
  }

  /** The index in Directions of the step that leads from p to q, or 4 when q
      is not orthogonally adjacent to p. */
  function DirectionOf(p: Pos, q: Pos): (i: nat)
    ensures i <= 4
    ensures i < 4 <==> Manhattan(p, q) == 1
    ensures i < 4 ==> q == Step(p, i)
  {
    if q == Step(p, 0) then 0
    else if q == Step(p, 1) then 1
    else if q == Step(p, 2) then 2
    else if q == Step(p, 3) then 3
    else 4
  }

  /** The in-bounds targets of the first n directions, in direction order. */
  function NeighborsUpTo(g: Grid, p: Pos, n: nat): seq<Pos>
    requires n <= |Directions|
  {
    if n == 0 then []
    else NeighborsUpTo(g, p, n - 1) + (if InBounds(g, Step(p, n - 1)) then [Step(p, n - 1)] else [])
  }

  lemma {:induction false} NeighborsUpToSpec(g: Grid, p: Pos, n: nat)
    requires n <= |Directions|
    ensures |NeighborsUpTo(g, p, n)| <= n
    ensures forall q :: q in NeighborsUpTo(g, p, n) <==> InBounds(g, q) && DirectionOf(p, q) < n
    ensures forall i, j :: 0 <= i < j < |NeighborsUpTo(g, p, n)| ==>
      DirectionOf(p, NeighborsUpTo(g, p, n)[i]) < DirectionOf(p, NeighborsUpTo(g, p, n)[j])
  {
    if n > 0 {
      NeighborsUpToSpec(g, p, n - 1);
      assert DirectionOf(p, Step(p, n - 1)) == n - 1;
    }
  }

  /** Where an adjacent in-bounds cell sits in the neighbour list. */
  lemma NeighborAt(g: Grid, p: Pos, q: Pos) returns (i: nat)
    requires InBounds(g, q) && Manhattan(p, q) == 1
    ensures i < |NeighborsUpTo(g, p, 4)| && NeighborsUpTo(g, p, 4)[i] == q
  {
    NeighborsUpToSpec(g, p, 4);
    i :| 0 <= i < |NeighborsUpTo(g, p, 4)| && NeighborsUpTo(g, p, 4)[i] == q;
  }

  /** The neighbour list is in direction order. */
  lemma NeighborOrder(g: Grid, p: Pos, i: nat, j: nat)
    requires i < |NeighborsUpTo(g, p, 4)| && j < |NeighborsUpTo(g, p, 4)|
    requires DirectionOf(p, NeighborsUpTo(g, p, 4)[i]) < DirectionOf(p, NeighborsUpTo(g, p, 4)[j])
    ensures i < j
  {
    NeighborsUpToSpec(g, p, 4);
  }

  /** `get_valid_neighbors`: at most four in-bounds positions at distance one,
      listed east, west, south, north with out-of-bounds ones skipped. */
  function Neighbors(g: Grid, p: Pos): (ns: seq<Pos>)
    ensures |ns| <= 4
    ensures forall q :: q in ns <==> InBounds(g, q) && Manhattan(p, q) == 1
    ensures forall i, j :: 0 <= i < j < |ns| ==> DirectionOf(p, ns[i]) < DirectionOf(p, ns[j])
  {
    NeighborsUpToSpec(g, p, 4);
    NeighborsUpTo(g, p, 4)
  }

  /** The loop of `get_valid_neighbors` over the four direction offsets. */
  method GetValidNeighbors(p: Pos, g: Grid) returns (ns: seq<Pos>)
    ensures ns == Neighbors(g, p)
  {
    ns := [];
    for i := 0 to |Directions|
      invariant ns == NeighborsUpTo(g, p, i)
    {
      var (dr, dc) := Directions[i];
      var q := Pos(p.row + dr, p.col + dc);
      assert q == Step(p, i);
      if 0 <= q.row < |g| && 0 <= q.col < Width(g) {
        ns := ns + [q];
      }
    }
  }

  // --------------------------------------------------------- symbol scans

  /** Strict row-major order of positions. */
  predicate Before(p: Pos, q: Pos) {
    p.row < q.row || (p.row == q.row && p.col < q.col)
  }

  /** The positions holding ch among the first n cells of row i, left to right. */
  function RowHits(g: Grid, i: nat, ch: char, n: nat): seq<Pos>
    requires i < |g| && n <= |g[i]|
  {
    if n == 0 then []
    else RowHits(g, i, ch, n - 1) + (if g[i][n - 1] == ch then [Pos(i, n - 1)] else [])
  }

  /** The positions holding ch in the first m rows, in row-major order. */
  function ScanRows(g: Grid, ch: char, m: nat): seq<Pos>
    requires m <= |g|
  {
    if m == 0 then [] else ScanRows(g, ch, m - 1) + RowHits(g, m - 1, ch, |g[m - 1]|)
  }

  lemma {:induction false} RowHitsSpec(g: Grid, i: nat, ch: char, n: nat)
    requires i < |g| && n <= |g[i]|
    ensures forall p :: p in RowHits(g, i, ch, n) <==> p.row == i && 0 <= p.col < n && g[i][p.col] == ch
    ensures forall a, b :: 0 <= a < b < |RowHits(g, i, ch, n)| ==> Before(RowHits(g, i, ch, n)[a], RowHits(g, i, ch, n)[b])
  {
    if n > 0 {
      RowHitsSpec(g, i, ch, n - 1);
    }
  }

  /** The scan of the first m rows lists exactly the cells holding ch there,
      in strictly increasing row-major order. */
  lemma {:induction false} ScanRowsSpec(g: Grid, ch: char, m: nat)
    requires m <= |g|
    ensures forall p :: p in ScanRows(g, ch, m) <==> p.row < m && Holds(g, p, ch)
    ensures forall a, b :: 0 <= a < b < |ScanRows(g, ch, m)| ==> Before(ScanRows(g, ch, m)[a], ScanRows(g, ch, m)[b])
  {
    if m > 0 {
      var prev := ScanRows(g, ch, m - 1);
      var row := RowHits(g, m - 1, ch, |g[m - 1]|);
      ScanRowsSpec(g, ch, m - 1);
      RowHitsSpec(g, m - 1, ch, |g[m - 1]|);
      assert forall a :: 0 <= a < |prev| ==> prev[a].row < m - 1 by {
        forall a | 0 <= a < |prev| ensures prev[a].row < m - 1 {
          assert prev[a] in prev;
        }
      }
      assert forall b :: 0 <= b < |row| ==> row[b].row == m - 1 by {
        forall b | 0 <= b < |row| ensures row[b].row == m - 1 {
          assert row[b] in row;
        }
      }
    }
  }

  /** Every cell holding ch, in row-major order. */
  function Scan(g: Grid, ch: char): seq<Pos> {
    ScanRows(g, ch, |g|)
  }

  /** The scan lists exactly the cells holding ch, in strictly increasing
      row-major order (so without repetitions). */
  lemma ScanSpec(g: Grid, ch: char)
    ensures forall p :: p in Scan(g, ch) <==> Holds(g, p, ch)
    ensures forall a, b :: 0 <= a < b < |Scan(g, ch)| ==> Before(Scan(g, ch)[a], Scan(g, ch)[b])
  {
    ScanRowsSpec(g, ch, |g|);
  }

  /** One row of `find_all_positions`: each cell of row i holding a
      requested symbol is appended to that symbol's list. */
  method ScanRowInto(g: Grid, i: nat, positions: map<char, seq<Pos>>) returns (positions': map<char, seq<Pos>>)
    requires i < |g|
    requires forall s :: s in positions ==> positions[s] == ScanRows(g, s, i)
    ensures positions'.Keys == positions.Keys
    ensures forall s :: s in positions' ==> positions'[s] == ScanRows(g, s, i + 1)
  {
    positions' := positions;
    for j := 0 to |g[i]|
      invariant positions'.Keys == positions.Keys
      invariant forall s :: s in positions' ==> positions'[s] == ScanRows(g, s, i) + RowHits(g, i, s, j)
    {
      var cell := g[i][j];
      ghost var before := positions';
      if cell in positions' {
        positions' := positions'[cell := positions'[cell] + [Pos(i, j)]];
      }
      forall s | s in positions'
        ensures positions'[s] == ScanRows(g, s, i) + RowHits(g, i, s, j + 1)
      {
        var hit := if g[i][j] == s then [Pos(i, j)] else [];
        assert positions'[s] == before[s] + hit;
        assert before[s] + hit == ScanRows(g, s, i) + (RowHits(g, i, s, j) + hit);
      }
    }
  }

  /** `find_all_positions`: one entry per requested symbol (a repeated symbol
      gives one key), each listing exactly the cells holding that symbol in
      row-major order. Called without symbols, the source scans for `A`,
      `D`, `B` and `R`; every caller here passes its symbols. */
  method FindAllPositions(g: Grid, symbols: seq<char>) returns (positions: map<char, seq<Pos>>)
    ensures positions.Keys == set s | s in symbols
    ensures forall s :: s in positions ==> positions[s] == Scan(g, s)
  {
    positions := map s | s in symbols :: [];
    for i := 0 to |g|
      invariant positions.Keys == set s | s in symbols
      invariant forall s :: s in positions ==> positions[s] == ScanRows(g, s, i)
    {
      positions := ScanRowInto(g, i, positions);
    }
  }

  // ----------------------------------------------------------- target ring

  /** Index of the element with the largest column, the first such one on
      ties, as Python's `max(..., key=...)` picks it. */
  function MaxColIndex(s: seq<Pos>): (k: nat)
    requires |s| > 0
    ensures k < |s|
    ensures forall j :: 0 <= j < |s| ==> s[j].col <= s[k].col
    ensures forall j :: 0 <= j < k ==> s[j].col < s[k].col
  {
    if |s| == 1 then 0
    else
      var k := MaxColIndex(s[..|s| - 1]);
      if s[|s| - 1].col > s[k].col then |s| - 1 else k
  }

  /** The ring picked from a non-empty scan has the largest column, and no
      ring with that column comes before it in row-major order. */
  lemma RingPick(g: Grid)
    requires |Scan(g, Ring)| > 0
    ensures Holds(g, Scan(g, Ring)[MaxColIndex(Scan(g, Ring))], Ring)
    ensures forall q :: Holds(g, q, Ring) ==> q.col <= Scan(g, Ring)[MaxColIndex(Scan(g, Ring))].col
    ensures forall q :: Holds(g, q, Ring) && Before(q, Scan(g, Ring)[MaxColIndex(Scan(g, Ring))]) ==>
      q.col < Scan(g, Ring)[MaxColIndex(Scan(g, Ring))].col
  {
    var rings := Scan(g, Ring);
    var k := MaxColIndex(rings);
    ScanSpec(g, Ring);
    assert rings[k] in rings;
    forall q | Holds(g, q, Ring)
      ensures q.col <= rings[k].col && (Before(q, rings[k]) ==> q.col < rings[k].col)
    {
      assert q in rings;
      var j :| 0 <= j < |rings| && rings[j] == q;
      if k < j {
        assert Before(rings[k], rings[j]);
      }
    }
  }

  /** `get_target_ring`: none when the board has no ring; otherwise a ring
      cell whose column is at least every other ring's, the first one in
      row-major order among those with that column. */
  function TargetRing(g: Grid): (r: Option<Pos>)
    ensures r.None? <==> forall p :: !Holds(g, p, Ring)
    ensures r.Some? ==> Holds(g, r.value, Ring)
    ensures r.Some? ==> forall q :: Holds(g, q, Ring) ==> q.col <= r.value.col
    ensures r.Some? ==> forall q :: Holds(g, q, Ring) && Before(q, r.value) ==> q.col < r.value.col
  {
    var rings := Scan(g, Ring);
    ScanSpec(g, Ring);
    if |rings| == 0 then
      None
    else
      RingPick(g);
      assert rings[MaxColIndex(rings)] in rings;
      Some(rings[MaxColIndex(rings)])
  }

  /** The target depends only on where the rings are: two boards with the
      same ring cells pick the same target. */
  lemma TargetRingSameRings(g: Grid, h: Grid)
    requires forall p :: Holds(g, p, Ring) <==> Holds(h, p, Ring)
    ensures TargetRing(g) == TargetRing(h)
  {
  }

  // ------------------------------------------------------------ blocking

  /** q lies strictly between the aligned positions s and e. */
  predicate StrictlyBetween(s: Pos, e: Pos, q: Pos) {
    if s.row == e.row then
      q.row == s.row && (if s.col < e.col then s.col < q.col < e.col else e.col < q.col < s.col)
    else
      s.col == e.col && q.col == s.col
      && (if s.row < e.row then s.row < q.row < e.row else e.row < q.row < s.row)
  }

  function Min(a: int, b: int): int { if a < b then a else b }
  function Max(a: int, b: int): int { if a < b then b else a }

  /** `is_path_blocked`: true for endpoints sharing neither row nor column;
      for aligned endpoints, true exactly when a cell strictly between them
      holds a defender. The endpoints themselves are never inspected. */
  method IsPathBlocked(s: Pos, e: Pos, g: Grid) returns (blocked: bool)
    requires Rect(g)
    requires (s.row == e.row || s.col == e.col) ==> InBounds(g, s) && InBounds(g, e)
    ensures blocked <==>
      (s.row != e.row && s.col != e.col)
      || exists q :: StrictlyBetween(s, e, q) && InBounds(g, q) && At(g, q) == Defender
  {
    if s.row != e.row && s.col != e.col {
      return true;
    }
    if s.row == e.row {
      var lo, hi := Min(s.col, e.col), Max(s.col, e.col);
      var c := lo + 1;
      while c < hi
        invariant lo < c
        invariant forall q :: StrictlyBetween(s, e, q) && q.col < c ==> At(g, q) != Defender
      {
        if g[s.row][c] == Defender {
          assert StrictlyBetween(s, e, Pos(s.row, c));
          return true;
        }
        c := c + 1;
      }
    } else {
      var lo, hi := Min(s.row, e.row), Max(s.row, e.row);
      var r := lo + 1;
      while r < hi
        invariant lo < r
        invariant forall q :: StrictlyBetween(s, e, q) && q.row < r ==> At(g, q) != Defender
      {
        if g[r][s.col] == Defender {
          assert StrictlyBetween(s, e, Pos(r, s.col));
          return true;
        }
        r := r + 1;
      }
    }
    return false;
  }
}
