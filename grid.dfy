/**
 * Geometry of the maze: the fixed grid size, cells, the step-2 lattice of
 * nodes that the carving walks on, walks through passages, and the fixed
 * staircase that the fallback carves from the top-left to the bottom-right
 * corner.
 */
module Grid {
  const ScreenWidth := 800
  const ScreenHeight := 600
  const CellSize := 20

  /** Number of columns of the grid (40). */
  const GridWidth := ScreenWidth / CellSize
  /** Number of rows of the grid (30). */
  const GridHeight := ScreenHeight / CellSize

  /** Cell values: main.py stores plain integers 1 (wall) and 0 (passage). */
  const Wall := 1
  const Passage := 0

  /** A grid coordinate (row, column). */
  type Cell = (int, int)

  predicate InBounds(c: Cell) {
    0 <= c.0 < GridHeight && 0 <= c.1 < GridWidth
  }

  /** A lattice node: an in-bounds cell whose row and column are both even. */
  predicate IsNode(c: Cell) {
    InBounds(c) && c.0 % 2 == 0 && c.1 % 2 == 0
  }

  /** `b` lies exactly two cells from `a` along one axis. */
  predicate LatticeStep(a: Cell, b: Cell) {
    || (a.0 == b.0 && (b.1 == a.1 + 2 || b.1 == a.1 - 2))
    || (a.1 == b.1 && (b.0 == a.0 + 2 || b.0 == a.0 - 2))
  }

  /** A lattice step from a node that stays in bounds lands on a node. */
  lemma StepToNode(a: Cell, b: Cell)
    requires IsNode(a) && InBounds(b) && LatticeStep(a, b)
    ensures IsNode(b)
  {
  }

  /** `a` and `b` share a side. */
  predicate Adjacent(a: Cell, b: Cell) {
    || (a.0 == b.0 && (b.1 == a.1 + 1 || b.1 == a.1 - 1))
    || (a.1 == b.1 && (b.0 == a.0 + 1 || b.0 == a.0 - 1))
  }

  /**
   * The cell halfway between two cells. main.py divides with Python's
   * floor division by 2, which agrees with Dafny's Euclidean division for
   * every integer numerator.
   */
  function Midpoint(a: Cell, b: Cell): (m: Cell)
    ensures LatticeStep(a, b) ==> Adjacent(a, m) && Adjacent(m, b)
    ensures LatticeStep(a, b) && InBounds(a) && InBounds(b) ==> InBounds(m)
    ensures LatticeStep(a, b) && IsNode(a) ==> (m.0 % 2 == 0 || m.1 % 2 == 0) && !IsNode(m)
    ensures LatticeStep(a, b) && IsNode(a) && IsNode(b) ==> m.0 < GridHeight - 1 && m.1 < GridWidth - 1
  {
    ((a.0 + b.0) / 2, (a.1 + b.1) / 2)
  }

  /** The cell between two nodes a lattice step apart determines the two nodes, up to order. */
  lemma MidpointDetermines(a: Cell, b: Cell, a': Cell, b': Cell)
    requires IsNode(a) && IsNode(b) && IsNode(a') && IsNode(b')
    requires LatticeStep(a, b) && LatticeStep(a', b') && Midpoint(a, b) == Midpoint(a', b')
    ensures (a' == a && b' == b) || (a' == b && b' == a)
  {
  }

  /** Player directions. */
  datatype Direction = Up | Down | Left | Right

  /** The cell one step from `c` in direction `d` (rows grow downwards). */
  function Neighbour(c: Cell, d: Direction): (r: Cell)
    ensures Adjacent(c, r)
    ensures d == Up ==> r.0 < c.0
    ensures d == Down ==> r.0 > c.0
    ensures d == Left ==> r.1 < c.1
    ensures d == Right ==> r.1 > c.1
  {
    match d
    case Up => (c.0 - 1, c.1)
    case Down => (c.0 + 1, c.1)
    case Left => (c.0, c.1 - 1)
    case Right => (c.0, c.1 + 1)
  }

  // ---------------------------------------------------------------------
  // Walks through passages
  // ---------------------------------------------------------------------

  /** `p` visits only cells of `open`, each step to a side-sharing cell. */
  ghost predicate IsPath(p: seq<Cell>, open: set<Cell>) {
    && (forall k :: 0 <= k < |p| ==> p[k] in open)
    && (forall k :: 0 <= k < |p| - 1 ==> Adjacent(p[k], p[k + 1]))
  }

  /** `p` is a walk through `open` from `a` to `b`. */
  ghost predicate Connects(p: seq<Cell>, a: Cell, b: Cell, open: set<Cell>) {
    |p| > 0 && p[0] == a && p[|p| - 1] == b && IsPath(p, open)
  }

  /** Opening more cells keeps every walk a walk. */
  lemma PathMonotone(p: seq<Cell>, a: Cell, b: Cell, open: set<Cell>, open': set<Cell>)
    requires Connects(p, a, b, open) && open <= open'
    ensures Connects(p, a, b, open')
  {
  }

  /** A walk to a node, continued through the wall between it and a next node. */
  lemma ExtendThroughWall(p: seq<Cell>, a: Cell, t: Cell, n: Cell, open: set<Cell>)
    requires Connects(p, a, t, open) && LatticeStep(t, n)
    requires Midpoint(t, n) in open && n in open
    ensures Connects(p + [Midpoint(t, n), n], a, n, open)
  {
    var q := p + [Midpoint(t, n), n];
    forall k | 0 <= k < |q| - 1 ensures Adjacent(q[k], q[k + 1]) {
      if k < |p| - 1 {
        assert q[k] == p[k] && q[k + 1] == p[k + 1];
      }
    }
  }

  /** Some walk through `open` leads from the start corner (0, 0) to `c`. */
  ghost predicate Reachable(c: Cell, open: set<Cell>) {
    exists p {:trigger Connects(p, (0, 0), c, open)} :: Connects(p, (0, 0), c, open)
  }

  /** Two walks that meet are one walk. */
  lemma {:induction false} JoinPaths(p: seq<Cell>, q: seq<Cell>, a: Cell, b: Cell, c: Cell, open: set<Cell>)
    requires Connects(p, a, b, open) && Connects(q, b, c, open)
    ensures Connects(p + q[1..], a, c, open)
  {
    var r := p + q[1..];
    forall k | 0 <= k < |r| ensures r[k] in open {
      if k >= |p| {
        assert r[k] == q[k - |p| + 1];
      }
    }
    forall k | 0 <= k < |r| - 1 ensures Adjacent(r[k], r[k + 1]) {
      if k < |p| - 1 {
        assert r[k] == p[k] && r[k + 1] == p[k + 1];
      } else if k == |p| - 1 {
        assert r[k] == q[0] && r[k + 1] == q[1];
      } else {
        assert r[k] == q[k - |p| + 1] && r[k + 1] == q[k - |p| + 2];
      }
    }
  }

  // ---------------------------------------------------------------------
  // Playing through passages
  // ---------------------------------------------------------------------

  /** The direction that leads from `a` to the side-sharing cell `b`. */
  function DirectionTo(a: Cell, b: Cell): (d: Direction)
    requires Adjacent(a, b)
    ensures Neighbour(a, d) == b
  {
    if b.0 < a.0 then Up else if b.0 > a.0 then Down else if b.1 < a.1 then Left else Right
  }

  /**
   * Where one player move in direction `d` from `c` ends, when the cells of
   * `open` are the passages: on the neighbouring cell if it is in bounds
   * and a passage, otherwise where it started.
   */
  function Move(c: Cell, d: Direction, open: set<Cell>): (r: Cell)
    ensures r == c || (r == Neighbour(c, d) && InBounds(r) && r in open)
    ensures InBounds(Neighbour(c, d)) && Neighbour(c, d) in open ==> r == Neighbour(c, d)
  {
    var t := Neighbour(c, d);
    if InBounds(t) && t in open then t else c
  }

  /** Where a sequence of moves ends. */
  function MoveAll(c: Cell, ds: seq<Direction>, open: set<Cell>): (r: Cell)
    decreases ds
  {
    if ds == [] then c else MoveAll(Move(c, ds[0], open), ds[1..], open)
  }

  /** A walk through in-bounds passages can be played as player moves, one per step of the walk. */
  lemma {:induction false} WalkAsMoves(p: seq<Cell>, a: Cell, b: Cell, open: set<Cell>) returns (ds: seq<Direction>)
    requires Connects(p, a, b, open)
    requires forall c :: c in open ==> InBounds(c)
    ensures |ds| == |p| - 1
    ensures MoveAll(a, ds, open) == b
  {
    if |p| == 1 {
      ds := [];
    } else {
      assert Adjacent(p[0], p[1]) && p[1] in open;
      var d := DirectionTo(a, p[1]);
      assert Move(a, d, open) == p[1];
      var rest := WalkAsMoves(p[1..], p[1], b, open);
      ds := [d] + rest;
      assert ds[1..] == rest;
    }
  }

  /** A cell reached from (0, 0) through in-bounds passages can be walked to by the player. */
  lemma ReachableByMoves(c: Cell, open: set<Cell>) returns (ds: seq<Direction>)
    requires Reachable(c, open)
    requires forall x :: x in open ==> InBounds(x)
    ensures MoveAll((0, 0), ds, open) == c
  {
    var p :| Connects(p, (0, 0), c, open);
    ds := WalkAsMoves(p, (0, 0), c, open);
  }

  // ---------------------------------------------------------------------
  // The lattice is connected
  // ---------------------------------------------------------------------

  /** Every lattice step out of a node of `s` lands in `s` again. */
  ghost predicate ClosedUnderSteps(s: set<Cell>) {
    forall n, m :: n in s && IsNode(n) && IsNode(m) && LatticeStep(n, m) ==> m in s
  }

  /**
   * A set of cells that holds the corner node (0, 0) and is closed under
   * lattice steps holds every node: every node is reached from (0, 0) by
   * moving down two rows at a time and then right two columns at a time.
   */
  lemma {:induction false} ClosedSetHoldsNode(s: set<Cell>, n: Cell)
    requires (0, 0) in s && ClosedUnderSteps(s) && IsNode(n)
    ensures n in s
    decreases n.0 + n.1
  {
    if n != (0, 0) {
      var m := if n.0 >= 2 then (n.0 - 2, n.1) else (n.0, n.1 - 2);
      ClosedSetHoldsNode(s, m);
      assert LatticeStep(m, n);
    }
  }

  lemma ClosedSetHoldsAllNodes(s: set<Cell>)
    requires (0, 0) in s && ClosedUnderSteps(s)
    ensures forall n :: IsNode(n) ==> n in s
  {
    forall n | IsNode(n) ensures n in s {
      ClosedSetHoldsNode(s, n);
    }
  }

  // ---------------------------------------------------------------------
  // Counting the nodes
  // ---------------------------------------------------------------------

  /** The nodes in rows below `h`. */
  ghost function NodesBelow(h: int): set<Cell> {
    set i, j | 0 <= i < h && 0 <= j < GridWidth && i % 2 == 0 && j % 2 == 0 :: (i, j)
  }

  /** The cells of row `i` in even columns below `w`. */
  ghost function RowNodes(i: int, w: int): set<Cell> {
    set j | 0 <= j < w && j % 2 == 0 :: (i, j)
  }

  lemma {:induction false} RowNodesCount(i: int, w: nat)
    ensures |RowNodes(i, 2 * w)| == w
  {
    if w > 0 {
      RowNodesCount(i, w - 1);
      assert RowNodes(i, 2 * w) == RowNodes(i, 2 * (w - 1)) + {(i, 2 * (w - 1))};
    }
  }

  /** Two more rows add the nodes of one row, none of them counted before. */
  lemma NodesBelowStep(h: nat)
    ensures NodesBelow(2 * h + 2) == NodesBelow(2 * h) + RowNodes(2 * h, GridWidth)
    ensures NodesBelow(2 * h) * RowNodes(2 * h, GridWidth) == {}
  {
    assert forall c :: c in NodesBelow(2 * h + 2) <==> c in NodesBelow(2 * h) || c in RowNodes(2 * h, GridWidth);
  }

  lemma {:induction false} NodesBelowCount(h: nat)
    requires 2 * h <= GridHeight
    ensures |NodesBelow(2 * h)| == h * 20
  {
    if h > 0 {
      NodesBelowCount(h - 1);
      NodesBelowStep(h - 1);
      assert GridWidth == 2 * 20;
      RowNodesCount(2 * (h - 1), 20);
    }
  }

  /** The grid has 15 x 20 = 300 nodes. */
  lemma NodeCount()
    ensures |NodesBelow(GridHeight)| == 300
    ensures forall n :: IsNode(n) <==> n in NodesBelow(GridHeight)
  {
    NodesBelowCount(GridHeight / 2);
  }

  // ---------------------------------------------------------------------
  // The fallback staircase
  // ---------------------------------------------------------------------

  function Min(a: int, b: int): (m: int)
    ensures m <= a && m <= b && (m == a || m == b)
  {
    if a < b then a else b
  }

  /** Number of cells the staircase writes: max(GridHeight - 1, GridWidth - 1). */
  const StairSteps := if GridHeight < GridWidth then GridWidth - 1 else GridHeight - 1

  /**
   * The cell the staircase walk stands on after `k` steps: each step adds
   * one to the row until the last row and one to the column until the last
   * column.
   */
  function StairCell(k: nat): (c: Cell)
    ensures k <= StairSteps ==> InBounds(c)
    ensures k == StairSteps ==> c == (GridHeight - 1, GridWidth - 1)
    ensures 0 < k < StairSteps ==> c != (GridHeight - 1, GridWidth - 1)
  {
    (Min(k, GridHeight - 1), Min(k, GridWidth - 1))
  }

  /** `c` is none of the first `n` cells the staircase opens. */
  ghost predicate OffStairs(c: Cell, n: nat) {
    forall k :: 1 <= k <= n ==> StairCell(k) != c
  }

  /** The staircase alone, as main.py carves it, is no walk: its first step is diagonal. */
  lemma StaircaseStartsDiagonally()
    ensures !Adjacent(StairCell(0), StairCell(1))
  {
  }

  /**
   * Once the node (GridHeight - 2, GridHeight) is reached and the staircase
   * is open, the exit corner is reached: the staircase runs along the last
   * row from column GridHeight to the last column.
   */
  lemma {:induction false} StaircaseReachesExit(p: seq<Cell>, open: set<Cell>) returns (q: seq<Cell>)
    requires Connects(p, (0, 0), (GridHeight - 2, GridHeight), open)
    requires forall k :: 1 <= k <= StairSteps ==> StairCell(k) in open
    ensures Connects(q, (0, 0), (GridHeight - 1, GridWidth - 1), open)
  {
    var run := [(GridHeight - 2, GridHeight)] +
      seq(GridWidth - GridHeight, i requires 0 <= i < GridWidth - GridHeight => (GridHeight - 1, GridHeight + i));
    forall k | 1 <= k < |run| ensures run[k] in open {
      assert run[k] == StairCell(GridHeight + k - 1);
    }
    assert Connects(run, (GridHeight - 2, GridHeight), (GridHeight - 1, GridWidth - 1), open);
    JoinPaths(p, run, (0, 0), (GridHeight - 2, GridHeight), (GridHeight - 1, GridWidth - 1), open);
    q := p + run[1..];
  }
}
