/**
 * The bookkeeping of the depth-first carving, stated on sets of cells
 * rather than on the grid: `walls` and `open` mirror the grid's walls and
 * passages, `written` holds the cells the carving has opened, `popped` the
 * nodes taken off the stack, and `paths` a walk from (0, 0) to each carved
 * node. The carving loop keeps `CarveInv`; each of its two branches is one
 * lemma below.
 */
module Carving {
  import opened Grid

  ghost predicate CarveInv(stack: seq<Cell>, paths: map<Cell, seq<Cell>>, popped: set<Cell>,
                           walls: set<Cell>, open: set<Cell>, written: set<Cell>, fromWalls: bool)
  {
    && OpenCells(open, written)
    && Walks(stack, paths, popped, walls, open)
    && (fromWalls ==> CarvedTree(stack, paths, popped, open, written))
  }

  /**
   * The open cells lie in bounds and include (0, 0). Carving writes only
   * nodes and the cells between two nodes, never in the last row or column.
   */
  ghost predicate OpenCells(open: set<Cell>, written: set<Cell>) {
    && (forall c :: c in open ==> InBounds(c))
    && (forall c :: c in written ==>
          c in open && c.0 < GridHeight - 1 && c.1 < GridWidth - 1 && (c.0 % 2 == 0 || c.1 % 2 == 0))
    && (0, 0) in open
  }

  /**
   * Every stacked coordinate is an open node with a walk to it from (0, 0),
   * and a popped node had, and keeps, no wall two steps away.
   */
  ghost predicate Walks(stack: seq<Cell>, paths: map<Cell, seq<Cell>>, popped: set<Cell>,
                        walls: set<Cell>, open: set<Cell>)
  {
    && (forall k :: 0 <= k < |stack| ==> IsNode(stack[k]) && stack[k] in open && stack[k] in paths)
    && (forall n :: n in paths ==> IsNode(n) && Connects(paths[n], (0, 0), n, open))
    && (forall n :: n in popped ==> n in paths && forall m :: InBounds(m) && LatticeStep(n, m) ==> m !in walls)
  }

  /**
   * What carving from an all-wall grid keeps: every open node is on the
   * stack or was popped, and the open cells are the carved nodes plus one
   * cell fewer between them, each between two carved nodes. With every
   * carved node reached from (0, 0), these cells form a tree.
   */
  ghost predicate CarvedTree(stack: seq<Cell>, paths: map<Cell, seq<Cell>>, popped: set<Cell>,
                             open: set<Cell>, written: set<Cell>)
  {
    && (forall n :: IsNode(n) && n in open ==> n in stack || n in popped)
    && written == open && |written| == 2 * |paths| - 1
    && TreeEdges(open)
  }

  /** Every open cell between two nodes a lattice step apart has both nodes open. */
  ghost predicate TreeEdges(open: set<Cell>) {
    forall a, b :: IsNode(a) && IsNode(b) && LatticeStep(a, b) && Midpoint(a, b) in open ==> a in open && b in open
  }

  /** The state right after (0, 0) is opened and pushed. */
  lemma CarveStart(walls: set<Cell>, open: set<Cell>, fromWalls: bool)
    requires forall c :: c in open ==> InBounds(c)
    requires (0, 0) in open
    requires fromWalls ==> open == {(0, 0)}
    ensures CarveInv([(0, 0)], map[(0, 0) := [(0, 0)]], {}, walls, open, {(0, 0)}, fromWalls)
  {
    assert Connects([(0, 0)], (0, 0), (0, 0), open);
  }

  /** The top of the stack is a carved node with a walk to it. */
  lemma CarveTop(stack: seq<Cell>, paths: map<Cell, seq<Cell>>, popped: set<Cell>,
                 walls: set<Cell>, open: set<Cell>, written: set<Cell>, fromWalls: bool)
    requires CarveInv(stack, paths, popped, walls, open, written, fromWalls) && stack != []
    ensures IsNode(stack[|stack| - 1]) && stack[|stack| - 1] in paths && stack[|stack| - 1] in open
  {
  }

  /**
   * The branch that carves: the wall node `next`, two cells from the top
   * of the stack, is opened with the cell between, and pushed.
   */
  lemma {:induction false} CarvePush(stack: seq<Cell>, paths: map<Cell, seq<Cell>>, popped: set<Cell>,
                                     walls: set<Cell>, open: set<Cell>, written: set<Cell>, fromWalls: bool,
                                     next: Cell)
    requires CarveInv(stack, paths, popped, walls, open, written, fromWalls)
    requires stack != []
    requires InBounds(next) && LatticeStep(stack[|stack| - 1], next) && next in walls && next !in open
    ensures var top := stack[|stack| - 1];
      var mid := Midpoint(top, next);
      CarveInv(stack + [next], paths[next := paths[top] + [mid, next]], popped,
               walls - {mid, next}, open + {mid, next}, written + {mid, next}, fromWalls)
  {
    var top := stack[|stack| - 1];
    var mid := Midpoint(top, next);
    StepToNode(top, next);
    assert InBounds(mid) && !IsNode(mid) && mid.0 < GridHeight - 1 && mid.1 < GridWidth - 1;
    PushCells(open, written, {mid, next});
    PushWalks(stack, paths, popped, walls, open, next);
    if fromWalls {
      PushTree(stack, paths, popped, open, written, next);
    }
  }

  lemma PushCells(open: set<Cell>, written: set<Cell>, cells: set<Cell>)
    requires OpenCells(open, written)
    requires forall c :: c in cells ==>
      InBounds(c) && c.0 < GridHeight - 1 && c.1 < GridWidth - 1 && (c.0 % 2 == 0 || c.1 % 2 == 0)
    ensures OpenCells(open + cells, written + cells)
  {
  }

  /** A push keeps every walk, adds one to the pushed node, and closes no wall next to a popped node. */
  lemma {:induction false} PushWalks(stack: seq<Cell>, paths: map<Cell, seq<Cell>>, popped: set<Cell>,
                                     walls: set<Cell>, open: set<Cell>, next: Cell)
    requires Walks(stack, paths, popped, walls, open)
    requires stack != [] && IsNode(next) && LatticeStep(stack[|stack| - 1], next)
    ensures var top := stack[|stack| - 1];
      var mid := Midpoint(top, next);
      Walks(stack + [next], paths[next := paths[top] + [mid, next]], popped, walls - {mid, next}, open + {mid, next})
  {
    var top := stack[|stack| - 1];
    var mid := Midpoint(top, next);
    var stack', paths', walls', open' := stack + [next], paths[next := paths[top] + [mid, next]],
      walls - {mid, next}, open + {mid, next};
    forall n | n in paths' ensures IsNode(n) && Connects(paths'[n], (0, 0), n, open') {
      if n == next {
        ExtendThroughWall(paths[top], (0, 0), top, next, open');
      } else {
        PathMonotone(paths[n], (0, 0), n, open, open');
      }
    }
    forall k | 0 <= k < |stack'| ensures IsNode(stack'[k]) && stack'[k] in open' && stack'[k] in paths' {
      if k < |stack| {
        assert stack'[k] == stack[k];
      }
    }
  }

  /**
   * From an all-wall grid, a push opens two walls: the node pushed, and the
   * cell between it and the top, which is closed because the pushed node is.
   */
  lemma {:induction false} PushTree(stack: seq<Cell>, paths: map<Cell, seq<Cell>>, popped: set<Cell>,
                                    open: set<Cell>, written: set<Cell>, next: Cell)
    requires CarvedTree(stack, paths, popped, open, written)
    requires stack != [] && IsNode(stack[|stack| - 1]) && stack[|stack| - 1] in paths
    requires forall n :: n in paths ==> n in open
    requires IsNode(next) && LatticeStep(stack[|stack| - 1], next) && next !in open
    ensures var top := stack[|stack| - 1];
      var mid := Midpoint(top, next);
      CarvedTree(stack + [next], paths[next := paths[top] + [mid, next]], popped,
                 open + {mid, next}, written + {mid, next})
  {
    var top := stack[|stack| - 1];
    var mid := Midpoint(top, next);
    var stack', open' := stack + [next], open + {mid, next};
    assert mid !in open && mid != next;
    assert next !in paths;
    forall a, b | IsNode(a) && IsNode(b) && LatticeStep(a, b) && Midpoint(a, b) in open' ensures a in open' && b in open' {
      if Midpoint(a, b) == mid {
        MidpointDetermines(top, next, a, b);
      }
    }
    forall n | IsNode(n) && n in open' ensures n in stack' || n in popped {
      if n != next {
        assert n in open;
        assert n in stack ==> n in stack';
      }
    }
  }

  /** The branch that backtracks: the top node has no wall two steps away and is popped. */
  lemma {:induction false} CarvePop(stack: seq<Cell>, paths: map<Cell, seq<Cell>>, popped: set<Cell>,
                                    walls: set<Cell>, open: set<Cell>, written: set<Cell>, fromWalls: bool)
    requires CarveInv(stack, paths, popped, walls, open, written, fromWalls)
    requires stack != []
    requires forall m :: InBounds(m) && LatticeStep(stack[|stack| - 1], m) ==> m !in walls
    ensures CarveInv(stack[..|stack| - 1], paths, popped + {stack[|stack| - 1]}, walls, open, written, fromWalls)
  {
    var top, rest := stack[|stack| - 1], stack[..|stack| - 1];
    assert stack == rest + [top];
    forall k | 0 <= k < |rest| ensures IsNode(rest[k]) && rest[k] in open && rest[k] in paths {
      assert rest[k] == stack[k];
    }
    if fromWalls {
      forall n | IsNode(n) && n in open ensures n in rest || n in popped + {top} {
        if n != top && n in stack {
          var k :| 0 <= k < |stack| && stack[k] == n;
          assert rest[k] == n;
        }
      }
    }
  }

  /**
   * When the stack is empty and the carving began on an all-wall grid whose
   * cells are now all walls or passages, every node has been carved: all
   * 300 of them.
   */
  lemma {:induction false} CarveDone(paths: map<Cell, seq<Cell>>, popped: set<Cell>,
                                     walls: set<Cell>, open: set<Cell>, written: set<Cell>)
    requires CarveInv([], paths, popped, walls, open, written, true)
    requires forall c :: InBounds(c) ==> c in walls || c in open
    ensures forall n :: IsNode(n) ==> n in paths
    ensures |paths| == 300
  {
    ClosedSetHoldsAllNodes(open);
    NodeCount();
    assert paths.Keys == NodesBelow(GridHeight);
  }
}
