/**
 * The non-graphical state of the maze game: a GridHeight x GridWidth grid
 * of walls (1) and passages (0), the player's position and the exit's.
 *
 * Carving and the connectivity check address the grid as (x, y) with x the
 * row; the player's fields use playerY for the row and playerX for the
 * column, and so does the exit.
 */
module Maze {
  import opened Grid
  import opened Carving
  import opened Search

  class MazeGame {
    var grid: array2<int>
    var playerX: int
    var playerY: int
    var exitX: int
    var exitY: int

    /** The grid has the fixed size. */
    ghost predicate Valid()
      reads this
    {
      grid.Length0 == GridHeight && grid.Length1 == GridWidth
    }

    /** The cells that are passages. */
    ghost function Passages(): set<Cell>
      reads this, grid
    {
      set i, j | 0 <= i < grid.Length0 && 0 <= j < grid.Length1 && grid[i, j] == Passage :: (i, j)
    }

    /** The cells that are walls; carving shrinks this set. */
    ghost function Walls(): set<Cell>
      reads this, grid
    {
      set i, j | 0 <= i < grid.Length0 && 0 <= j < grid.Length1 && grid[i, j] == Wall :: (i, j)
    }

    /** Every cell is a wall, as right after the grid is built. */
    ghost predicate AllWalls()
      reads this, grid
    {
      forall i, j :: 0 <= i < grid.Length0 && 0 <= j < grid.Length1 ==> grid[i, j] == Wall
    }

    /** The grid's contents, row by row. */
    ghost function Cells(): (g: seq<seq<int>>)
      reads this, grid
      requires Valid()
      ensures |g| == GridHeight && forall i :: 0 <= i < GridHeight ==> |g[i]| == GridWidth
      ensures forall i, j :: 0 <= i < GridHeight && 0 <= j < GridWidth ==> g[i][j] == grid[i, j]
    {
      seq(grid.Length0, i requires 0 <= i < grid.Length0 reads this, grid =>
        seq(grid.Length1, j requires 0 <= i < grid.Length0 && 0 <= j < grid.Length1 reads this, grid => grid[i, j]))
    }

    /** A snapshot of the grid holding only walls. */
    static ghost predicate AllWallCells(g0: seq<seq<int>>) {
      forall i, j :: 0 <= i < |g0| && 0 <= j < |g0[i]| ==> g0[i][j] == Wall
    }

    /**
     * The carving's ghost sets mirror the grid: `walls` and `open` are its
     * walls and passages, and every cell outside `written` still holds its
     * value in `g0`.
     */
    ghost predicate Mirrors(walls: set<Cell>, open: set<Cell>, written: set<Cell>, g0: seq<seq<int>>)
      reads this, grid
      requires Valid()
    {
      && |g0| == GridHeight && (forall i :: 0 <= i < GridHeight ==> |g0[i]| == GridWidth)
      && forall c :: InBounds(c) ==>
        && (c in walls <==> grid[c.0, c.1] == Wall)
        && (c in open <==> grid[c.0, c.1] == Passage)
        && (c in written || grid[c.0, c.1] == g0[c.0][c.1])
    }

    ghost predicate PlayerInBounds()
      reads this
    {
      InBounds((playerY, playerX))
    }

    /** The exit is the bottom-right corner. */
    ghost predicate ExitAtCorner()
      reads this
    {
      exitX == GridWidth - 1 && exitY == GridHeight - 1
    }

    // -------------------------------------------------------------------
    // Setting up a game
    // -------------------------------------------------------------------

    /** A new game: the state is built and a maze carved, with `pick` standing for the random choices. */
    constructor (pick: nat -> nat)
      ensures Valid() && PlayerInBounds() && ExitAtCorner()
      ensures playerX == 0 && playerY == 0 && !CheckWin()
      ensures grid[playerY, playerX] == Passage
      ensures forall n :: IsNode(n) ==> Reachable(n, Passages())
      ensures Reachable((exitY, exitX), Passages())
    {
      grid := new int[0, 0];
      playerX, playerY, exitX, exitY := 0, 0, 0, 0;
      new;
      ResetGame(pick);
    }

    /**
     * Starts a game over: an all-wall grid, the player at the top-left
     * corner, the exit at the bottom-right corner, then a carved maze. The
     * maze is solvable: every node and the exit are reached from the start
     * by walking through passages.
     */
    method ResetGame(pick: nat -> nat)
      modifies this
      ensures Valid() && fresh(grid) && PlayerInBounds() && ExitAtCorner()
      ensures playerX == 0 && playerY == 0 && !CheckWin()
      ensures grid[playerY, playerX] == Passage
      ensures forall n :: IsNode(n) ==> Reachable(n, Passages())
      ensures Reachable((exitY, exitX), Passages())
    {
      SetUpState();
      GenerateMaze(pick);
    }

    /** The state part of a restart: a grid of walls only, the player at (0, 0), the exit at the far corner. */
    method SetUpState()
      modifies this
      ensures Valid() && fresh(grid) && AllWalls()
      ensures playerX == 0 && playerY == 0
      ensures exitX == GridWidth - 1 && exitY == GridHeight - 1
    {
      grid := new int[GridHeight, GridWidth]((i, j) => Wall);
      playerX := 0;
      playerY := 0;
      exitX := GridWidth - 1;
      exitY := GridHeight - 1;
    }

    // -------------------------------------------------------------------
    // Maze generation
    // -------------------------------------------------------------------

    /**
     * Carves the maze, then runs the connectivity check and its fallback.
     * Started on an all-wall grid, every node and the bottom-right corner
     * end up reached from (0, 0) through passages.
     */
    method GenerateMaze(pick: nat -> nat)
      requires Valid()
      modifies grid
      ensures grid[0, 0] == Passage
      ensures forall i, j :: 0 <= i < GridHeight && 0 <= j < GridWidth && old(grid[i, j]) == Passage ==>
        grid[i, j] == Passage
      ensures old(AllWalls()) ==> forall n :: IsNode(n) ==> Reachable(n, Passages())
      ensures old(AllWalls()) ==> Reachable((GridHeight - 1, GridWidth - 1), Passages())
    {
      var paths := Carve(pick);
      ghost var carved := Passages();
      EnsurePathToExit();
      assert carved <= Passages();
      if old(AllWalls()) {
        MazeReachable(paths, carved);
      }
    }

    /**
     * With a walk through `carved` passages to every node, and the
     * staircase open, every node and the bottom-right corner are reachable.
     */
    lemma MazeReachable(paths: map<Cell, seq<Cell>>, carved: set<Cell>)
      requires Valid() && carved <= Passages()
      requires forall n :: IsNode(n) ==> n in paths
      requires forall n :: n in paths ==> Connects(paths[n], (0, 0), n, carved)
      requires forall k :: 1 <= k <= StairSteps ==> grid[StairCell(k).0, StairCell(k).1] == Passage
      ensures forall n :: IsNode(n) ==> Reachable(n, Passages())
      ensures Reachable((GridHeight - 1, GridWidth - 1), Passages())
    {
      forall n | IsNode(n) ensures Reachable(n, Passages()) {
        PathMonotone(paths[n], (0, 0), n, carved, Passages());
      }
      var corner := (GridHeight - 2, GridHeight);
      assert IsNode(corner);
      PathMonotone(paths[corner], (0, 0), corner, carved, Passages());
      forall k | 1 <= k <= StairSteps ensures StairCell(k) in Passages() {
        assert grid[StairCell(k).0, StairCell(k).1] == Passage;
      }
      var q := StaircaseReachesExit(paths[corner], Passages());
    }

    /**
     * The randomized depth-first carving: from (0, 0), repeatedly open a
     * wall node two cells away from the node on top of the stack, together
     * with the cell between them, or pop the stack when there is none.
     * `pick(k) % |neighbors|` is the index chosen at the k-th choice.
     *
     * The returned map gives, for each carved node, a walk to it from
     * (0, 0) through passages.
     */
    method Carve(pick: nat -> nat) returns (ghost paths: map<Cell, seq<Cell>>)
      requires Valid()
      modifies grid
      ensures grid[0, 0] == Passage
      // carving only opens cells: nodes and cells between two nodes, none in the last row or column
      ensures forall i, j :: 0 <= i < GridHeight && 0 <= j < GridWidth && old(grid[i, j]) == Passage ==>
        grid[i, j] == Passage
      ensures forall i, j :: 0 <= i < GridHeight && 0 <= j < GridWidth && grid[i, j] != old(grid[i, j]) ==>
        grid[i, j] == Passage && i < GridHeight - 1 && j < GridWidth - 1 && (i % 2 == 0 || j % 2 == 0)
      ensures forall n :: n in paths ==> IsNode(n) && Connects(paths[n], (0, 0), n, Passages())
      // from an all-wall grid, all 300 nodes are carved, and the passages form
      // a tree: the nodes and one cell fewer, each between two of them
      ensures old(AllWalls()) ==> (forall n :: IsNode(n) ==> n in paths) && |paths| == 300
      ensures old(AllWalls()) ==> |Passages()| == 2 * |paths| - 1 == 599 && TreeEdges(Passages())
    {
      ghost var startWalls := AllWalls();
      ghost var g0 := Cells();
      assert startWalls ==> AllWallCells(g0);
      var stack: seq<Cell> := [(0, 0)];
      grid[0, 0] := Passage;
      var draws: nat := 0;
      // the ghost sets mirror the grid; `popped` holds the nodes popped off the stack
      ghost var walls, open := Walls(), Passages();
      ghost var written: set<Cell> := {(0, 0)};
      ghost var popped: set<Cell> := {};
      paths := map[(0, 0) := [(0, 0)]];
      CarveStart(walls, open, startWalls);
      while stack != []
        invariant Mirrors(walls, open, written, g0)
        invariant CarveInv(stack, paths, popped, walls, open, written, startWalls)
        decreases walls, |stack|
      {
        CarveTop(stack, paths, popped, walls, open, written, startWalls);
        var (x, y) := stack[|stack| - 1];
        var neighbors := GetUnvisitedNeighbors(x, y);
        if neighbors != [] {
          var next := neighbors[pick(draws) % |neighbors|];
          draws := draws + 1;
          assert next in neighbors;
          CarvePush(stack, paths, popped, walls, open, written, startWalls, next);
          walls, open, written := CarveTowards(x, y, next, walls, open, written, g0);
          stack := stack + [next];
          paths := paths[next := paths[(x, y)] + [Midpoint((x, y), next), next]];
        } else {
          CarvePop(stack, paths, popped, walls, open, written, startWalls);
          popped := popped + {(x, y)};
          stack := stack[..|stack| - 1];
        }
      }
      CarveResult(paths, popped, walls, open, written, g0, startWalls);
    }

    /** What the carving loop leaves, stated on the grid against its contents `g0` before carving. */
    lemma CarveResult(paths: map<Cell, seq<Cell>>, popped: set<Cell>, walls: set<Cell>, open: set<Cell>,
                      written: set<Cell>, g0: seq<seq<int>>, fromWalls: bool)
      requires Valid() && Mirrors(walls, open, written, g0)
      requires CarveInv([], paths, popped, walls, open, written, fromWalls)
      requires fromWalls ==> AllWallCells(g0)
      ensures forall i, j :: 0 <= i < GridHeight && 0 <= j < GridWidth && grid[i, j] != g0[i][j] ==>
        grid[i, j] == Passage && i < GridHeight - 1 && j < GridWidth - 1 && (i % 2 == 0 || j % 2 == 0)
      ensures forall n :: n in paths ==> IsNode(n) && Connects(paths[n], (0, 0), n, Passages())
      ensures fromWalls ==> (forall n :: IsNode(n) ==> n in paths) && |paths| == 300
      ensures fromWalls ==> |Passages()| == 2 * |paths| - 1 == 599 && TreeEdges(Passages())
    {
      forall i, j | 0 <= i < GridHeight && 0 <= j < GridWidth && grid[i, j] != g0[i][j]
        ensures grid[i, j] == Passage && i < GridHeight - 1 && j < GridWidth - 1 && (i % 2 == 0 || j % 2 == 0)
      {
        assert InBounds((i, j));
      }
      assert open == Passages();
      if fromWalls {
        CarveDone(paths, popped, walls, open, written);
      }
    }

    /**
     * One carving step: opens the cell between the node (x, y) and the wall
     * node `next`, then `next` itself; the ghost sets follow the grid.
     */
    method CarveTowards(x: int, y: int, next: Cell, ghost walls: set<Cell>, ghost open: set<Cell>,
                        ghost written: set<Cell>, ghost g0: seq<seq<int>>)
      returns (ghost walls': set<Cell>, ghost open': set<Cell>, ghost written': set<Cell>)
      requires Valid() && Mirrors(walls, open, written, g0)
      requires IsNode((x, y)) && InBounds(next) && LatticeStep((x, y), next)
      modifies grid
      ensures Mirrors(walls', open', written', g0)
      ensures var cells := {Midpoint((x, y), next), next};
        walls' == walls - cells && open' == open + cells && written' == written + cells
      ensures forall i, j :: 0 <= i < GridHeight && 0 <= j < GridWidth ==>
        grid[i, j] == if (i, j) in {Midpoint((x, y), next), next} then Passage else old(grid[i, j])
    {
      RemoveWallBetween(x, y, next.0, next.1);
      grid[next.0, next.1] := Passage;
      var cells := {Midpoint((x, y), next), next};
      walls', open', written' := walls - cells, open + cells, written + cells;
    }

    /**
     * The wall nodes two cells from (x, y) along an axis, in the order up,
     * down, left, right.
     */
    function GetUnvisitedNeighbors(x: int, y: int): (r: seq<Cell>)
      reads this, grid
      requires Valid() && InBounds((x, y))
      ensures forall c :: c in r <==> InBounds(c) && LatticeStep((x, y), c) && grid[c.0, c.1] == Wall
      ensures |r| <= 4
    {
      (if x > 1 && grid[x - 2, y] == Wall then [(x - 2, y)] else [])
      + (if x < GridHeight - 2 && grid[x + 2, y] == Wall then [(x + 2, y)] else [])
      + (if y > 1 && grid[x, y - 2] == Wall then [(x, y - 2)] else [])
      + (if y < GridWidth - 2 && grid[x, y + 2] == Wall then [(x, y + 2)] else [])
    }

    /** Opens the cell halfway between (x1, y1) and (x2, y2), and nothing else. */
    method RemoveWallBetween(x1: int, y1: int, x2: int, y2: int)
      requires Valid() && InBounds(Midpoint((x1, y1), (x2, y2)))
      modifies grid
      ensures forall i, j :: 0 <= i < GridHeight && 0 <= j < GridWidth ==>
        grid[i, j] == if (i, j) == Midpoint((x1, y1), (x2, y2)) then Passage else old(grid[i, j])
    {
      grid[(x1 + x2) / 2, (y1 + y2) / 2] := Passage;
    }

    // -------------------------------------------------------------------
    // Connectivity check and fallback
    // -------------------------------------------------------------------

    /**
     * The connectivity check followed by its fallback. The check never
     * reaches its target, so the staircase is always carved: the grid ends
     * as before with the staircase written.
     */
    method EnsurePathToExit()
      requires Valid()
      modifies grid
      ensures forall k :: 1 <= k <= StairSteps ==> grid[StairCell(k).0, StairCell(k).1] == Passage
      ensures forall i, j :: 0 <= i < GridHeight && 0 <= j < GridWidth && OffStairs((i, j), StairSteps) ==>
        grid[i, j] == old(grid[i, j])
    {
      var reached, explored := SearchExit();
      if !reached {
        var steps := CreateDirectPath();
      }
    }

    /**
     * The breadth-first search of the connectivity check. It steps two
     * cells at a time from (0, 0) and enqueues a cell when it is in bounds,
     * a passage and not yet visited; the cell in between is not looked at.
     * Its target is (GridWidth - 1, GridHeight - 1), whose first coordinate
     * is past the last row, so it is never reached.
     *
     * `explored` is the set of dequeued cells: it holds (0, 0) and every
     * passage node two steps from any of its members.
     */
    method SearchExit() returns (reached: bool, ghost explored: set<Cell>)
      requires Valid()
      ensures !reached
      ensures (0, 0) in explored
      ensures forall c :: c in explored ==> IsNode(c) && (c == (0, 0) || grid[c.0, c.1] == Passage)
      ensures forall c, m :: c in explored && InBounds(m) && LatticeStep(c, m) && grid[m.0, m.1] == Passage ==>
        m in explored
    {
      ghost var open := Passages();
      var queue: seq<Cell> := [(0, 0)];
      var visited: set<Entry> := {Num(0)};
      reached := false;
      explored := {};
      SearchStart(open);
      while queue != []
        invariant !reached
        invariant SearchInv(queue, visited, explored, open)
        decreases AllPositions() - visited, |queue|
      {
        ExpandStart(queue, visited, explored, open);
        var (x, y) := queue[0];
        queue := queue[1..];
        if (x, y) == (GridWidth - 1, GridHeight - 1) {
          reached := true;
          break;
        }
        explored := explored + {(x, y)};
        ghost var queue0, visited0 := queue, visited;
        for d := 0 to 4
          invariant ExpandInv((x, y), d, queue, visited, explored, open, queue0, visited0)
        {
          ExpandMove((x, y), d, queue, visited, explored, open, queue0, visited0);
          var (dx, dy) := SearchSteps[d];
          var (nx, ny) := (x + dx, y + dy);
          assert InBounds((nx, ny)) ==> ((nx, ny) in open <==> grid[nx, ny] == Passage);
          if 0 <= nx < GridHeight && 0 <= ny < GridWidth && grid[nx, ny] == Passage && Pos(nx, ny) !in visited {
            visited := visited + {Pos(nx, ny)};
            queue := queue + [(nx, ny)];
          }
        }
        ExpandEnd((x, y), queue, visited, explored, open, queue0, visited0);
      }
      SearchEnd(visited, explored, open);
    }

    /**
     * The fallback: walks from (0, 0) to (GridHeight - 1, GridWidth - 1),
     * each step adding one to the row unless at the last row and one to
     * the column unless at the last column, and opens every cell it steps
     * on. It takes StairSteps steps and changes no other cell.
     */
    method CreateDirectPath() returns (ghost steps: nat)
      requires Valid()
      modifies grid
      ensures steps == StairSteps
      ensures grid[GridHeight - 1, GridWidth - 1] == Passage
      ensures forall k :: 1 <= k <= StairSteps ==> grid[StairCell(k).0, StairCell(k).1] == Passage
      ensures forall i, j :: 0 <= i < GridHeight && 0 <= j < GridWidth && OffStairs((i, j), StairSteps) ==>
        grid[i, j] == old(grid[i, j])
    {
      var x, y := 0, 0;
      steps := 0;
      while (x, y) != (GridHeight - 1, GridWidth - 1)
        invariant steps <= StairSteps
        invariant (x, y) == StairCell(steps)
        invariant forall k :: 1 <= k <= steps ==> grid[StairCell(k).0, StairCell(k).1] == Passage
        invariant forall i, j :: 0 <= i < GridHeight && 0 <= j < GridWidth && OffStairs((i, j), steps) ==>
          grid[i, j] == old(grid[i, j])
        decreases (GridHeight - 1 - x) + (GridWidth - 1 - y)
      {
        if x < GridHeight - 1 {
          x := x + 1;
        }
        if y < GridWidth - 1 {
          y := y + 1;
        }
        steps := steps + 1;
        grid[x, y] := Passage;
      }
    }

    // -------------------------------------------------------------------
    // The player
    // -------------------------------------------------------------------

    /**
     * One step of the player: taken when the cell in that direction is in
     * bounds and a passage, ignored otherwise. The grid is not changed.
     * `won` is the win check made after the move.
     */
    method MovePlayer(direction: Direction) returns (won: bool)
      requires Valid() && PlayerInBounds()
      modifies this`playerX, this`playerY
      ensures PlayerInBounds()
      ensures (playerY, playerX) == Move(old((playerY, playerX)), direction, Passages())
      ensures old(grid[playerY, playerX]) == Passage ==> grid[playerY, playerX] == Passage
      ensures won <==> CheckWin()
    {
      if direction == Up && playerY > 0 && grid[playerY - 1, playerX] == Passage {
        playerY := playerY - 1;
      } else if direction == Down && playerY < GridHeight - 1 && grid[playerY + 1, playerX] == Passage {
        playerY := playerY + 1;
      } else if direction == Left && playerX > 0 && grid[playerY, playerX - 1] == Passage {
        playerX := playerX - 1;
      } else if direction == Right && playerX < GridWidth - 1 && grid[playerY, playerX + 1] == Passage {
        playerX := playerX + 1;
      }
      won := CheckWin();
    }

    /** The player stands on the exit. */
    predicate CheckWin()
      reads this
    {
      playerX == exitX && playerY == exitY
    }
  }
}
