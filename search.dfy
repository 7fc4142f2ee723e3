/**
 * The bookkeeping of the connectivity check's breadth-first search, stated
 * on the set `open` of passage cells (the search does not change the
 * grid). `explored` holds the cells taken off the queue. The search loop
 * keeps `SearchInv`; expanding one dequeued cell keeps `ExpandInv`, one
 * lemma per step.
 */
module Search {
  import opened Grid

  /**
   * A member of the search's `visited` set. main.py starts that set as
   * `{0, 0}`, the set holding the single integer 0, not the pair (0, 0):
   * `Num(0)` is that integer, `Pos(x, y)` a visited coordinate pair.
   */
  datatype Entry = Num(n: int) | Pos(x: int, y: int)

  /** Every coordinate pair of the grid, as a search entry. */
  ghost function AllPositions(): set<Entry> {
    set i, j | 0 <= i < GridHeight && 0 <= j < GridWidth :: Pos(i, j)
  }

  /** The four moves of the search, in the order it tries them. */
  const SearchSteps: seq<(int, int)> := [(-2, 0), (2, 0), (0, -2), (0, 2)]

  function Shift(c: Cell, d: (int, int)): (r: Cell) {
    (c.0 + d.0, c.1 + d.1)
  }

  /** The four moves reach exactly the cells a lattice step away. */
  lemma StepIsSearchStep(c: Cell, m: Cell)
    requires LatticeStep(c, m)
    ensures exists e :: 0 <= e < 4 && m == Shift(c, SearchSteps[e])
  {
    var e := if m.0 == c.0 - 2 then 0 else if m.0 == c.0 + 2 then 1 else if m.1 == c.1 - 2 then 2 else 3;
    assert m == Shift(c, SearchSteps[e]);
  }

  /** What holds of the queue, `visited` and `explored` at every point of the search. */
  ghost predicate Frontier(queue: seq<Cell>, visited: set<Entry>, explored: set<Cell>, open: set<Cell>) {
    // the queue holds nodes, each visited except the starting (0, 0)
    && (forall k :: 0 <= k < |queue| ==>
          IsNode(queue[k]) && (queue[k] == (0, 0) || Pos(queue[k].0, queue[k].1) in visited))
    // only in-bounds passage nodes are ever marked visited
    && (forall e :: e in visited ==> e == Num(0) || (e.Pos? && IsNode((e.x, e.y)) && (e.x, e.y) in open))
    && (forall c :: c in explored ==> IsNode(c) && (c == (0, 0) || c in open))
    && ((0, 0) in explored || queue == [(0, 0)])
    // a visited cell has been dequeued or is still waiting
    && (forall e :: e in visited && e.Pos? ==> (e.x, e.y) in explored || (e.x, e.y) in queue)
  }

  /** Every passage a lattice step from an explored cell other than `except` is visited. */
  ghost predicate ClosedExcept(visited: set<Entry>, explored: set<Cell>, open: set<Cell>, except: set<Cell>) {
    forall c, m :: c in explored && c !in except && InBounds(m) && LatticeStep(c, m) && m in open ==>
      Pos(m.0, m.1) in visited
  }

  ghost predicate SearchInv(queue: seq<Cell>, visited: set<Entry>, explored: set<Cell>, open: set<Cell>) {
    Frontier(queue, visited, explored, open) && ClosedExcept(visited, explored, open, {})
  }

  /**
   * While the dequeued cell `c` is expanded: the first `d` moves are done,
   * and `queue0`, `visited0` are the queue and visited set before them.
   */
  ghost predicate ExpandInv(c: Cell, d: int, queue: seq<Cell>, visited: set<Entry>, explored: set<Cell>,
                            open: set<Cell>, queue0: seq<Cell>, visited0: set<Entry>)
  {
    && Frontier(queue, visited, explored, open)
    && ClosedExcept(visited, explored, open, {c})
    && IsNode(c) && c in explored && (0, 0) in explored
    && visited0 <= visited
    && (visited == visited0 ==> queue == queue0)
    && (visited == visited0 || AllPositions() - visited < AllPositions() - visited0)
    && 0 <= d <= 4
    && forall e :: 0 <= e < d && InBounds(Shift(c, SearchSteps[e])) && Shift(c, SearchSteps[e]) in open ==>
      Pos(Shift(c, SearchSteps[e]).0, Shift(c, SearchSteps[e]).1) in visited
  }

  /** The start: only (0, 0) is queued and only the integer 0 is in `visited`. */
  lemma SearchStart(open: set<Cell>)
    ensures SearchInv([(0, 0)], {Num(0)}, {}, open)
  {
  }

  /** Dequeuing the head of the queue and marking it explored starts its expansion. */
  lemma {:induction false} ExpandStart(queue: seq<Cell>, visited: set<Entry>, explored: set<Cell>, open: set<Cell>)
    requires SearchInv(queue, visited, explored, open) && queue != []
    ensures ExpandInv(queue[0], 0, queue[1..], visited, explored + {queue[0]}, open, queue[1..], visited)
  {
    var c, rest, explored' := queue[0], queue[1..], explored + {queue[0]};
    assert queue == [c] + rest;
    forall k | 0 <= k < |rest|
      ensures IsNode(rest[k]) && (rest[k] == (0, 0) || Pos(rest[k].0, rest[k].1) in visited)
    {
      assert rest[k] == queue[k + 1];
    }
    forall e | e in visited && e.Pos? ensures (e.x, e.y) in explored' || (e.x, e.y) in rest {
      if (e.x, e.y) in queue && (e.x, e.y) != c {
        var k :| 0 <= k < |queue| && queue[k] == (e.x, e.y);
        assert rest[k - 1] == (e.x, e.y);
      }
    }
  }

  /** One move of the expansion: its cell is marked and queued exactly when it is a new in-bounds passage. */
  lemma {:induction false} ExpandMove(c: Cell, d: int, queue: seq<Cell>, visited: set<Entry>, explored: set<Cell>,
                                      open: set<Cell>, queue0: seq<Cell>, visited0: set<Entry>)
    requires ExpandInv(c, d, queue, visited, explored, open, queue0, visited0) && d < 4
    ensures var n := Shift(c, SearchSteps[d]);
      InBounds(n) && n in open && Pos(n.0, n.1) !in visited ==>
        ExpandInv(c, d + 1, queue + [n], visited + {Pos(n.0, n.1)}, explored, open, queue0, visited0)
    ensures var n := Shift(c, SearchSteps[d]);
      !(InBounds(n) && n in open && Pos(n.0, n.1) !in visited) ==>
        ExpandInv(c, d + 1, queue, visited, explored, open, queue0, visited0)
  {
    var n := Shift(c, SearchSteps[d]);
    if InBounds(n) && n in open && Pos(n.0, n.1) !in visited {
      var queue', visited' := queue + [n], visited + {Pos(n.0, n.1)};
      assert LatticeStep(c, n);
      StepToNode(c, n);
      assert Pos(n.0, n.1) in AllPositions();
      forall k | 0 <= k < |queue'|
        ensures IsNode(queue'[k]) && (queue'[k] == (0, 0) || Pos(queue'[k].0, queue'[k].1) in visited')
      {
        if k < |queue| {
          assert queue'[k] == queue[k];
        }
      }
      forall e | e in visited' && e.Pos? ensures (e.x, e.y) in explored || (e.x, e.y) in queue' {
        if e != Pos(n.0, n.1) {
          assert (e.x, e.y) in queue ==> (e.x, e.y) in queue';
        }
      }
      assert Frontier(queue', visited', explored, open);
    }
  }

  /** After the four moves the search invariant holds again, and the measure of the search has gone down. */
  lemma {:induction false} ExpandEnd(c: Cell, queue: seq<Cell>, visited: set<Entry>, explored: set<Cell>,
                                     open: set<Cell>, queue0: seq<Cell>, visited0: set<Entry>)
    requires ExpandInv(c, 4, queue, visited, explored, open, queue0, visited0)
    ensures SearchInv(queue, visited, explored, open)
    ensures AllPositions() - visited < AllPositions() - visited0 || (visited == visited0 && queue == queue0)
  {
    forall m | InBounds(m) && LatticeStep(c, m) && m in open ensures Pos(m.0, m.1) in visited {
      StepIsSearchStep(c, m);
    }
  }

  /** With the queue empty, the explored cells are closed under lattice steps to passages. */
  lemma {:induction false} SearchEnd(visited: set<Entry>, explored: set<Cell>, open: set<Cell>)
    requires SearchInv([], visited, explored, open)
    ensures (0, 0) in explored
    ensures forall c, m :: c in explored && InBounds(m) && LatticeStep(c, m) && m in open ==> m in explored
  {
    forall c, m | c in explored && InBounds(m) && LatticeStep(c, m) && m in open ensures m in explored {
      assert Pos(m.0, m.1) in visited;
    }
  }
}
