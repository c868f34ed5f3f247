/**
 * The A* search: an open set polled by least fCost, a closed set of
 * positions, eight unit-cost moves per expansion, and path reconstruction
 * along parent links.
 */
module AStar {
  import opened Nodes
  import opened Grid

  /** The positions held by a set of nodes. */
  ghost function CellsOf(s: set<Node>): set<Cell>
  {
    set n | n in s :: n.Pos()
  }

  /** The positions of a path, in order. */
  function Positions(path: seq<Node>): (cells: seq<Cell>)
    ensures |cells| == |path|
    ensures forall i :: 0 <= i < |path| ==> cells[i] == path[i].Pos()
  {
    if path == [] then [] else [path[0].Pos()] + Positions(path[1..])
  }

  /**
   * Membership in the open set, decided by node equality: a node is found
   * when some queued node has its position.
   */
  function Contains(open: set<Node>, node: Node): (found: bool)
    ensures found <==> node.Pos() in CellsOf(open)
  {
    exists n :: n in open && n.Equals(node)
  }

  /** `m` is in the open set and no queued node has a smaller fCost. */
  predicate IsMinimal(open: set<Node>, m: Node)
    reads open
  {
    m in open && forall n :: n in open ==> m.FCost() <= n.FCost()
  }

  lemma {:induction false} MinimalExists(open: set<Node>)
    requires open != {}
    ensures exists m :: IsMinimal(open, m)
    decreases |open|
  {
    var x :| x in open;
    if open == {x} {
      assert IsMinimal(open, x);
    } else {
      MinimalExists(open - {x});
      var m :| IsMinimal(open - {x}, m);
      if x.FCost() < m.FCost() {
        assert IsMinimal(open, x);
      } else {
        assert IsMinimal(open, m);
      }
    }
  }

  /**
   * Removes and returns a node of least fCost. Among nodes of equal fCost
   * any one may come out: the order of ties is left open.
   */
  method Poll(open: set<Node>) returns (current: Node, rest: set<Node>)
    requires open != {}
    ensures current in open && rest == open - {current}
    ensures forall n :: n in open ==> current.FCost() <= n.FCost()
  {
    MinimalExists(open);
    current :| IsMinimal(open, current);
    rest := open - {current};
  }

  /**
   * Node `n` was discovered from `p`: one move away, on an open cell, with
   * `p` as parent, one step more gCost and the heuristic towards `goal`.
   */
  ghost predicate Discovered(grid: Grid, goal: Cell, p: Node, n: Node)
    requires ValidGrid(grid)
    reads p, n
  {
    Adjacent(p.Pos(), n.Pos()) && IsOpen(grid, n.Pos()) && n.parent == p &&
    n.gCost == p.gCost + 1 && n.hCost == Heuristic(n.Pos(), goal)
  }

  /**
   * Tries the move `DIRECTIONS[k]` from `current`. A new node is queued
   * exactly when the target is open, not closed and not already queued.
   * No existing node is changed: a queued position keeps the node, and so
   * the parent and gCost, it was first given.
   */
  method Relax(grid: Grid, goal: Node, current: Node, k: nat, open: set<Node>, closed: set<Cell>)
    returns (open': set<Node>, ghost added: Node?)
    requires ValidGrid(grid) && k < |DIRECTIONS|
    ensures var p := Move(current.Pos(), DIRECTIONS[k]);
      (added != null <==> IsOpen(grid, p) && p !in closed && p !in CellsOf(open))
    ensures added == null ==> open' == open
    ensures added != null ==>
      fresh(added) && open' == open + {added} &&
      added.Pos() == Move(current.Pos(), DIRECTIONS[k]) &&
      Discovered(grid, goal.Pos(), current, added)
    ensures forall n :: n in open ==> unchanged(n)
  {
    open', added := open, null;
    var newRow := current.row + DIRECTIONS[k].0;
    var newCol := current.col + DIRECTIONS[k].1;
    if InBounds(grid, newRow, newCol) && grid[newRow][newCol] == 0 {
      var neighbor := new Node(newRow, newCol);
      if neighbor.Pos() in closed {
        return;
      }
      var tentativeGCost := current.gCost + 1;
      // `neighbor` is a fresh node, so its gCost is 0 here, not that of the
      // queued node with the same position; any update below touches only
      // the fresh node.
      if !Contains(open, neighbor) || tentativeGCost < neighbor.gCost {
        neighbor.gCost := tentativeGCost;
        neighbor.hCost := Heuristic(neighbor.Pos(), goal.Pos());
        neighbor.parent := current;
        if !Contains(open, neighbor) {
          assert Move(current.Pos(), DIRECTIONS[k]) == neighbor.Pos();
          open', added := open + {neighbor}, neighbor;
        }
      }
    }
  }

  /**
   * Every node in `all` but the first has a parent earlier in `all`, at
   * the index `pidx` gives; the first has none.
   */
  ghost predicate ParentLinks(all: seq<Node>, pidx: seq<nat>)
    reads all
  {
    |all| == |pidx| && |all| > 0 && all[0].parent == null &&
    forall i :: 0 < i < |all| ==> pidx[i] < i && all[i].parent == all[pidx[i]]
  }

  /** The nodes from the root of `all` down to `all[k]`, by parent index. */
  ghost function TreePath(all: seq<Node>, pidx: seq<nat>, k: nat): seq<Node>
    requires |all| == |pidx| && k < |all|
    requires forall i :: 0 < i < |all| ==> pidx[i] < i
    decreases k
  {
    if k == 0 then [all[0]] else TreePath(all, pidx, pidx[k]) + [all[k]]
  }

  /** The list reversal that turns a goal-to-start list around. */
  function Reverse<T>(s: seq<T>): (r: seq<T>)
    ensures |r| == |s|
    ensures forall i :: 0 <= i < |s| ==> r[i] == s[|s| - 1 - i]
  {
    if s == [] then [] else [s[|s| - 1]] + Reverse(s[..|s| - 1])
  }

  /**
   * Follows parent links from `node` until a node without parent,
   * collecting the nodes, and reverses the list.
   */
  method ReconstructPath(node: Node, ghost all: seq<Node>, ghost pidx: seq<nat>, ghost k: nat)
    returns (path: seq<Node>)
    requires ParentLinks(all, pidx) && k < |all| && node == all[k]
    ensures path == TreePath(all, pidx, k)
    ensures |path| > 0 && path[0] == all[0] && path[|path| - 1] == node
    ensures path[0].parent == null
    ensures forall i :: 0 < i < |path| ==> path[i].parent == path[i - 1]
  {
    var reversed: seq<Node> := [];
    var n: Node? := node;
    ghost var i: nat := k;
    while n != null
      invariant n != null ==>
        i < |all| && n == all[i] &&
        TreePath(all, pidx, k) == TreePath(all, pidx, i) + Reverse(reversed)
      invariant n == null ==> TreePath(all, pidx, k) == Reverse(reversed)
      decreases if n == null then 0 else i + 1
    {
      assert Reverse(reversed + [n]) == [n] + Reverse(reversed);
      reversed := reversed + [n];
      n := n.parent;
      if i > 0 {
        i := pidx[i];
      }
    }
    path := Reverse(reversed);
    TreePathLinks(all, pidx, k);
  }

  lemma {:induction false} TreePathLinks(all: seq<Node>, pidx: seq<nat>, k: nat)
    requires ParentLinks(all, pidx) && k < |all|
    ensures var p := TreePath(all, pidx, k);
      |p| > 0 && p[0] == all[0] && p[|p| - 1] == all[k] &&
      forall i :: 0 < i < |p| ==> p[i].parent == p[i - 1]
  {
    if k > 0 {
      TreePathLinks(all, pidx, pidx[k]);
    }
  }

  /**
   * The bookkeeping of every node ever queued: the parent links, the
   * start's costs, and how each other node was discovered.
   */
  ghost predicate SearchTree(grid: Grid, goal: Cell, all: seq<Node>, pidx: seq<nat>)
    requires ValidGrid(grid)
    reads all
  {
    ParentLinks(all, pidx) &&
    all[0].gCost == 0 && all[0].hCost == Heuristic(all[0].Pos(), goal) &&
    forall i :: 0 < i < |all| ==> Discovered(grid, goal, all[pidx[i]], all[i])
  }

  /**
   * A path down the search tree is a walk over open cells from the start,
   * its gCosts count the steps, and every node on it is in the tree.
   */
  lemma {:induction false} TreePathFacts(grid: Grid, goal: Cell, all: seq<Node>, pidx: seq<nat>, k: nat)
    requires ValidGrid(grid) && SearchTree(grid, goal, all, pidx) && k < |all|
    ensures var p := TreePath(all, pidx, k);
      |p| > 0 && p[0] == all[0] && p[|p| - 1] == all[k] &&
      (forall i :: 0 <= i < |p| ==>
        p[i] in all && p[i].gCost == i && p[i].hCost == Heuristic(p[i].Pos(), goal)) &&
      (forall i :: 0 < i < |p| ==> Discovered(grid, goal, p[i - 1], p[i]))
  {
    if k > 0 {
      TreePathFacts(grid, goal, all, pidx, pidx[k]);
      var q := TreePath(all, pidx, pidx[k]);
      assert TreePath(all, pidx, k) == q + [all[k]];
      assert Discovered(grid, goal, all[pidx[k]], all[k]);
    }
  }

  lemma SubsetCard<T>(a: set<T>, b: set<T>)
    requires a <= b
    ensures |a| <= |b|
  {
    assert b == a + (b - a);
  }

  /** No two nodes of `s` stand for the same position. */
  ghost predicate DistinctPositions(s: seq<Node>)
  {
    |s| == 0 ||
    ((forall i :: 0 <= i < |s| - 1 ==> s[i].Pos() != s[|s| - 1].Pos()) && DistinctPositions(s[..|s| - 1]))
  }

  lemma {:induction false} DistinctPositionsAt(s: seq<Node>, i: nat, j: nat)
    requires DistinctPositions(s) && i < |s| && j < |s| && i != j
    ensures s[i].Pos() != s[j].Pos()
  {
    var last := |s| - 1;
    if i != last && j != last {
      DistinctPositionsAt(s[..last], i, j);
    }
  }

  /**
   * The state of the search between two polls. Every node ever queued is
   * in `all`, and is still queued or has its position closed; no two of
   * them share a position; no queued position is closed; the goal is never
   * closed; everything stays inside `universe`.
   */
  ghost predicate SearchState(grid: Grid, start: Node, goal: Cell, open: set<Node>, closed: set<Cell>,
                              all: seq<Node>, pidx: seq<nat>, universe: set<Cell>)
    requires ValidGrid(grid)
    reads all
  {
    SearchTree(grid, goal, all, pidx) && all[0] == start &&
    (forall n :: n in open ==> n in all && n.Pos() !in closed && n.Pos() in universe) &&
    (forall i :: 0 <= i < |all| ==> all[i] in open || all[i].Pos() in closed) &&
    DistinctPositions(all) && goal !in closed && closed <= universe
  }

  /** The open set never holds two nodes for one position. */
  lemma OpenPositionsDistinct(grid: Grid, start: Node, goal: Cell, open: set<Node>, closed: set<Cell>,
                              all: seq<Node>, pidx: seq<nat>, universe: set<Cell>, a: Node, b: Node)
    requires ValidGrid(grid) && SearchState(grid, start, goal, open, closed, all, pidx, universe)
    requires a in open && b in open && a.Pos() == b.Pos()
    ensures a == b
  {
    var i :| 0 <= i < |all| && all[i] == a;
    var j :| 0 <= j < |all| && all[j] == b;
    if i != j {
      DistinctPositionsAt(all, i, j);
    }
  }

  /**
   * The loop invariant of the search: the state above, every open neighbour
   * of a closed position is closed or queued, and the start is the first
   * node polled.
   */
  ghost predicate Searching(grid: Grid, start: Node, goal: Cell, open: set<Node>, closed: set<Cell>,
                            all: seq<Node>, pidx: seq<nat>, universe: set<Cell>)
    requires ValidGrid(grid)
    reads all
  {
    SearchState(grid, start, goal, open, closed, all, pidx, universe) &&
    ClosedUnderMoves(grid, closed, closed + CellsOf(open)) &&
    (closed == {} ==> open == {start} && all == [start]) &&
    (closed != {} ==> start.Pos() in closed)
  }

  /** The search starts with only `start` queued and nothing closed. */
  lemma Initial(grid: Grid, start: Node, goal: Cell, universe: set<Cell>)
    requires ValidGrid(grid) && start.parent == null && start.Pos() in universe
    requires start.gCost == 0 && start.hCost == Heuristic(start.Pos(), goal)
    ensures Searching(grid, start, goal, {start}, {}, [start], [0], universe)
  {
  }

  /** A polled node is in the tree, so its parent links can be followed. */
  lemma Polled(grid: Grid, start: Node, goal: Cell, open: set<Node>, closed: set<Cell>,
               all: seq<Node>, pidx: seq<nat>, universe: set<Cell>, current: Node)
    returns (ci: nat)
    requires ValidGrid(grid) && Searching(grid, start, goal, open, closed, all, pidx, universe)
    requires current in open
    ensures ParentLinks(all, pidx) && ci < |all| && all[ci] == current
  {
    ci :| 0 <= ci < |all| && all[ci] == current;
  }

  /** Closing a polled node that is not the goal keeps the search state. */
  lemma CloseKeepsState(grid: Grid, start: Node, goal: Cell, open: set<Node>, closed: set<Cell>,
                        all: seq<Node>, pidx: seq<nat>, universe: set<Cell>, current: Node)
    requires ValidGrid(grid) && Searching(grid, start, goal, open, closed, all, pidx, universe)
    requires current in open && current.Pos() != goal
    ensures var open', closed' := open - {current}, closed + {current.Pos()};
      SearchState(grid, start, goal, open', closed', all, pidx, universe) &&
      closed' - {current.Pos()} == closed &&
      ClosedUnderMoves(grid, closed' - {current.Pos()}, closed' + CellsOf(open')) &&
      start.Pos() in closed' && |closed'| == |closed| + 1
  {
    var open', closed' := open - {current}, closed + {current.Pos()};
    forall n | n in open'
      ensures n.Pos() != current.Pos()
    {
      var i :| 0 <= i < |all| && all[i] == n;
      var j :| 0 <= j < |all| && all[j] == current;
      if i != j {
        DistinctPositionsAt(all, i, j);
      }
    }
    assert CellsOf(open') == CellsOf(open) - {current.Pos()};
    assert closed' + CellsOf(open') == closed + CellsOf(open);
  }

  /**
   * Tries the eight moves from the node just closed. Afterwards every open
   * neighbour of a closed position is closed or queued.
   */
  method ExpandNeighbours(grid: Grid, ghost start: Node, goal: Node, current: Node,
                          open: set<Node>, closed: set<Cell>, ghost all: seq<Node>, ghost pidx: seq<nat>,
                          ghost ci: nat, ghost universe: set<Cell>)
    returns (open': set<Node>, ghost all': seq<Node>, ghost pidx': seq<nat>)
    requires ValidGrid(grid) && SearchState(grid, start, goal.Pos(), open, closed, all, pidx, universe)
    requires GridCells(Rows(grid), Cols(grid)) <= universe
    requires ci < |all| && all[ci] == current && current.Pos() in closed
    requires ClosedUnderMoves(grid, closed - {current.Pos()}, closed + CellsOf(open))
    ensures SearchState(grid, start, goal.Pos(), open', closed, all', pidx', universe)
    ensures ClosedUnderMoves(grid, closed, closed + CellsOf(open'))
    ensures open <= open'
    ensures forall n :: n in open' && n !in open ==> Discovered(grid, goal.Pos(), current, n)
    ensures |all| <= |all'| && all'[..|all|] == all
  {
    open', all', pidx' := open, all, pidx;
    for k := 0 to |DIRECTIONS|
      invariant SearchState(grid, start, goal.Pos(), open', closed, all', pidx', universe)
      invariant |all| <= |all'| && all'[..|all|] == all
      invariant ClosedUnderMoves(grid, closed - {current.Pos()}, closed + CellsOf(open'))
      invariant NeighboursCovered(grid, current.Pos(), k, closed + CellsOf(open'))
      invariant open <= open'
      invariant forall n :: n in open' && n !in open ==> Discovered(grid, goal.Pos(), current, n)
    {
      var next, added := Relax(grid, goal, current, k, open', closed);
      if added != null {
        Queued(grid, start, goal.Pos(), open', closed, all', pidx', universe, current, ci, k, added);
        all', pidx' := all' + [added], pidx' + [ci];
      }
      CoverStep(grid, current.Pos(), k, closed - {current.Pos()}, closed + CellsOf(open'), closed + CellsOf(next));
      open' := next;
    }
  }

  /** Queueing a newly discovered neighbour keeps the search state. */
  lemma Queued(grid: Grid, start: Node, goal: Cell, open: set<Node>, closed: set<Cell>,
               all: seq<Node>, pidx: seq<nat>, universe: set<Cell>, current: Node, ci: nat,
               k: nat, added: Node)
    requires ValidGrid(grid) && SearchState(grid, start, goal, open, closed, all, pidx, universe)
    requires GridCells(Rows(grid), Cols(grid)) <= universe
    requires ci < |all| && all[ci] == current && k < |DIRECTIONS|
    requires added.Pos() == Move(current.Pos(), DIRECTIONS[k])
    requires added.Pos() !in closed && added.Pos() !in CellsOf(open)
    requires Discovered(grid, goal, current, added)
    ensures SearchState(grid, start, goal, open + {added}, closed, all + [added], pidx + [ci], universe)
    ensures CellsOf(open + {added}) == CellsOf(open) + {added.Pos()}
  {
    var all', pidx' := all + [added], pidx + [ci];
    forall i | 0 < i < |all'|
      ensures pidx'[i] < i && all'[i].parent == all'[pidx'[i]]
      ensures Discovered(grid, goal, all'[pidx'[i]], all'[i])
    {
      if i < |all| {
        assert pidx'[i] == pidx[i] && all'[i] == all[i] && all'[pidx'[i]] == all[pidx[i]];
      }
    }
    forall i | 0 <= i < |all|
      ensures all[i].Pos() != added.Pos()
    {
      if all[i] in open {
        assert all[i].Pos() in CellsOf(open);
      }
    }
    assert all'[..|all|] == all;
  }

  /**
   * One round of the search after a poll that did not reach the goal:
   * closes the polled position and queues its new neighbours.
   */
  method CloseAndExpand(grid: Grid, ghost start: Node, goal: Node, current: Node, rest: set<Node>,
                        closed: set<Cell>, ghost queued: set<Node>, ghost all: seq<Node>,
                        ghost pidx: seq<nat>, ghost ci: nat, ghost universe: set<Cell>)
    returns (open': set<Node>, closed': set<Cell>, ghost all': seq<Node>, ghost pidx': seq<nat>)
    requires ValidGrid(grid) && Searching(grid, start, goal.Pos(), queued, closed, all, pidx, universe)
    requires GridCells(Rows(grid), Cols(grid)) <= universe
    requires current in queued && rest == queued - {current} && current.Pos() != goal.Pos()
    requires ci < |all| && all[ci] == current
    ensures Searching(grid, start, goal.Pos(), open', closed', all', pidx', universe)
    ensures closed' == closed + {current.Pos()} && |closed'| == |closed| + 1 && closed' <= universe
    ensures rest <= open'
    ensures forall n :: n in open' && n !in rest ==> Discovered(grid, goal.Pos(), current, n)
    ensures |all| <= |all'| && all'[..|all|] == all
  {
    CloseKeepsState(grid, start, goal.Pos(), queued, closed, all, pidx, universe, current);
    closed' := closed + {current.Pos()};
    open', all', pidx' := ExpandNeighbours(grid, start, goal, current, rest, closed', all, pidx, ci, universe);
  }

  /**
   * The search. Returns the path from `start` to a node at `goal`'s
   * position, or the empty path when the open set runs out first;
   * `polls` counts the nodes taken from the open set.
   */
  method FindPath(grid: Grid, start: Node, goal: Node) returns (path: seq<Node>, ghost polls: nat)
    requires ValidGrid(grid)
    requires start.parent == null
    modifies start
    ensures start.gCost == 0 && start.hCost == Heuristic(start.Pos(), goal.Pos())
    ensures start.parent == null
    ensures path != [] ==> path[0] == start && path[|path| - 1].Pos() == goal.Pos()
    ensures forall i :: 0 < i < |path| ==> path[i].parent == path[i - 1]
    ensures path != [] ==> IsWalk(grid, Positions(path))
    ensures forall i :: 0 <= i < |path| ==>
      path[i].gCost == i && path[i].hCost == Heuristic(path[i].Pos(), goal.Pos())
    ensures forall i, j :: 0 <= i < j < |path| ==> path[i].Pos() != path[j].Pos()
    ensures path == [] <==> !Reachable(grid, start.Pos(), goal.Pos())
    ensures start.Pos() == goal.Pos() ==> path == [start]
    ensures polls <= Rows(grid) * Cols(grid) + 1
  {
    start.gCost := 0;
    start.hCost := Heuristic(start.Pos(), goal.Pos());
    var open: set<Node> := {start};
    var closed: set<Cell> := {};
    ghost var all: seq<Node> := [start];
    ghost var pidx: seq<nat> := [0];
    ghost var universe := GridCells(Rows(grid), Cols(grid)) + {start.Pos()};
    polls := 0;
    Initial(grid, start, goal.Pos(), universe);

    while open != {}
      invariant Searching(grid, start, goal.Pos(), open, closed, all, pidx, universe)
      invariant polls == |closed| && closed <= universe
      decreases |universe| - |closed|
    {
      SubsetCard(closed, universe);
      var current, rest := Poll(open);
      polls := polls + 1;
      ghost var ci := Polled(grid, start, goal.Pos(), open, closed, all, pidx, universe, current);

      if current.Equals(goal) {
        path := ReconstructPath(current, all, pidx, ci);
        Found(grid, start, goal.Pos(), open, closed, all, pidx, universe, ci, current, path, polls);
        return;
      }

      open, closed, all, pidx :=
        CloseAndExpand(grid, start, goal, current, rest, closed, open, all, pidx, ci, universe);
      SubsetCard(closed, universe);
    }
    path := [];
    Exhausted(grid, start, goal.Pos(), closed, all, pidx, universe, polls);
  }

  /** What the search promises when it polls a node at the goal's position. */
  lemma Found(grid: Grid, start: Node, goal: Cell, open: set<Node>, closed: set<Cell>,
              all: seq<Node>, pidx: seq<nat>, universe: set<Cell>, ci: nat, current: Node,
              path: seq<Node>, polls: nat)
    requires ValidGrid(grid) && Searching(grid, start, goal, open, closed, all, pidx, universe)
    requires universe == GridCells(Rows(grid), Cols(grid)) + {start.Pos()}
    requires current in open && ci < |all| && all[ci] == current && current.Pos() == goal
    requires path == TreePath(all, pidx, ci) && polls == |closed| + 1
    ensures start.gCost == 0 && start.hCost == Heuristic(start.Pos(), goal)
    ensures start.parent == null
    ensures path != [] ==> path[0] == start && path[|path| - 1].Pos() == goal
    ensures forall i :: 0 < i < |path| ==> path[i].parent == path[i - 1]
    ensures path != [] ==> IsWalk(grid, Positions(path))
    ensures forall i :: 0 <= i < |path| ==>
      path[i].gCost == i && path[i].hCost == Heuristic(path[i].Pos(), goal)
    ensures forall i, j :: 0 <= i < j < |path| ==> path[i].Pos() != path[j].Pos()
    ensures path == [] <==> !Reachable(grid, start.Pos(), goal)
    ensures start.Pos() == goal ==> path == [start]
    ensures polls <= Rows(grid) * Cols(grid) + 1
  {
    TreePathFacts(grid, goal, all, pidx, ci);
    TreePathLinks(all, pidx, ci);
    TreePathIsWalk(grid, goal, all, pidx, ci);
    TreePathIsSimple(grid, goal, all, pidx, ci);
    if start.Pos() == goal {
      assert closed == {};
      assert ci == 0;
    }
    assert current.Pos() !in closed;
    Bound(grid, start.Pos(), closed + {current.Pos()});
  }

  /** What the search promises when the open set runs out. */
  lemma Exhausted(grid: Grid, start: Node, goal: Cell, closed: set<Cell>,
                  all: seq<Node>, pidx: seq<nat>, universe: set<Cell>, polls: nat)
    requires ValidGrid(grid) && Searching(grid, start, goal, {}, closed, all, pidx, universe)
    requires universe == GridCells(Rows(grid), Cols(grid)) + {start.Pos()}
    requires polls == |closed|
    ensures start.gCost == 0 && start.hCost == Heuristic(start.Pos(), goal)
    ensures start.parent == null
    ensures start.Pos() != goal
    ensures !Reachable(grid, start.Pos(), goal)
    ensures polls <= Rows(grid) * Cols(grid) + 1
  {
    assert closed != {};
    assert closed + CellsOf({}) == closed;
    RegionBlocksWalks(grid, closed, start.Pos(), goal);
    Bound(grid, start.Pos(), closed);
  }

  /** A set of cells of the grid and the start has at most rows * cols + 1 members. */
  lemma Bound(grid: Grid, start: Cell, s: set<Cell>)
    requires s <= GridCells(Rows(grid), Cols(grid)) + {start}
    ensures |s| <= Rows(grid) * Cols(grid) + 1
  {
    SubsetCard(s, GridCells(Rows(grid), Cols(grid)) + {start});
    GridCellsCount(Rows(grid), Cols(grid));
  }

  /** A path down the search tree is a walk over open cells, so its end is reachable from the start. */
  lemma TreePathIsWalk(grid: Grid, goal: Cell, all: seq<Node>, pidx: seq<nat>, k: nat)
    requires ValidGrid(grid) && SearchTree(grid, goal, all, pidx) && k < |all|
    ensures IsWalk(grid, Positions(TreePath(all, pidx, k)))
    ensures Reachable(grid, all[0].Pos(), all[k].Pos())
  {
    var path := TreePath(all, pidx, k);
    TreePathFacts(grid, goal, all, pidx, k);
    var w := Positions(path);
    forall i | 0 <= i < |w| - 1
      ensures WalkStep(grid, w, i)
    {
      assert Discovered(grid, goal, path[i], path[i + 1]);
    }
    assert IsWalk(grid, w) && w[0] == all[0].Pos() && w[|w| - 1] == all[k].Pos();
  }

  /**
   * A path down the search tree repeats no position, and its nodes after
   * the first are not the root.
   */
  lemma TreePathIsSimple(grid: Grid, goal: Cell, all: seq<Node>, pidx: seq<nat>, k: nat)
    requires ValidGrid(grid) && SearchTree(grid, goal, all, pidx) && k < |all|
    requires DistinctPositions(all)
    ensures var path := TreePath(all, pidx, k);
      (forall i :: 0 < i < |path| ==> exists j :: 0 < j < |all| && path[i] == all[j]) &&
      (forall i, j :: 0 <= i < j < |path| ==> path[i].Pos() != path[j].Pos())
  {
    var path := TreePath(all, pidx, k);
    TreePathFacts(grid, goal, all, pidx, k);
    forall i | 0 < i < |path|
      ensures exists j :: 0 < j < |all| && path[i] == all[j]
    {
      var j :| 0 <= j < |all| && path[i] == all[j];
      assert j != 0;
    }
    forall i, j | 0 <= i < j < |path|
      ensures path[i].Pos() != path[j].Pos()
    {
      var a :| 0 <= a < |all| && path[i] == all[a];
      var b :| 0 <= b < |all| && path[j] == all[b];
      assert path[i].gCost == i && path[j].gCost == j;
      DistinctPositionsAt(all, a, b);
    }
  }
}
