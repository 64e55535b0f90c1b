/** The cell search of the manager: the neighbour filter (the manager's
    getNeighbors), the parent chain of a node, and the walk back through the
    closed list that turns the chain into a polyline (getPath). */
module Search {
  import opened Geometry
  import opened Nodes

  // ---------------------------------------------------------------------------
  // The neighbour filter

  /** Some node of the list is at the cell. The source asks this with
      isEqualTo, which compares positions only. */
  predicate Listed(list: seq<AStarNode>, c: Cell)
  {
    exists n :: n in list && IsAt(n, c)
  }

  /** No obstacle rectangle contains the cell, and it lies inside the grid's
      region. */
  predicate Passable(c: Cell, grid: Grid, obstacles: seq<CellRect>)
  {
    !(exists obc :: obc in obstacles && RectContainsPoint(obc, c)) && InEdge(grid.edge, c)
  }

  /** The filter of the manager's getNeighbors: passable, and neither closed
      nor already open. */
  predicate Admissible(c: Cell, closeList: seq<AStarNode>, openList: seq<AStarNode>, grid: Grid, obstacles: seq<CellRect>)
  {
    Passable(c, grid, obstacles) && !Listed(closeList, c) && !Listed(openList, c)
  }

  /** A neighbour costed one step more than its parent. */
  function Costed(nb: AStarNode): AStarNode
    requires nb.parent.Some?
  {
    SetG(nb, Some(nb.parent.value.g + 1))
  }

  /** A neighbour of `cell` as the filter hands it on: linked to `cell`,
      costed one more, sharing its goal, and on an adjacent cell. */
  predicate ChildOf(n: AStarNode, cell: AStarNode)
  {
    n.parent == Some(cell) && n.g == cell.g + 1 && EndCell(n) == EndCell(cell) && Adjacent(Pos(cell), Pos(n))
  }

  /** Candidate neighbours of `cell`: each linked to it, sharing its goal and
      on an adjacent cell, in getNeighbors' direction order. */
  ghost predicate FromCell(cell: AStarNode, nbs: seq<AStarNode>)
  {
    (forall i :: 0 <= i < |nbs| ==>
       nbs[i].parent == Some(cell) && EndCell(nbs[i]) == EndCell(cell) && Adjacent(Pos(cell), Pos(nbs[i]))) &&
    InDirectionOrder(cell, nbs)
  }

  lemma FromCellTail(cell: AStarNode, nbs: seq<AStarNode>)
    requires FromCell(cell, nbs) && |nbs| > 0
    ensures FromCell(cell, nbs[1..])
  {
    assert forall i :: 0 <= i < |nbs| - 1 ==> nbs[1..][i] == nbs[i + 1];
  }

  /** The four neighbours of a node are candidates. */
  lemma NeighborsFromCell(cell: AStarNode)
    ensures FromCell(cell, Neighbors(cell))
  {
  }

  /** The filter and the cost update over a list of neighbours of `cell`
      given in increasing direction. */
  function Survivors(cell: AStarNode, nbs: seq<AStarNode>, closeList: seq<AStarNode>, openList: seq<AStarNode>,
                     grid: Grid, obstacles: seq<CellRect>): (r: seq<AStarNode>)
    requires FromCell(cell, nbs)
    ensures |r| <= |nbs|
    ensures forall j :: 0 <= j < |r| ==>
      ChildOf(r[j], cell) && Admissible(Pos(r[j]), closeList, openList, grid, obstacles)
  {
    if |nbs| == 0 then []
    else
      FromCellTail(cell, nbs);
      var rest := Survivors(cell, nbs[1..], closeList, openList, grid, obstacles);
      if Admissible(Pos(nbs[0]), closeList, openList, grid, obstacles) then
        var r := [Costed(nbs[0])] + rest;
        assert forall j :: 1 <= j < |r| ==> r[j] == rest[j - 1];
        r
      else rest
  }

  /** The nodes lie around `cell` in getNeighbors' order: up, right, down,
      left, each direction at most once. */
  ghost predicate InDirectionOrder(cell: AStarNode, s: seq<AStarNode>)
  {
    forall j, k :: 0 <= j < k < |s| ==> Direction(Pos(cell), Pos(s[j])) < Direction(Pos(cell), Pos(s[k]))
  }

  /** Every node lies in direction `d` or later. */
  ghost predicate DirectionsFrom(cell: AStarNode, d: int, s: seq<AStarNode>)
  {
    forall j :: 0 <= j < |s| ==> d <= Direction(Pos(cell), Pos(s[j]))
  }

  lemma OrderCons(cell: AStarNode, x: AStarNode, s: seq<AStarNode>)
    requires InDirectionOrder(cell, s) && DirectionsFrom(cell, Direction(Pos(cell), Pos(x)) + 1, s)
    ensures InDirectionOrder(cell, [x] + s) && DirectionsFrom(cell, Direction(Pos(cell), Pos(x)), [x] + s)
  {
    var r := [x] + s;
    assert forall j :: 1 <= j < |r| ==> r[j] == s[j - 1];
  }

  /** Nodes in direction order are at distinct positions. */
  lemma OrderedDistinct(cell: AStarNode, s: seq<AStarNode>)
    requires InDirectionOrder(cell, s)
    ensures forall j, k :: 0 <= j < k < |s| ==> Pos(s[j]) != Pos(s[k])
  {
  }

  /** The filter keeps the order of the neighbours it lets through. */
  lemma {:induction false} SurvivorsOrdered(cell: AStarNode, nbs: seq<AStarNode>, closeList: seq<AStarNode>,
                                            openList: seq<AStarNode>, grid: Grid, obstacles: seq<CellRect>)
    requires FromCell(cell, nbs)
    ensures InDirectionOrder(cell, Survivors(cell, nbs, closeList, openList, grid, obstacles))
    ensures |nbs| > 0 ==>
      DirectionsFrom(cell, Direction(Pos(cell), Pos(nbs[0])), Survivors(cell, nbs, closeList, openList, grid, obstacles))
  {
    if |nbs| > 0 {
      var d := Direction(Pos(cell), Pos(nbs[0]));
      FromCellTail(cell, nbs);
      var rest := Survivors(cell, nbs[1..], closeList, openList, grid, obstacles);
      SurvivorsOrdered(cell, nbs[1..], closeList, openList, grid, obstacles);
      assert DirectionsFrom(cell, d + 1, rest) by {
        if |nbs| > 1 {
          assert d < Direction(Pos(cell), Pos(nbs[1..][0]));
        }
      }
      if Admissible(Pos(nbs[0]), closeList, openList, grid, obstacles) {
        OrderCons(cell, Costed(nbs[0]), rest);
      }
    }
  }

  /** Every neighbour that passes the filter comes out of it. */
  lemma {:induction false} SurvivorsComplete(cell: AStarNode, nbs: seq<AStarNode>, closeList: seq<AStarNode>,
                                             openList: seq<AStarNode>, grid: Grid, obstacles: seq<CellRect>)
    requires FromCell(cell, nbs)
    ensures forall i :: 0 <= i < |nbs| && Admissible(Pos(nbs[i]), closeList, openList, grid, obstacles) ==>
      Listed(Survivors(cell, nbs, closeList, openList, grid, obstacles), Pos(nbs[i]))
  {
    if |nbs| > 0 {
      FromCellTail(cell, nbs);
      var r := Survivors(cell, nbs, closeList, openList, grid, obstacles);
      var rest := Survivors(cell, nbs[1..], closeList, openList, grid, obstacles);
      SurvivorsComplete(cell, nbs[1..], closeList, openList, grid, obstacles);
      forall i | 0 <= i < |nbs| && Admissible(Pos(nbs[i]), closeList, openList, grid, obstacles)
        ensures Listed(r, Pos(nbs[i]))
      {
        if i == 0 {
          assert r[0] == Costed(nbs[0]);
          assert r[0] in r && IsAt(r[0], Pos(nbs[0]));
        } else {
          assert nbs[i] == nbs[1..][i - 1];
          var n :| n in rest && IsAt(n, Pos(nbs[i]));
          assert n in r && IsAt(n, Pos(nbs[i]));
        }
      }
    }
  }

  /** The manager's getNeighbors: the node's four neighbours that pass the
      filter, in the order up, right, down, left, each costed one more than
      the node. */
  function GetNeighbors(cell: AStarNode, closeList: seq<AStarNode>, openList: seq<AStarNode>,
                        grid: Grid, obstacles: seq<CellRect>): (r: seq<AStarNode>)
    ensures |r| <= 4
    ensures forall j :: 0 <= j < |r| ==>
      ChildOf(r[j], cell) && Admissible(Pos(r[j]), closeList, openList, grid, obstacles)
    ensures forall c :: Adjacent(Pos(cell), c) ==>
      (Listed(r, c) <==> Admissible(c, closeList, openList, grid, obstacles))
    ensures InDirectionOrder(cell, r)
    ensures forall j, k :: 0 <= j < k < |r| ==> Pos(r[j]) != Pos(r[k])
  {
    NeighborsAreTheAdjacentCells(cell);
    NeighborsFromCell(cell);
    SurvivorsComplete(cell, Neighbors(cell), closeList, openList, grid, obstacles);
    SurvivorsOrdered(cell, Neighbors(cell), closeList, openList, grid, obstacles);
    OrderedDistinct(cell, Survivors(cell, Neighbors(cell), closeList, openList, grid, obstacles));
    Survivors(cell, Neighbors(cell), closeList, openList, grid, obstacles)
  }

  // ---------------------------------------------------------------------------
  // Lists of nodes with distinct positions

  /** No two nodes at one position, and no node twice. */
  ghost predicate DistinctCells(m: multiset<AStarNode>)
  {
    (forall n :: n in m ==> m[n] == 1) &&
    (forall a, b :: a in m && b in m && IsEqualTo(a, b) ==> a == b)
  }

  /** The positions of a list with distinct cells are pairwise different. */
  lemma DistinctPositions(s: seq<AStarNode>)
    requires DistinctCells(multiset(s))
    ensures forall i, j :: 0 <= i < j < |s| ==> Pos(s[i]) != Pos(s[j])
  {
    forall i, j | 0 <= i < j < |s|
      ensures Pos(s[i]) != Pos(s[j])
    {
      if Pos(s[i]) == Pos(s[j]) {
        assert IsEqualTo(s[i], s[j]) && s[i] in multiset(s) && s[j] in multiset(s);
        CountTwice(s, i, j);
        assert false;
      }
    }
  }

  lemma CountTwice(s: seq<AStarNode>, i: int, j: int)
    requires 0 <= i < j < |s| && s[i] == s[j]
    ensures multiset(s)[s[i]] >= 2
  {
    assert s == s[..j] + s[j..];
    assert s[i] in s[..j];
    assert s[j] in s[j..];
  }

  /** Adding nodes at positions not yet taken, and pairwise apart, keeps the
      positions distinct. */
  lemma {:induction false} AddDistinct(m: multiset<AStarNode>, s: seq<AStarNode>)
    requires DistinctCells(m)
    requires forall i, j :: 0 <= i < j < |s| ==> Pos(s[i]) != Pos(s[j])
    requires forall i :: 0 <= i < |s| ==> !(exists n :: n in m && IsAt(n, Pos(s[i])))
    ensures DistinctCells(m + multiset(s))
    decreases |s|
  {
    if |s| > 0 {
      var x, t := s[0], s[1..];
      assert s == [x] + t;
      var m' := m + multiset{x};
      assert x !in m;
      assert DistinctCells(m');
      forall i | 0 <= i < |t|
        ensures !(exists n :: n in m' && IsAt(n, Pos(t[i])))
      {
        assert t[i] == s[i + 1];
      }
      AddDistinct(m', t);
      assert m + multiset(s) == m' + multiset(t);
    }
  }

  /** Part of a collection with distinct positions has distinct positions. */
  lemma SubDistinct(a: multiset<AStarNode>, b: multiset<AStarNode>)
    requires DistinctCells(a + b)
    ensures DistinctCells(a)
  {
    forall n | n in a
      ensures a[n] == 1
    {
      assert (a + b)[n] == a[n] + b[n];
    }
  }

  /** Every parent of a listed node is listed. */
  ghost predicate ParentClosed(list: seq<AStarNode>)
  {
    forall n :: n in list ==> ParentListed(n, list)
  }

  /** The node has no parent, or its parent is listed. */
  ghost predicate ParentListed(n: AStarNode, list: seq<AStarNode>)
  {
    n.parent.Some? ==> n.parent.value in list
  }

  // ---------------------------------------------------------------------------
  // Parent chains

  /** Number of parent links above a node. */
  function Depth(n: AStarNode): nat
  {
    match n.parent
    case None => 0
    case Some(p) => Depth(p) + 1
  }

  /** The node, its parent, its parent's parent, and so on to a node without
      parent: the order in which getPath collects them. */
  function Chain(n: AStarNode): (c: seq<AStarNode>)
    ensures |c| == Depth(n) + 1 && c[0] == n
    ensures forall k :: 0 <= k < |c| ==> Depth(c[k]) == Depth(n) - k
    ensures c[|c| - 1].parent.None?
  {
    match n.parent
    case None => [n]
    case Some(p) =>
      var c := [n] + Chain(p);
      assert forall k :: 0 < k < |c| ==> c[k] == Chain(p)[k - 1];
      c
  }

  /** In a parent-closed list, a listed node's whole chain is listed. */
  lemma {:induction false} ChainInList(n: AStarNode, list: seq<AStarNode>)
    requires ParentClosed(list) && n in list
    ensures forall k :: 0 <= k < |Chain(n)| ==> Chain(n)[k] in list
  {
    match n.parent
    case None =>
    case Some(p) =>
      ChainInList(p, list);
      assert forall k :: 0 < k < |Chain(n)| ==> Chain(n)[k] == Chain(p)[k - 1];
  }

  /** Array.prototype.reverse on a copy. */
  function Reverse<T>(s: seq<T>): (r: seq<T>)
    ensures |r| == |s|
    ensures forall i :: 0 <= i < |s| ==> r[i] == s[|s| - 1 - i]
  {
    if |s| == 0 then [] else Reverse(s[1..]) + [s[0]]
  }

  /** Reversal keeps the elements and their counts. */
  lemma {:induction false} ReversePermutes<T>(s: seq<T>)
    ensures multiset(Reverse(s)) == multiset(s)
  {
    if |s| > 0 {
      ReversePermutes(s[1..]);
      assert s == [s[0]] + s[1..];
    }
  }

  /** The chain from the node without parent down to `n`. */
  function Route(n: AStarNode): seq<AStarNode>
  {
    Reverse(Chain(n))
  }

  function Cells(s: seq<AStarNode>): (r: seq<Cell>)
    ensures |r| == |s| && forall i :: 0 <= i < |s| ==> r[i] == Pos(s[i])
  {
    seq(|s|, i requires 0 <= i < |s| => Pos(s[i]))
  }

  /** getPath's map from cells to the real plane. */
  function ToPoints(s: seq<AStarNode>, grid: Grid): (r: seq<Point>)
    ensures |r| == |s| && forall i :: 0 <= i < |s| ==> r[i] == CellToPoint(Pos(s[i]), grid)
  {
    seq(|s|, i requires 0 <= i < |s| => CellToPoint(Pos(s[i]), grid))
  }

  // ---------------------------------------------------------------------------
  // Nodes reached by the search

  /** A node the search can have produced from `start`: following parents
      leads to `start`, and each link is a step to an adjacent passable cell
      that costs one more. */
  ghost predicate Reached(n: AStarNode, start: AStarNode, grid: Grid, obstacles: seq<CellRect>)
  {
    match n.parent
    case None => n == start
    case Some(p) =>
      n.g == p.g + 1 && Adjacent(Pos(p), Pos(n)) && Passable(Pos(n), grid, obstacles) &&
      Reached(p, start, grid, obstacles)
  }

  /** Step `k` of a route: onto a passable cell adjacent to the previous
      one, at one more unit of cost. */
  ghost predicate StepAt(r: seq<AStarNode>, k: int, grid: Grid, obstacles: seq<CellRect>)
    requires 0 < k < |r|
  {
    r[k].g == r[k - 1].g + 1 && Adjacent(Pos(r[k - 1]), Pos(r[k])) && Passable(Pos(r[k]), grid, obstacles)
  }

  /** A route ends with its node, after the route of the parent. */
  lemma RouteUnfolds(n: AStarNode)
    requires n.parent.Some?
    ensures Route(n) == Route(n.parent.value) + [n]
  {
    var c := Chain(n);
    assert c == [n] + Chain(n.parent.value);
    assert c[1..] == Chain(n.parent.value);
  }

  /** The route of a reached node runs from `start` to the node, one cell per
      unit of cost (so following parents ends at `start`, the cost dropping
      by one per link), every step onto an adjacent passable cell. */
  lemma {:induction false} RouteIsWalk(n: AStarNode, start: AStarNode, grid: Grid, obstacles: seq<CellRect>)
    requires Reached(n, start, grid, obstacles)
    ensures var r := Route(n);
      r[0] == start && r[|r| - 1] == n && |r| == n.g - start.g + 1 &&
      forall k :: 0 < k < |r| ==> StepAt(r, k, grid, obstacles)
  {
    match n.parent
    case None =>
    case Some(p) =>
      RouteIsWalk(p, start, grid, obstacles);
      RouteUnfolds(n);
      var r, rp := Route(n), Route(p);
      forall k | 0 < k < |r|
        ensures StepAt(r, k, grid, obstacles)
      {
        if k < |rp| {
          assert StepAt(rp, k, grid, obstacles);
          assert r[k] == rp[k] && r[k - 1] == rp[k - 1];
        }
      }
  }

  /** The cells of a reached node's route form a walk. */
  lemma RouteCellsWalk(n: AStarNode, start: AStarNode, grid: Grid, obstacles: seq<CellRect>)
    requires Reached(n, start, grid, obstacles)
    ensures IsWalk(Cells(Route(n)))
  {
    RouteIsWalk(n, start, grid, obstacles);
    var r := Route(n);
    forall k | 0 < k < |r|
      ensures Adjacent(Cells(r)[k - 1], Cells(r)[k])
    {
      assert StepAt(r, k, grid, obstacles);
    }
  }

  /** The route is at least as long as the Manhattan distance it covers. */
  lemma RouteNoShorterThanDistance(n: AStarNode, start: AStarNode, grid: Grid, obstacles: seq<CellRect>)
    requires Reached(n, start, grid, obstacles)
    ensures Manhattan(Pos(start), Pos(n)) <= |Route(n)| - 1
  {
    RouteIsWalk(n, start, grid, obstacles);
    RouteCellsWalk(n, start, grid, obstacles);
    ManhattanBoundsWalks(Cells(Route(n)));
  }

  // ---------------------------------------------------------------------------
  // getPath

  /** Before the walk: every ancestor of the list's first node is in the
      rest of the list. */
  lemma AncestorsInRest(closeList: seq<AStarNode>)
    requires |closeList| > 0 && DistinctCells(multiset(closeList)) && ParentClosed(closeList)
    ensures forall k :: 1 <= k < |Chain(closeList[0])| ==> Chain(closeList[0])[k] in closeList[1..]
  {
    var c := Chain(closeList[0]);
    ChainInList(closeList[0], closeList);
    assert closeList == [closeList[0]] + closeList[1..];
    forall k | 1 <= k < |c|
      ensures c[k] in closeList[1..]
    {
      assert Depth(c[k]) != Depth(closeList[0]);
    }
  }

  /** Removing one element of a list removes one copy of it and keeps the
      other elements. */
  lemma RemoveAt(rest: seq<AStarNode>, i: int)
    requires 0 <= i < |rest|
    ensures multiset(rest[..i] + rest[i + 1..]) == multiset(rest) - multiset{rest[i]}
    ensures forall x :: x in rest && x != rest[i] ==> x in rest[..i] + rest[i + 1..]
  {
    assert rest == rest[..i] + [rest[i]] + rest[i + 1..];
  }

  /** In a list with distinct cells, a position identifies the node. */
  lemma SamePositionSameNode(m: multiset<AStarNode>, a: AStarNode, b: AStarNode)
    requires DistinctCells(m) && a in m && b in m && Pos(a) == Pos(b)
    ensures a == b
  {
  }

  /** One step of the walk: the first match of the parent's position in the
      rest of the list is the parent itself, and removing it leaves the
      parent's own ancestors in the list. */
  lemma TakeParent(closeList: seq<AStarNode>, curr: AStarNode, rest: seq<AStarNode>, i: int)
    requires DistinctCells(multiset(closeList)) && multiset(rest) <= multiset(closeList)
    requires curr.parent.Some?
    requires forall k :: 1 <= k < |Chain(curr)| ==> Chain(curr)[k] in rest
    requires 0 <= i < |rest| && IsEqualTo(rest[i], curr.parent.value)
    ensures rest[i] == curr.parent.value
    ensures multiset(rest[..i] + rest[i + 1..]) <= multiset(closeList)
    ensures forall k :: 1 <= k < |Chain(rest[i])| ==> Chain(rest[i])[k] in rest[..i] + rest[i + 1..]
  {
    var p := curr.parent.value;
    var cp := Chain(p);
    ChainUnfolds(curr);
    assert p in rest by {
      assert Chain(curr)[1] == p;
    }
    assert rest[i] == p by {
      assert p in multiset(rest) && rest[i] in multiset(rest);
      SamePositionSameNode(multiset(closeList), rest[i], p);
    }
    RemoveAt(rest, i);
    forall k | 1 <= k < |cp|
      ensures cp[k] in rest[..i] + rest[i + 1..]
    {
      assert cp[k] == Chain(curr)[k + 1];
      assert Depth(cp[k]) != Depth(p);
    }
  }

  /** A node's chain is the node followed by its parent's chain. */
  lemma ChainUnfolds(n: AStarNode)
    requires n.parent.Some?
    ensures Chain(n) == [n] + Chain(n.parent.value)
    ensures Chain(n)[1..] == Chain(n.parent.value)
  {
  }

  /** Moving the head of the second part of a split to the end of the first
      part keeps the whole. */
  lemma ShiftSplit(nodes: seq<AStarNode>, rest: seq<AStarNode>, whole: seq<AStarNode>)
    requires |rest| > 0 && nodes + rest == whole
    ensures (nodes + [rest[0]]) + rest[1..] == whole
  {
    assert rest == [rest[0]] + rest[1..];
  }

  /** getPath's inner loop: the index of the first node of `list` at the
      position of `o`, or |list| when there is none. */
  method FindEqual(list: seq<AStarNode>, o: AStarNode) returns (i: int)
    ensures 0 <= i <= |list|
    ensures forall k :: 0 <= k < i ==> !IsEqualTo(list[k], o)
    ensures i < |list| ==> IsEqualTo(list[i], o)
    ensures i == |list| <==> !Listed(list, Pos(o))
  {
    i := 0;
    while i < |list|
      invariant 0 <= i <= |list|
      invariant forall k :: 0 <= k < i ==> !IsEqualTo(list[k], o)
    {
      if IsEqualTo(list[i], o) {
        assert list[i] in list;
        return;
      }
      i := i + 1;
    }
  }

  /** getPath: starting from the first node of the (reversed) closed list,
      look up each parent's position in the rest of the list, move the match
      to the path and remove it from the list, until a node without parent;
      then map the nodes from that root onwards to the plane, between the two
      given points. The source searches forever when a parent is missing, so
      the list must hold every parent, each position once. */
  method GetPath(closeList: seq<AStarNode>, grid: Grid, source: Point, target: Point) returns (path: seq<Point>)
    requires |closeList| > 0
    requires DistinctCells(multiset(closeList))
    requires ParentClosed(closeList)
    ensures path == [source] + ToPoints(Route(closeList[0]), grid) + [target]
  {
    var curr := closeList[0];
    var rest := closeList[1..];
    var nodes := [curr];
    AncestorsInRest(closeList);
    assert closeList == [curr] + rest;
    while curr.parent.Some?
      invariant multiset(rest) <= multiset(closeList)
      invariant forall k :: 1 <= k < |Chain(curr)| ==> Chain(curr)[k] in rest
      invariant nodes + Chain(curr)[1..] == Chain(closeList[0])
      decreases |rest|
    {
      assert Chain(curr)[1] == curr.parent.value;
      var i := FindEqual(rest, curr.parent.value);
      TakeParent(closeList, curr, rest, i);
      ChainUnfolds(curr);
      ShiftSplit(nodes, Chain(curr.parent.value), Chain(closeList[0]));
      nodes := nodes + [rest[i]];
      curr := rest[i];
      rest := rest[..i] + rest[i + 1..];
    }
    path := [source] + ToPoints(Reverse(nodes), grid) + [target];
  }
}
