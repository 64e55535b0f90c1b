/** AStarMgr: the router object. Its constructor fixes the anchors, the grid,
    the anchors' cells and the obstacle rectangles once; findPath then runs a
    bounded search whose open and closed lists are the object's two mutable
    fields, and hands the closed list to getPath. */
module Manager {
  import opened Geometry
  import opened Nodes
  import opened Ordering
  import opened Search

  /** The number of iterations findPath's loop can run: it continues while
      its counter, starting at 0 and raised once per iteration, is at most
      `limit`. */
  function MaxIterations(limit: int): nat
  {
    if limit < 0 then 0 else limit + 1
  }

  /** The two lists a search leaves behind. */
  datatype Lists = Lists(closed: seq<AStarNode>, open: seq<AStarNode>)

  /** findPath's loop from given lists and iteration count: while something
      is open and the count is at most `limit`, close the first open node;
      stop if it is at the target cell, else open its admissible neighbours
      and re-sort. The closed list is in the order of closing. */
  function Run(closeList: seq<AStarNode>, openList: seq<AStarNode>, count: int, limit: int,
               target: Cell, grid: Grid, obstacles: seq<CellRect>): Lists
    decreases limit - count + 1
  {
    if |openList| == 0 || count > limit then Lists(closeList, openList)
    else
      var cell := openList[0];
      var closed, open := closeList + [cell], openList[1..];
      if IsAt(cell, target) then Lists(closed, open)
      else Run(closed, SortByF(open + GetNeighbors(cell, closed, open, grid, obstacles)), count + 1, limit,
               target, grid, obstacles)
  }

  class AStarMgr {
    const anchorOffset: real
    const step: real
    const sourceShape: Shape
    const targetShape: Shape
    /** The surface anchors (offset 0): the ends of the returned polyline. */
    const oSource: Point
    const oTarget: Point
    /** The search anchors, `anchorOffset` outside the shapes. */
    const source: Point
    const target: Point
    const grid: Grid
    const sourceCell: Cell
    const targetCell: Cell
    /** The padded shapes in cell units: the source shape, the given
        obstacles, then the target shape. */
    const obstacles: seq<CellRect>
    var openList: seq<AStarNode>
    var closeList: seq<AStarNode>

    /** What the constructor establishes about the grid: the source anchor is
        the origin cell, and the target anchor's cell maps back onto it. */
    predicate Valid()
    {
      grid.x != 0.0 && grid.y != 0.0 && grid.source == source &&
      sourceCell == Cell(0, 0) && CellToPoint(sourceCell, grid) == source &&
      CellToPoint(targetCell, grid) == target
    }

    /** The constructor. A step of 0 is excluded: in the source it gives an
        axis with zero anchor-to-anchor distance cell size 0 and any other
        axis cell size NaN, so both anchor cells come out NaN. */
    constructor(sourceShape: Shape, sourceAnchorDirection: string, targetShape: Shape, targetAnchorDirection: string,
                mapWidth: real, mapHeight: real, obstacles: seq<Shape> := [], anchorOffset: real := 10.0,
                step: real := 10.0)
      requires step != 0.0
      ensures this.anchorOffset == anchorOffset && this.step == step
      ensures this.sourceShape == sourceShape && this.targetShape == targetShape
      ensures oSource == GetAnchor(sourceShape, sourceAnchorDirection, 0.0)
      ensures oTarget == GetAnchor(targetShape, targetAnchorDirection, 0.0)
      ensures source == GetAnchor(sourceShape, sourceAnchorDirection, anchorOffset)
      ensures target == GetAnchor(targetShape, targetAnchorDirection, anchorOffset)
      ensures grid == GetGrid(source, target, mapWidth, mapHeight, step)
      ensures sourceCell == ConvertToGridCell(source, source, grid)
      ensures targetCell == ConvertToGridCell(target, source, grid)
      ensures this.obstacles == ConvertObstaclesToGridCell([sourceShape] + obstacles + [targetShape], anchorOffset, source, grid)
      ensures openList == [] && closeList == []
      ensures Valid()
    {
      var src := GetAnchor(sourceShape, sourceAnchorDirection, anchorOffset);
      var tgt := GetAnchor(targetShape, targetAnchorDirection, anchorOffset);
      var g := GetGrid(src, tgt, mapWidth, mapHeight, step);
      this.anchorOffset := anchorOffset;
      this.step := step;
      this.sourceShape := sourceShape;
      this.targetShape := targetShape;
      oSource := GetAnchor(sourceShape, sourceAnchorDirection, 0.0);
      oTarget := GetAnchor(targetShape, targetAnchorDirection, 0.0);
      source := src;
      target := tgt;
      grid := g;
      sourceCell := ConvertToGridCell(src, src, g);
      targetCell := ConvertToGridCell(tgt, src, g);
      this.obstacles := ConvertObstaclesToGridCell([sourceShape] + obstacles + [targetShape], anchorOffset, src, g);
      openList := [];
      closeList := [];
      AnchorsLandOnGrid(src, tgt, step, g);
    }

    /** findPath's start node: the source cell, no parent, the target cell as
        goal. */
    function StartNode(): AStarNode
    {
      NewNode(sourceCell.x, sourceCell.y, None, Some(targetCell))
    }

    /** The lists findPath's loop ends with, the closed one in the order of
        closing. */
    function Explored(limit: int): Lists
    {
      var start := StartNode();
      Run([start], SortByF(GetNeighbors(start, [], [], grid, obstacles)), 0, limit, targetCell, grid, obstacles)
    }

    /** findPath: start from the source cell with its admissible neighbours
        open, then repeatedly close the open node of least `f` (the first of
        the sorted open list), stopping when it is at the target cell, when
        nothing is open, or after MaxIterations(limit) iterations; else open
        its admissible neighbours and re-sort. The closed list is then
        reversed in place and walked back by getPath. */
    method FindPath(limit: int := 2000) returns (path: seq<Point>)
      modifies this
      ensures Promised(limit, path)
    {
      ghost var final := Explored(limit);
      var hasFound := false;
      openList := [];
      closeList := [];
      var start := NewNode(sourceCell.x, sourceCell.y, None, Some(targetCell));
      var end := NewNode(targetCell.x, targetCell.y, None, Some(targetCell));
      openList := SortByF(GetNeighbors(start, closeList, openList, grid, obstacles));
      closeList := closeList + [start];
      assert closeList == [start];
      var count := 0;
      while !hasFound && |openList| > 0 && count <= limit
        invariant !hasFound
        invariant Run(closeList, openList, count, limit, targetCell, grid, obstacles) == final
        decreases limit - count
      {
        count := count + 1;
        var cell := openList[0];
        openList := openList[1..];
        closeList := closeList + [cell];
        if IsEqualTo(cell, end) {
          hasFound := true;
          break;
        }
        openList := SortByF(openList + GetNeighbors(cell, closeList, openList, grid, obstacles));
      }
      assert final == Lists(closeList, openList);
      path := Finish(limit);
    }

    /** What findPath promises: the lists are those of the search, the closed
        one reversed; the path is the outcome of that search; the search
        stopped at the target cell, with nothing open, or after
        MaxIterations(limit) iterations; it closed its nodes best-first; and
        it expanded every closed node but a last one at the target cell. */
    ghost predicate Promised(limit: int, path: seq<Point>)
      reads this
    {
      closeList == Reverse(Explored(limit).closed) && openList == Explored(limit).open &&
      Outcome(closeList, openList, path, StartNode(), targetCell, grid, obstacles, oSource, oTarget) &&
      |closeList| <= MaxIterations(limit) + 1 &&
      (Pos(closeList[0]) == targetCell || openList == [] || |closeList| == MaxIterations(limit) + 1) &&
      BestFirst(Explored(limit).closed, openList) &&
      Frontier(Explored(limit).closed, openList, targetCell, grid, obstacles)
    }

    /** The end of findPath: the closed list reversed in place, and the path
        getPath walks back from it. */
    method Finish(limit: int) returns (path: seq<Point>)
      modifies this
      requires closeList == Explored(limit).closed && openList == Explored(limit).open
      ensures Promised(limit, path)
    {
      SearchOutcome(StartNode(), limit, targetCell, grid, obstacles, oSource, oTarget);
      closeList := Reverse(closeList);
      path := GetPath(closeList, grid, oSource, oTarget);
    }

    /** With the grid anchored at the source, the path findPath returns
        starts, after the original source point, at the source anchor; when
        the search stopped at the target cell it ends, before the original
        target point, at the target anchor. */
    lemma PathJoinsAnchors(path: seq<Point>)
      requires Valid()
      requires Outcome(closeList, openList, path, StartNode(), targetCell, grid, obstacles, oSource, oTarget)
      ensures path[1] == source
      ensures Pos(closeList[0]) == targetCell ==> path[|path| - 2] == target
    {
    }
  }

  /** What findPath leaves behind: the closed list, reversed, ends with the
      start node and has the target cell at most at its ends; the search
      state holds of both lists; and the path is the route to the first
      closed node, framed by the two original points, one cell per unit of
      cost, over a walk of the grid from the start cell. */
  ghost predicate Outcome(closeList: seq<AStarNode>, openList: seq<AStarNode>, path: seq<Point>,
                          start: AStarNode, target: Cell, grid: Grid, obstacles: seq<CellRect>,
                          oSource: Point, oTarget: Point)
  {
    |closeList| >= 1 && closeList[|closeList| - 1] == start &&
    AvoidsMiddle(closeList, target) &&
    SearchState(closeList, openList, start, target, grid, obstacles) &&
    path == [oSource] + ToPoints(Route(closeList[0]), grid) + [oTarget] &&
    |path| == closeList[0].g + 3 && IsWalk(Cells(Route(closeList[0]))) &&
    path[1] == CellToPoint(Pos(start), grid) && path[|path| - 2] == CellToPoint(Pos(closeList[0]), grid)
  }

  /** Reversing the closed list and walking its first node back to the
      start gives the outcome, and a list getPath can walk. */
  lemma Conclude(closed: seq<AStarNode>, openList: seq<AStarNode>, start: AStarNode, target: Cell,
                 grid: Grid, obstacles: seq<CellRect>, oSource: Point, oTarget: Point)
    requires SearchState(closed, openList, start, target, grid, obstacles)
    requires AvoidsMiddle(closed, target) && |closed| >= 1 && closed[0] == start && start.g == 0
    ensures var r := Reverse(closed);
      |r| == |closed| && r[0] == closed[|closed| - 1] &&
      DistinctCells(multiset(r)) && ParentClosed(r) &&
      Outcome(r, openList, [oSource] + ToPoints(Route(r[0]), grid) + [oTarget], start, target, grid, obstacles,
              oSource, oTarget)
  {
    var r := Reverse(closed);
    ReverseKeeps(closed, openList, start, target, grid, obstacles);
    AvoidsMiddleReversed(closed, target);
    var n := r[0];
    assert n in r;
    RouteIsWalk(n, start, grid, obstacles);
    RouteCellsWalk(n, start, grid, obstacles);
    FramedEnds(oSource, ToPoints(Route(n), grid), oTarget);
  }

  /** The ends of a path framed by the two original points. */
  lemma FramedEnds(source: Point, ps: seq<Point>, target: Point)
    requires |ps| >= 1
    ensures var p := [source] + ps + [target];
      |p| == |ps| + 2 && p[1] == ps[0] && p[|p| - 2] == ps[|ps| - 1]
  {
  }

  /** No node but the first is at the target cell. */
  ghost predicate AvoidsAfterFirst(list: seq<AStarNode>, target: Cell)
  {
    forall k :: 1 <= k < |list| ==> Pos(list[k]) != target
  }

  lemma AvoidsAppend(list: seq<AStarNode>, x: AStarNode, target: Cell)
    requires AvoidsAfterFirst(list, target) && |list| >= 1 && Pos(x) != target
    ensures AvoidsAfterFirst(list + [x], target)
  {
  }

  /** No node but the first and the last is at the target cell. */
  ghost predicate AvoidsMiddle(list: seq<AStarNode>, target: Cell)
  {
    forall k :: 0 < k < |list| - 1 ==> Pos(list[k]) != target
  }

  lemma AvoidsMiddleOf(list: seq<AStarNode>, target: Cell)
    requires AvoidsAfterFirst(list, target)
    ensures AvoidsMiddle(list, target)
  {
  }

  lemma AvoidsMiddleAppend(list: seq<AStarNode>, x: AStarNode, target: Cell)
    requires AvoidsAfterFirst(list, target)
    ensures AvoidsMiddle(list + [x], target)
  {
    assert forall k :: 0 < k < |list| ==> (list + [x])[k] == list[k];
  }

  lemma AvoidsMiddleReversed(list: seq<AStarNode>, target: Cell)
    requires AvoidsMiddle(list, target)
    ensures AvoidsMiddle(Reverse(list), target)
  {
    var r := Reverse(list);
    forall k | 0 < k < |r| - 1
      ensures Pos(r[k]) != target
    {
      assert r[k] == list[|list| - 1 - k];
    }
  }

  /** A node findPath keeps: reached from the start node, with the target
      cell as goal. */
  ghost predicate Searched(n: AStarNode, start: AStarNode, target: Cell, grid: Grid, obstacles: seq<CellRect>)
  {
    Reached(n, start, grid, obstacles) && EndCell(n) == target
  }

  /** The node has a parent, and it is listed. */
  ghost predicate ParentIn(n: AStarNode, list: seq<AStarNode>)
  {
    n.parent.Some? && n.parent.value in list
  }

  /** What findPath keeps true of its two lists: the open list is sorted by
      `f`, no position is on both lists or twice on one, every parent is
      closed, and every node was reached from the start node by steps onto
      passable cells. */
  ghost predicate SearchState(closeList: seq<AStarNode>, openList: seq<AStarNode>, start: AStarNode, target: Cell,
                              grid: Grid, obstacles: seq<CellRect>)
  {
    SortedByF(openList) &&
    DistinctCells(multiset(closeList) + multiset(openList)) &&
    ParentClosed(closeList) &&
    (forall n :: n in openList ==> ParentIn(n, closeList)) &&
    (forall n :: n in closeList ==> Searched(n, start, target, grid, obstacles)) &&
    (forall n :: n in openList ==> Searched(n, start, target, grid, obstacles))
  }

  /** The state before the loop: the start node closed, its admissible
      neighbours (filtered against two empty lists) open and sorted. */
  lemma StartState(start: AStarNode, target: Cell, grid: Grid, obstacles: seq<CellRect>)
    requires start.parent.None? && EndCell(start) == target
    ensures SearchState([start], SortByF(GetNeighbors(start, [], [], grid, obstacles)), start, target, grid, obstacles)
  {
    var nbs := GetNeighbors(start, [], [], grid, obstacles);
    StartDistinct(start, nbs, grid, obstacles);
    StartOpen(start, nbs, target, grid, obstacles);
    assert forall n :: n in [start] ==> n == start;
  }

  lemma StartDistinct(start: AStarNode, nbs: seq<AStarNode>, grid: Grid, obstacles: seq<CellRect>)
    requires nbs == GetNeighbors(start, [], [], grid, obstacles)
    ensures DistinctCells(multiset([start]) + multiset(SortByF(nbs)))
  {
    var m := multiset{start};
    forall i | 0 <= i < |nbs|
      ensures !(exists n :: n in m && IsAt(n, Pos(nbs[i])))
    {
      assert ChildOf(nbs[i], start);
    }
    AddDistinct(m, nbs);
    assert multiset([start]) == m;
  }

  lemma StartOpen(start: AStarNode, nbs: seq<AStarNode>, target: Cell, grid: Grid, obstacles: seq<CellRect>)
    requires start.parent.None? && EndCell(start) == target
    requires nbs == GetNeighbors(start, [], [], grid, obstacles)
    ensures forall n :: n in SortByF(nbs) ==> ParentIn(n, [start]) && Searched(n, start, target, grid, obstacles)
  {
    forall n | n in SortByF(nbs)
      ensures ParentIn(n, [start]) && Searched(n, start, target, grid, obstacles)
    {
      assert n in multiset(nbs);
      var j :| 0 <= j < |nbs| && nbs[j] == n;
      assert Admissible(Pos(nbs[j]), [], [], grid, obstacles);
      ChildSearched(n, start, start, target, grid, obstacles);
    }
  }

  /** Closing the first open node keeps the state. */
  lemma PopKeeps(closeList: seq<AStarNode>, openList: seq<AStarNode>, start: AStarNode, target: Cell,
                 grid: Grid, obstacles: seq<CellRect>)
    requires SearchState(closeList, openList, start, target, grid, obstacles) && |openList| > 0
    ensures SearchState(closeList + [openList[0]], openList[1..], start, target, grid, obstacles)
  {
    var x := openList[0];
    var close', open' := closeList + [x], openList[1..];
    assert openList == [x] + open';
    assert multiset(close') + multiset(open') == multiset(closeList) + multiset(openList);
    assert ParentIn(x, closeList);
    forall n | n in close'
      ensures ParentListed(n, close')
    {
      if n != x {
        assert ParentListed(n, closeList);
      }
    }
    forall n | n in open'
      ensures ParentIn(n, close')
    {
      assert ParentIn(n, closeList);
    }
  }

  /** Opening the admissible neighbours of a closed node keeps the state. */
  lemma OpenKeeps(closeList: seq<AStarNode>, openList: seq<AStarNode>, cell: AStarNode, nbs: seq<AStarNode>,
                  start: AStarNode, target: Cell, grid: Grid, obstacles: seq<CellRect>)
    requires SearchState(closeList, openList, start, target, grid, obstacles) && cell in closeList
    requires nbs == GetNeighbors(cell, closeList, openList, grid, obstacles)
    ensures SearchState(closeList, SortByF(openList + nbs), start, target, grid, obstacles)
  {
    OpenDistinct(closeList, openList, cell, nbs, grid, obstacles);
    OpenLinked(closeList, openList, cell, nbs, start, target, grid, obstacles);
  }

  lemma OpenDistinct(closeList: seq<AStarNode>, openList: seq<AStarNode>, cell: AStarNode, nbs: seq<AStarNode>,
                     grid: Grid, obstacles: seq<CellRect>)
    requires DistinctCells(multiset(closeList) + multiset(openList))
    requires nbs == GetNeighbors(cell, closeList, openList, grid, obstacles)
    ensures DistinctCells(multiset(closeList) + multiset(SortByF(openList + nbs)))
  {
    var m := multiset(closeList) + multiset(openList);
    forall i | 0 <= i < |nbs|
      ensures !(exists n :: n in m && IsAt(n, Pos(nbs[i])))
    {
      var c := Pos(nbs[i]);
      assert Admissible(c, closeList, openList, grid, obstacles);
      forall n | n in m
        ensures !IsAt(n, c)
      {
        assert n in closeList || n in openList;
      }
    }
    AddDistinct(m, nbs);
    assert multiset(SortByF(openList + nbs)) == multiset(openList) + multiset(nbs);
    assert m + multiset(nbs) == multiset(closeList) + multiset(SortByF(openList + nbs));
  }

  lemma OpenLinked(closeList: seq<AStarNode>, openList: seq<AStarNode>, cell: AStarNode, nbs: seq<AStarNode>,
                   start: AStarNode, target: Cell, grid: Grid, obstacles: seq<CellRect>)
    requires forall n :: n in openList ==> ParentIn(n, closeList) && Searched(n, start, target, grid, obstacles)
    requires cell in closeList && Searched(cell, start, target, grid, obstacles)
    requires nbs == GetNeighbors(cell, closeList, openList, grid, obstacles)
    ensures forall n :: n in SortByF(openList + nbs) ==>
      ParentIn(n, closeList) && Searched(n, start, target, grid, obstacles)
  {
    forall n | n in SortByF(openList + nbs)
      ensures ParentIn(n, closeList) && Searched(n, start, target, grid, obstacles)
    {
      assert n in multiset(openList) + multiset(nbs);
      if n !in openList {
        var j :| 0 <= j < |nbs| && nbs[j] == n;
        assert Admissible(Pos(nbs[j]), closeList, openList, grid, obstacles);
        ChildSearched(n, cell, start, target, grid, obstacles);
      }
    }
  }

  /** A neighbour handed on by getNeighbors extends its parent's search. */
  lemma ChildSearched(n: AStarNode, cell: AStarNode, start: AStarNode, target: Cell, grid: Grid, obstacles: seq<CellRect>)
    requires ChildOf(n, cell) && Passable(Pos(n), grid, obstacles) && Searched(cell, start, target, grid, obstacles)
    ensures Searched(n, start, target, grid, obstacles) && n.parent == Some(cell)
  {
  }

  /** Reversing the closed list keeps the state, and hands getPath a list it
      can walk. */
  lemma ReverseKeeps(closed: seq<AStarNode>, openList: seq<AStarNode>, start: AStarNode, target: Cell,
                     grid: Grid, obstacles: seq<CellRect>)
    requires SearchState(closed, openList, start, target, grid, obstacles)
    ensures SearchState(Reverse(closed), openList, start, target, grid, obstacles)
    ensures DistinctCells(multiset(Reverse(closed))) && ParentClosed(Reverse(closed))
  {
    var r := Reverse(closed);
    ReversePermutes(closed);
    assert forall n :: n in r <==> n in multiset(closed);
    SubDistinct(multiset(r), multiset(openList));
    forall n | n in r
      ensures ParentListed(n, r)
    {
      assert ParentListed(n, closed);
    }
    forall n | n in openList
      ensures ParentIn(n, r)
    {
      assert ParentIn(n, closed);
    }
  }

  /** What findPath's loop keeps true at the top of each iteration. */
  ghost predicate LoopState(closeList: seq<AStarNode>, openList: seq<AStarNode>, count: int, limit: int,
                            start: AStarNode, target: Cell, grid: Grid, obstacles: seq<CellRect>)
  {
    0 <= count <= MaxIterations(limit) && |closeList| == count + 1 && closeList[0] == start &&
    SearchState(closeList, openList, start, target, grid, obstacles) &&
    AvoidsAfterFirst(closeList, target) && BestFirst(closeList, openList) &&
    ExpandedUpTo(closeList, openList, |closeList|, grid, obstacles)
  }

  /** What findPath's loop leaves behind, the closed list in the order of
      closing: the search state, the target cell at most at the ends, a
      best-first order of closing, every closed node expanded but a last one
      at the target, and one of the three reasons to stop. */
  ghost predicate Finished(r: Lists, limit: int, start: AStarNode, target: Cell, grid: Grid, obstacles: seq<CellRect>)
  {
    1 <= |r.closed| <= MaxIterations(limit) + 1 && r.closed[0] == start &&
    SearchState(r.closed, r.open, start, target, grid, obstacles) &&
    AvoidsMiddle(r.closed, target) && BestFirst(r.closed, r.open) &&
    Frontier(r.closed, r.open, target, grid, obstacles) &&
    (Pos(r.closed[|r.closed| - 1]) == target || r.open == [] || |r.closed| == MaxIterations(limit) + 1)
  }

  /** Everything findPath promises about the search from `start`: the
      closed list reversed has the outcome and is a list getPath can walk,
      the search stopped for one of its three reasons, closed its nodes
      best-first, and expanded every closed node but a last one at the
      target. */
  lemma SearchOutcome(start: AStarNode, limit: int, target: Cell, grid: Grid, obstacles: seq<CellRect>,
                      oSource: Point, oTarget: Point)
    requires start.parent.None? && EndCell(start) == target && start.g == 0
    ensures var r := Run([start], SortByF(GetNeighbors(start, [], [], grid, obstacles)), 0, limit, target, grid, obstacles);
      var c := Reverse(r.closed);
      1 <= |c| <= MaxIterations(limit) + 1 &&
      Outcome(c, r.open, [oSource] + ToPoints(Route(c[0]), grid) + [oTarget], start, target, grid, obstacles,
              oSource, oTarget) &&
      DistinctCells(multiset(c)) && ParentClosed(c) &&
      (Pos(c[0]) == target || r.open == [] || |c| == MaxIterations(limit) + 1) &&
      BestFirst(r.closed, r.open) && Frontier(r.closed, r.open, target, grid, obstacles)
  {
    var open0 := SortByF(GetNeighbors(start, [], [], grid, obstacles));
    StartState(start, target, grid, obstacles);
    StartBestFirst(start, grid, obstacles);
    StartExpanded(start, grid, obstacles);
    RunFinishes([start], open0, 0, limit, start, target, grid, obstacles);
    var r := Run([start], open0, 0, limit, target, grid, obstacles);
    FinishedReversed(r, limit, start, target, grid, obstacles);
    Conclude(r.closed, r.open, start, target, grid, obstacles, oSource, oTarget);
  }

  /** The stopping conditions, read on the closed list reversed. */
  lemma FinishedReversed(r: Lists, limit: int, start: AStarNode, target: Cell, grid: Grid, obstacles: seq<CellRect>)
    requires Finished(r, limit, start, target, grid, obstacles)
    ensures var c := Reverse(r.closed);
      |c| <= MaxIterations(limit) + 1 &&
      (Pos(c[0]) == target || r.open == [] || |c| == MaxIterations(limit) + 1)
  {
    assert Reverse(r.closed)[0] == r.closed[|r.closed| - 1];
  }

  /** From any state the loop keeps, the search finishes as findPath
      promises. */
  lemma {:induction false} RunFinishes(closeList: seq<AStarNode>, openList: seq<AStarNode>, count: int, limit: int,
                                       start: AStarNode, target: Cell, grid: Grid, obstacles: seq<CellRect>)
    requires LoopState(closeList, openList, count, limit, start, target, grid, obstacles)
    ensures Finished(Run(closeList, openList, count, limit, target, grid, obstacles), limit, start, target, grid, obstacles)
    decreases limit - count + 1
  {
    if |openList| == 0 || count > limit {
      Stopped(closeList, openList, count, limit, start, target, grid, obstacles);
    } else if IsAt(openList[0], target) {
      Found(closeList, openList, count, limit, start, target, grid, obstacles);
    } else {
      var cell := openList[0];
      var closed, open := closeList + [cell], openList[1..];
      var nbs := GetNeighbors(cell, closed, open, grid, obstacles);
      Continues(closeList, openList, count, limit, start, target, grid, obstacles);
      RunFinishes(closed, SortByF(open + nbs), count + 1, limit, start, target, grid, obstacles);
    }
  }

  /** The loop stops with nothing open or the count past `limit`. */
  lemma Stopped(closeList: seq<AStarNode>, openList: seq<AStarNode>, count: int, limit: int,
                start: AStarNode, target: Cell, grid: Grid, obstacles: seq<CellRect>)
    requires LoopState(closeList, openList, count, limit, start, target, grid, obstacles)
    requires |openList| == 0 || count > limit
    ensures Finished(Lists(closeList, openList), limit, start, target, grid, obstacles)
  {
    AvoidsMiddleOf(closeList, target);
  }

  /** The loop stops on closing a node at the target cell. */
  lemma Found(closeList: seq<AStarNode>, openList: seq<AStarNode>, count: int, limit: int,
              start: AStarNode, target: Cell, grid: Grid, obstacles: seq<CellRect>)
    requires LoopState(closeList, openList, count, limit, start, target, grid, obstacles)
    requires |openList| > 0 && count <= limit && IsAt(openList[0], target)
    ensures Finished(Lists(closeList + [openList[0]], openList[1..]), limit, start, target, grid, obstacles)
  {
    PopKeeps(closeList, openList, start, target, grid, obstacles);
    PopBestFirst(closeList, openList);
    PopExpanded(closeList, openList, grid, obstacles);
    AvoidsMiddleAppend(closeList, openList[0], target);
  }

  /** One full iteration keeps the loop's state. */
  lemma Continues(closeList: seq<AStarNode>, openList: seq<AStarNode>, count: int, limit: int,
                  start: AStarNode, target: Cell, grid: Grid, obstacles: seq<CellRect>)
    requires LoopState(closeList, openList, count, limit, start, target, grid, obstacles)
    requires |openList| > 0 && count <= limit && !IsAt(openList[0], target)
    ensures var cell := openList[0];
      var closed, open := closeList + [cell], openList[1..];
      LoopState(closed, SortByF(open + GetNeighbors(cell, closed, open, grid, obstacles)), count + 1, limit,
                start, target, grid, obstacles)
  {
    var cell := openList[0];
    var closed, open := closeList + [cell], openList[1..];
    PopKeeps(closeList, openList, start, target, grid, obstacles);
    PopBestFirst(closeList, openList);
    PopExpanded(closeList, openList, grid, obstacles);
    AvoidsAppend(closeList, cell, target);
    assert |closed| - 1 == |closeList|;
    var nbs := GetNeighbors(cell, closed, open, grid, obstacles);
    OpenKeeps(closed, open, cell, nbs, start, target, grid, obstacles);
    OpenBestFirst(closed, open, cell, nbs);
    OpenExpanded(closed, open, cell, nbs, grid, obstacles);
  }

  // ---------------------------------------------------------------------------
  // The frontier and the order of closing

  /** Every passable cell next to `n` is on one of the two lists: the
      neighbours of `n` have been opened. */
  ghost predicate Expanded(n: AStarNode, closeList: seq<AStarNode>, openList: seq<AStarNode>,
                           grid: Grid, obstacles: seq<CellRect>)
  {
    forall c :: Adjacent(Pos(n), c) && Passable(c, grid, obstacles) ==> Listed(closeList, c) || Listed(openList, c)
  }

  /** The first `m` closed nodes are expanded. */
  ghost predicate ExpandedUpTo(closeList: seq<AStarNode>, openList: seq<AStarNode>, m: int,
                               grid: Grid, obstacles: seq<CellRect>)
  {
    forall k :: 0 <= k < m && k < |closeList| ==> Expanded(closeList[k], closeList, openList, grid, obstacles)
  }

  /** Every closed node but the last has had its neighbours opened, and the
      last one too unless the search stopped on it at the target cell. */
  ghost predicate Frontier(closeList: seq<AStarNode>, openList: seq<AStarNode>, target: Cell,
                           grid: Grid, obstacles: seq<CellRect>)
  {
    |closeList| > 0 &&
    ExpandedUpTo(closeList, openList, |closeList| - 1, grid, obstacles) &&
    (Pos(closeList[|closeList| - 1]) != target ==> ExpandedUpTo(closeList, openList, |closeList|, grid, obstacles))
  }

  /** Nodes were closed in order of non-decreasing `f`, and no open node has
      a smaller `f` than the last one closed: the search is best-first. */
  ghost predicate BestFirst(closeList: seq<AStarNode>, openList: seq<AStarNode>)
  {
    |closeList| > 0 && SortedByF(closeList) &&
    forall n :: n in openList ==> F(closeList[|closeList| - 1]) <= F(n)
  }

  /** ChildEstimateGrows for any node getNeighbors hands on: it has its
      parent's `f` or two more. */
  lemma ChildEstimate(n: AStarNode, cell: AStarNode)
    requires ChildOf(n, cell)
    ensures F(n) == F(cell) || F(n) == F(cell) + 2
  {
    NeighborsAreTheAdjacentCells(cell);
    var i :| 0 <= i < 4 && Pos(Neighbors(cell)[i]) == Pos(n);
    ChildEstimateGrows(cell, i);
  }

  /** A sort keeps the cells a list holds. */
  lemma ListedSorted(s: seq<AStarNode>, c: Cell)
    ensures Listed(SortByF(s), c) <==> Listed(s, c)
  {
    var r := SortByF(s);
    if Listed(s, c) {
      var n :| n in s && IsAt(n, c);
      assert n in multiset(r);
    }
    if Listed(r, c) {
      var n :| n in r && IsAt(n, c);
      assert n in multiset(s);
    }
  }

  /** Before the loop, the start node is expanded. */
  lemma StartExpanded(start: AStarNode, grid: Grid, obstacles: seq<CellRect>)
    ensures ExpandedUpTo([start], SortByF(GetNeighbors(start, [], [], grid, obstacles)), 1, grid, obstacles)
  {
    var nbs := GetNeighbors(start, [], [], grid, obstacles);
    forall c | Adjacent(Pos(start), c) && Passable(c, grid, obstacles)
      ensures Listed(SortByF(nbs), c)
    {
      assert Admissible(c, [], [], grid, obstacles);
      ListedSorted(nbs, c);
    }
    assert Expanded([start][0], [start], SortByF(nbs), grid, obstacles);
  }

  /** Before the loop, nothing open has a smaller `f` than the start node. */
  lemma StartBestFirst(start: AStarNode, grid: Grid, obstacles: seq<CellRect>)
    ensures BestFirst([start], SortByF(GetNeighbors(start, [], [], grid, obstacles)))
  {
    var nbs := GetNeighbors(start, [], [], grid, obstacles);
    forall n | n in SortByF(nbs)
      ensures F(start) <= F(n)
    {
      assert n in multiset(nbs);
      var j :| 0 <= j < |nbs| && nbs[j] == n;
      ChildEstimate(n, start);
    }
  }

  /** Closing the first open node keeps every closed node expanded. */
  lemma PopExpanded(closeList: seq<AStarNode>, openList: seq<AStarNode>, grid: Grid, obstacles: seq<CellRect>)
    requires ExpandedUpTo(closeList, openList, |closeList|, grid, obstacles) && |openList| > 0
    ensures ExpandedUpTo(closeList + [openList[0]], openList[1..], |closeList|, grid, obstacles)
  {
    var close', open' := closeList + [openList[0]], openList[1..];
    assert openList == [openList[0]] + open';
    forall c | Listed(closeList, c) || Listed(openList, c)
      ensures Listed(close', c) || Listed(open', c)
    {
      if Listed(closeList, c) {
        var n :| n in closeList && IsAt(n, c);
        assert n in close';
      } else {
        var n :| n in openList && IsAt(n, c);
        assert n in close' || n in open';
      }
    }
    forall k | 0 <= k < |closeList|
      ensures Expanded(close'[k], close', open', grid, obstacles)
    {
      assert close'[k] == closeList[k];
      assert Expanded(closeList[k], closeList, openList, grid, obstacles);
    }
  }

  /** Opening the neighbours of the last closed node expands it. */
  lemma OpenExpanded(closeList: seq<AStarNode>, openList: seq<AStarNode>, cell: AStarNode, nbs: seq<AStarNode>,
                     grid: Grid, obstacles: seq<CellRect>)
    requires |closeList| > 0 && cell == closeList[|closeList| - 1]
    requires ExpandedUpTo(closeList, openList, |closeList| - 1, grid, obstacles)
    requires nbs == GetNeighbors(cell, closeList, openList, grid, obstacles)
    ensures ExpandedUpTo(closeList, SortByF(openList + nbs), |closeList|, grid, obstacles)
  {
    var open' := SortByF(openList + nbs);
    forall c | Listed(openList, c) || Listed(nbs, c)
      ensures Listed(open', c)
    {
      ListedSorted(openList + nbs, c);
      var n :| (n in openList || n in nbs) && IsAt(n, c);
      assert n in openList + nbs;
    }
    forall k | 0 <= k < |closeList|
      ensures Expanded(closeList[k], closeList, open', grid, obstacles)
    {
      if k < |closeList| - 1 {
        assert Expanded(closeList[k], closeList, openList, grid, obstacles);
      }
    }
  }

  /** Closing the first open node of a sorted open list keeps the search
      best-first. */
  lemma PopBestFirst(closeList: seq<AStarNode>, openList: seq<AStarNode>)
    requires BestFirst(closeList, openList) && SortedByF(openList) && |openList| > 0
    ensures BestFirst(closeList + [openList[0]], openList[1..])
  {
    var x := openList[0];
    assert x in openList;
    AppendSorted(closeList, x);
    forall n | n in openList[1..]
      ensures F(x) <= F(n)
    {
      var j :| 0 <= j < |openList[1..]| && openList[1..][j] == n;
      assert openList[j + 1] == n;
    }
  }

  /** Opening the neighbours of the last closed node keeps the search
      best-first. */
  lemma OpenBestFirst(closeList: seq<AStarNode>, openList: seq<AStarNode>, cell: AStarNode, nbs: seq<AStarNode>)
    requires BestFirst(closeList, openList) && cell == closeList[|closeList| - 1]
    requires forall j :: 0 <= j < |nbs| ==> ChildOf(nbs[j], cell)
    ensures BestFirst(closeList, SortByF(openList + nbs))
  {
    forall n | n in SortByF(openList + nbs)
      ensures F(cell) <= F(n)
    {
      assert n in multiset(openList + nbs);
      if n !in openList {
        var j :| 0 <= j < |nbs| && nbs[j] == n;
        ChildEstimate(n, cell);
      }
    }
  }
}
