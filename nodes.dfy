/** AStarNode: a grid cell with the bookkeeping of one search, namely the
    node it was expanded from, the goal it measures its heuristic against, and
    its cost from the start. A node is a value; its `parent` is a copy of the
    parent node, which never changes once a child links to it. */
module Nodes {
  import opened Geometry

  datatype Option<T> = None | Some(value: T)

  /** The goal a node measures its heuristic against: the node itself (a node
      constructed without a goal), or a fixed cell. */
  datatype End = Itself | At(cell: Cell)

  /** `g` is the cost from the start (the source's `_g`). */
  datatype AStarNode = AStarNode(x: int, y: int, parent: Option<AStarNode>, end: End, g: int)

  function Pos(n: AStarNode): Cell
  {
    Cell(n.x, n.y)
  }

  /** The cell a node's heuristic is measured to. */
  function EndCell(n: AStarNode): Cell
  {
    match n.end
    case Itself => Pos(n)
    case At(c) => c
  }

  /** The constructor: a missing parent stays absent, a missing goal makes
      the node its own goal, and the cost starts at 0. */
  function NewNode(x: int, y: int, parent: Option<AStarNode>, end: Option<Cell>): (n: AStarNode)
    ensures Pos(n) == Cell(x, y) && n.parent == parent && n.g == 0
    ensures EndCell(n) == if end.Some? then end.value else Cell(x, y)
  {
    AStarNode(x, y, parent, if end.Some? then At(end.value) else Itself, 0)
  }

  function Dist(a: int, b: int): nat
  {
    if a < b then b - a else a - b
  }

  /** getManhattanDistance. */
  function Manhattan(source: Cell, target: Cell): (d: nat)
    ensures d == 0 <==> source == target
  {
    Dist(source.x, target.x) + Dist(source.y, target.y)
  }

  lemma ManhattanSymmetric(a: Cell, b: Cell)
    ensures Manhattan(a, b) == Manhattan(b, a)
  {
  }

  /** The Manhattan distance obeys the triangle inequality. */
  lemma ManhattanTriangle(a: Cell, b: Cell, c: Cell)
    ensures Manhattan(a, c) <= Manhattan(a, b) + Manhattan(b, c)
  {
  }

  /** Two cells that share an edge of the grid. */
  predicate Adjacent(a: Cell, b: Cell)
  {
    Manhattan(a, b) == 1
  }

  /** The `h` getter: 0 for a node that is its own goal, otherwise the
      Manhattan distance to the goal. Either way it is the distance to
      EndCell. */
  function H(n: AStarNode): (h: nat)
    ensures h == Manhattan(Pos(n), EndCell(n))
    ensures Pos(n) == EndCell(n) <==> h == 0
  {
    if n.end.Itself? then 0 else Manhattan(Pos(n), n.end.cell)
  }

  /** The `f` getter: the cost so far plus the estimate of the rest, so at
      least the cost so far, and equal to it exactly at the goal. */
  function F(n: AStarNode): (f: int)
    ensures f >= n.g
    ensures f == n.g <==> Pos(n) == EndCell(n)
  {
    H(n) + n.g
  }

  /** The `g` setter: a null value is stored as 0. The node's cell, parent
      and goal are untouched, so `f` moves with `g` alone. */
  function SetG(n: AStarNode, val: Option<int>): (r: AStarNode)
    ensures Pos(r) == Pos(n) && r.parent == n.parent && r.end == n.end
    ensures r.g == if val.Some? then val.value else 0
    ensures F(r) == F(n) - n.g + r.g
  {
    n.(g := if val.Some? then val.value else 0)
  }

  /** isEqualTo: equality of cells only; parent, goal and cost are ignored. */
  function IsEqualTo(a: AStarNode, o: AStarNode): (same: bool)
    ensures same <==> IsAt(a, Pos(o))
  {
    a.x == o.x && a.y == o.y
  }

  /** The position, in getNeighbors' order (up, right, down, left), of a
      cell next to `from`. */
  function Direction(from: Cell, to: Cell): int
  {
    if to == Cell(from.x, from.y - 1) then 0
    else if to == Cell(from.x + 1, from.y) then 1
    else if to == Cell(from.x, from.y + 1) then 2
    else 3
  }

  /** The node is at the cell. */
  predicate IsAt(n: AStarNode, c: Cell)
  {
    Pos(n) == c
  }

  /** getNeighbors of a node: up, right, down, left, each a fresh node whose
      parent is this node and whose goal is this node's goal (this node
      itself, by its cell, when it is its own goal). */
  function Neighbors(n: AStarNode): (nbs: seq<AStarNode>)
    ensures |nbs| == 4
    ensures Pos(nbs[0]) == Cell(n.x, n.y - 1) && Pos(nbs[1]) == Cell(n.x + 1, n.y)
    ensures Pos(nbs[2]) == Cell(n.x, n.y + 1) && Pos(nbs[3]) == Cell(n.x - 1, n.y)
    ensures forall i :: 0 <= i < 4 ==>
      nbs[i].parent == Some(n) && EndCell(nbs[i]) == EndCell(n) && nbs[i].g == 0 &&
      Adjacent(Pos(n), Pos(nbs[i])) && Direction(Pos(n), Pos(nbs[i])) == i
  {
    var end := Some(EndCell(n));
    [ NewNode(n.x, n.y - 1, Some(n), end),
      NewNode(n.x + 1, n.y, Some(n), end),
      NewNode(n.x, n.y + 1, Some(n), end),
      NewNode(n.x - 1, n.y, Some(n), end) ]
  }

  /** The four neighbours are exactly the cells adjacent to the node, each
      once. */
  lemma NeighborsAreTheAdjacentCells(n: AStarNode)
    ensures forall c :: Adjacent(Pos(n), c) <==> exists i :: 0 <= i < 4 && Pos(Neighbors(n)[i]) == c
    ensures forall i, j :: 0 <= i < j < 4 ==> Pos(Neighbors(n)[i]) != Pos(Neighbors(n)[j])
  {
    var nbs := Neighbors(n);
    forall c | Adjacent(Pos(n), c)
      ensures exists i :: 0 <= i < 4 && Pos(nbs[i]) == c
    {
      if c.x == n.x && c.y == n.y - 1 { assert Pos(nbs[0]) == c; }
      else if c.x == n.x + 1 { assert Pos(nbs[1]) == c; }
      else if c.y == n.y + 1 { assert Pos(nbs[2]) == c; }
      else { assert Pos(nbs[3]) == c; }
    }
  }

  /** One step to a neighbour changes the heuristic by exactly one, so `h`
      is consistent for unit step costs. */
  lemma NeighborHeuristicStep(n: AStarNode, i: int)
    requires 0 <= i < 4
    ensures H(Neighbors(n)[i]) == H(n) + 1 || H(Neighbors(n)[i]) + 1 == H(n)
  {
  }

  /** A neighbour costed one more than its parent (as the manager's
      getNeighbors does) has an `f` equal to its parent's or two more: the
      estimate never decreases along a path. */
  lemma ChildEstimateGrows(n: AStarNode, i: int)
    requires 0 <= i < 4
    ensures var c := SetG(Neighbors(n)[i], Some(n.g + 1));
      F(c) == F(n) || F(c) == F(n) + 2
  {
    NeighborHeuristicStep(n, i);
  }

  /** A walk: consecutive cells adjacent. */
  ghost predicate IsWalk(w: seq<Cell>)
  {
    forall k :: 0 < k < |w| ==> Adjacent(w[k - 1], w[k])
  }

  /** Admissibility: no walk from a cell to another takes fewer steps than
      their Manhattan distance. */
  lemma {:induction false} ManhattanBoundsWalks(w: seq<Cell>)
    requires |w| > 0 && IsWalk(w)
    ensures Manhattan(w[0], w[|w| - 1]) <= |w| - 1
  {
    if |w| > 1 {
      var v := w[..|w| - 1];
      assert IsWalk(v);
      ManhattanBoundsWalks(v);
      ManhattanTriangle(w[0], w[|w| - 2], w[|w| - 1]);
    }
  }

  /** The heuristic of a node never exceeds the number of steps of any walk
      from its cell to its goal. */
  lemma HeuristicAdmissible(n: AStarNode, w: seq<Cell>)
    requires |w| > 0 && IsWalk(w) && w[0] == Pos(n) && w[|w| - 1] == EndCell(n)
    ensures H(n) <= |w| - 1
  {
    ManhattanBoundsWalks(w);
  }
}
