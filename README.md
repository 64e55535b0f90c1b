# A* connector router

This project models the routing core of a small diagram-connector router. Given two shapes, a side of
each to leave from, and a set of obstacle shapes, the router draws an orthogonal polyline between the
two shapes.

It does so in four stages:

1. It places an *anchor* at the middle of each chosen side, plus a *search anchor* pushed
   `anchorOffset` outside the shape.
2. It lays a non-uniform grid over the map. The grid's origin is the source search anchor, and its
   cell sizes are chosen so that the target search anchor lands exactly on a grid line.
3. It converts the padded shapes into cell rectangles that block their interior cells.
4. It runs a bounded A* search over the cells (`AStarMgr.findPath`) and walks the parent links of the
   closed list back into a polyline (`getPath`).

The model has five modules:

- `Geometry`: points, shapes, cells and grids. JavaScript numbers are exact reals here, and
  `Math.floor`, `Math.ceil`, `Math.round` and `Math.abs` are written out as functions. Covers
  `getAnchor`, `getGridDimension`, `getGrid`, `convertToGridCell`, `convertObstaclesToGridCell` and
  `rectContainsPoint`.
- `Nodes`: `AStarNode` as a value datatype. Covers its constructor, the `f`/`g`/`h` accessors,
  `getManhattanDistance`, `getNeighbors` and `isEqualTo`.
- `Ordering`: `sortNeighbors`, the ordering of the open list by ascending `f`.
- `Search`: the manager's neighbour filter (`getNeighbors`), parent chains, and `getPath`, an
  imperative method with getPath's two nested loops.
- `Manager`: the `AStarMgr` class. Its constructor fixes the anchors, the grid and the obstacles. Its
  method `FindPath` runs the search loop over the object's two mutable fields, `openList` and
  `closeList`.

The central result is `FindPath`'s contract, the class predicate `Promised`. The search loop is
mirrored by the reference function `Run`: one iteration per recursive call, with the same three ways
of stopping. `Explored(limit)` is the run that starts from the start node and its neighbours. The
loop's invariant is that `Run` from the current lists, counter and limit gives `Explored(limit)`. The
facts below are proved about `Run` by induction (`RunFinishes`), with the invariant `SearchState`
carried through every iteration. The contract says:

- The two fields are exactly the lists of `Explored(limit)`, with the closed list reversed.

- The returned polyline is the route of parent links from the start cell to the last closed node.
- That route is framed by the two surface anchors.
- Every step of the route goes to an adjacent cell that is inside the grid's region and outside
  every obstacle.
- The route has exactly one cell per unit of cost.
- No cell appears twice in the two lists.
- The search stops at the target cell, or with an empty open list, or after `limit + 1` iterations.
- The search is best-first. The nodes were closed in non-decreasing order of `f`, and no open node
  has a smaller `f` than the last closed one.
- Every closed node was expanded: each passable cell next to it is on one of the two lists. The
  only exception is a last closed node at the target cell, since the loop stops before expanding it.

`PathJoinsAnchors` adds one more fact. Because the constructor makes the search anchors land on the
grid, the polyline's second point is the source search anchor. When the target was reached, its
second-to-last point is the target search anchor.

## Model

| member | source | states |
|---|---|---|
| `Geometry.Floor` | src/index.js:240-241 | Math.floor gives the greatest integer at or below its argument |
| `Geometry.Round` | src/index.js:288 | Math.round gives the integer within half of its argument, and a half rounds up |
| `Geometry.Ceil` | src/index.js:256-257 | Math.ceil gives the least integer at or above its argument |
| `Geometry.Abs` | src/index.js:287 | Math.abs gives the non-negative one of its argument and its negation |
| `Geometry.GetAnchor` | src/index.js:208-230 | for each of the four side names, the anchor is the side's midpoint moved `anchorOffset` along the side's outward normal; any other name leaves the shape's top-left corner |
| `Geometry.SearchAnchorIsOffsetSurfaceAnchor` | src/index.js:85-96 | each search anchor is the surface anchor (offset 0) of the same side, translated by `anchorOffset` along the outward normal |
| `Geometry.SurfaceAnchorOnBoundary` | src/index.js:208-230 | a surface anchor of a shape with non-negative extent lies in the shape's closed box and on one of its four sides |
| `Geometry.GetGridDimension` | src/index.js:282-298 | a zero distance keeps the nominal step; the cell size is never zero, and is positive for a positive step |
| `Geometry.GridDimensionSpansDistance` | src/index.js:281-298 | a non-zero distance is covered exactly by round(\|diff\|/step) cells of the chosen size, or by a single cell when that rounds to zero |
| `Geometry.GetGrid` | src/index.js:263-279 | the grid is anchored at the source anchor; its cell sizes are getGridDimension's for the anchor-to-anchor distances, never zero, and put the target anchor a whole number of cells away on each axis; with a positive step the sizes are positive, the region holds every cell whose corner lies on the map, and it reaches past the map on every side, a whole cell past the right and bottom edges |
| `Geometry.RegionCoversMap` | src/index.js:270-277 | with positive cell sizes, the ceiling-based region holds every cell whose corner lies on the map and reaches past the map on every side |
| `Geometry.ConvertToGridCell` | src/index.js:238-243 | on each axis with a positive cell size, the cell's index scaled by the size is at or below the point's offset from the origin, and the next index's is beyond it |
| `Geometry.AxisLandsOnGridLine` | src/index.js:282-298 | on either axis, the anchor-to-anchor distance is a whole number of cells of the size getGridDimension chose |
| `Geometry.AnchorsLandOnGrid` | src/index.js:97-105 | the source anchor's cell is (0, 0), and the target anchor's cell maps back exactly onto the target anchor |
| `Geometry.ConvertObstaclesToGridCell` | src/index.js:246-260 | one cell rectangle per shape, in order; with positive cell sizes, each starts at or before its padded shape's top-left corner and is at least as wide and as high as the padded shape |
| `Geometry.ObstacleCellCovers` | src/index.js:249-257 | with positive cell sizes, an obstacle's cell rectangle starts at or before the padded corner and is at least as wide and as high as the padded shape |
| `Geometry.ObstacleRightEdgeCanFallShort` | src/index.js:249-257 | for a shape at (15, 15) of size 10 on 10-unit cells, the rectangle's right edge stops short of the shape's right edge |
| `Geometry.RectContainsPoint` | src/index.js:301-311 | a rectangle contains a cell exactly when the cell is in its closed box and not on any of its four boundary lines |
| `Geometry.ThinRectBlocksNothing` | src/index.js:301-311 | a rectangle one cell wide or one cell high contains no cell at all |
| `Nodes.NewNode` | src/index.js:10-17 | the node is at (x, y) with the given parent and cost 0; without a goal, its goal is its own cell |
| `Nodes.Manhattan` | src/index.js:42-44 | the distance is zero exactly when the two cells coincide |
| `Nodes.ManhattanSymmetric` | src/index.js:42-44 | the distance is symmetric |
| `Nodes.ManhattanTriangle` | src/index.js:42-44 | the distance obeys the triangle inequality |
| `Nodes.F` | src/index.js:20-22 | f is at least the cost so far, and equals it exactly when the node is at its goal |
| `Nodes.IsEqualTo` | src/index.js:58-60 | two nodes are equal exactly when they are at the same cell, whatever their parents, goals and costs |
| `Nodes.H` | src/index.js:34-39 | h is the Manhattan distance from the node to its goal, and is zero exactly when the node is at its goal |
| `Nodes.SetG` | src/index.js:29-31 | the setter stores the value, or 0 for null; position, parent and goal are unchanged, and f moves by the change in g |
| `Nodes.Neighbors` | src/index.js:48-56 | four nodes, up, right, down and left in that order, each linked to this node, sharing its goal, adjacent to it, and with cost 0 |
| `Nodes.NeighborsAreTheAdjacentCells` | src/index.js:48-56 | the four neighbours are exactly the cells at Manhattan distance 1, each appearing once |
| `Nodes.NeighborHeuristicStep` | src/index.js:34-56 | moving to a neighbour changes h by exactly one |
| `Nodes.ChildEstimateGrows` | src/index.js:20-22 | a neighbour costed one more than its parent has an f equal to the parent's or two more, so f never decreases along a path |
| `Nodes.ManhattanBoundsWalks` | src/index.js:42-44 | no walk of adjacent cells is shorter than the Manhattan distance between its ends |
| `Nodes.HeuristicAdmissible` | src/index.js:33-39 | h never exceeds the number of steps of any walk from the node to its goal |
| `Ordering.SortByF` | src/index.js:203-205 | the result is ordered by ascending f and is a permutation of the input |
| `Ordering.InsertSorted` | src/index.js:203-205 | inserting into a sorted list keeps it sorted |
| `Ordering.SortStable` | src/index.js:203-205 | the sort is stable: for every f value, the nodes with that value keep their relative order |
| `Ordering.SortKeepsSorted` | src/index.js:203-205 | a list that is already ordered by f is returned unchanged |
| `Search.GetNeighbors` | src/index.js:183-201 | the result holds the up/right/down/left neighbours, in that order, that are inside the region, outside every obstacle and on neither list, each linked to the node and costed one more; an adjacent cell is in the result if and only if it passes that filter |
| `Search.SurvivorsComplete` | src/index.js:186-196 | every candidate neighbour that passes the filter is kept |
| `Search.SurvivorsOrdered` | src/index.js:186-196 | the filter keeps its survivors in the up, right, down, left order |
| `Search.DistinctPositions` | src/index.js:189-190 | in a list where no cell is taken twice, any two entries are at different cells |
| `Search.Reverse` | src/index.js:151 | reversal keeps the length and puts each element at the mirrored index |
| `Search.ReversePermutes` | src/index.js:151 | reversing the closed list keeps exactly its nodes |
| `Search.ChainInList` | src/index.js:161-170 | if every parent of a listed node is listed, then every ancestor of a listed node is listed |
| `Search.RouteIsWalk` | src/index.js:158-181 | following parents from a reached node ends at the start node, with one link per unit of cost, and each link steps onto an adjacent passable cell |
| `Search.RouteCellsWalk` | src/index.js:158-181 | the cells of a reached node's route form a walk of adjacent cells |
| `Search.RouteNoShorterThanDistance` | src/index.js:158-181 | a route has at least as many steps as the Manhattan distance between its ends |
| `Search.FindEqual` | src/index.js:162-170 | returns the index of the first node at the given cell, or the list's length exactly when no node is there |
| `Search.GetPath` | src/index.js:158-181 | for a closed list that holds every parent and no cell twice, the polyline is the source point, then the root-to-first-node chain of parents mapped to the plane, then the target point |
| `Manager.AStarMgr.constructor` | src/index.js:69-114 | fixes the surface anchors, the search anchors, the grid, both anchor cells and the padded obstacle rectangles (the source shape, the given obstacles, then the target shape); both lists start empty; the anchors land on the grid |
| `Manager.AStarMgr.FindPath` | src/index.js:116-156 | the fields are the lists of the reference run `Explored(limit)`, the closed one reversed; the path is the route to the last closed node framed by the surface anchors; no cell twice; at most limit + 2 closed nodes (none beyond the start for a negative limit); the three stopping conditions; best-first closing; every closed node but a last one at the target expanded |
| `Manager.AStarMgr.Finish` | src/index.js:150-155 | reversing the lists of the reference run and walking getPath over them gives everything findPath promises |
| `Manager.AStarMgr.PathJoinsAnchors` | src/index.js:150-155 | the polyline's second point is the source search anchor, and when the search stopped at the target cell its second-to-last point is the target search anchor |
| `Manager.SearchOutcome` | src/index.js:116-155 | the run from the start node stops for one of its three reasons, with at most limit + 2 closed nodes; its reversed closed list, open list and path have the promised outcome; it closed its nodes best-first and expanded every one but a last one at the target |
| `Manager.RunFinishes` | src/index.js:136-149 | from any state the loop keeps, the rest of the run ends in a state that meets every promise |
| `Manager.Stopped` | src/index.js:136 | a loop that stops on an empty open list or an exhausted count leaves a finished state |
| `Manager.Found` | src/index.js:138-143 | closing a node at the target cell leaves a finished state |
| `Manager.Continues` | src/index.js:137-148 | an iteration that closes a node elsewhere and opens its neighbours keeps the loop's state, with the count one higher |
| `Manager.FinishedReversed` | src/index.js:150-151 | the stopping conditions still hold once the closed list is reversed, the last closed node coming first |
| `Manager.StartExpanded` | src/index.js:130-134 | before the loop, every passable cell next to the start node is on the closed or the open list |
| `Manager.StartBestFirst` | src/index.js:130-134 | before the loop, no open node has a smaller f than the start node |
| `Manager.PopExpanded` | src/index.js:138-139 | moving the first open node to the closed list keeps every earlier closed node expanded |
| `Manager.OpenExpanded` | src/index.js:144-148 | opening the admissible neighbours of the last closed node and re-sorting expands that node |
| `Manager.PopBestFirst` | src/index.js:138-139 | closing the first node of a sorted open list keeps the closed list ordered by f, and keeps every open f at least the last closed one |
| `Manager.OpenBestFirst` | src/index.js:144-148 | opening the children of the last closed node keeps every open f at least that node's, because a child's f is its parent's or two more |
| `Manager.ListedSorted` | src/index.js:203-205 | sorting the open list keeps exactly the cells it holds |
| `Manager.StartState` | src/index.js:117-134 | before the loop, the start node is closed and its admissible neighbours are open and sorted, which establishes the loop invariant |
| `Manager.PopKeeps` | src/index.js:138-139 | moving the first open node to the closed list keeps the loop invariant |
| `Manager.OpenKeeps` | src/index.js:144-148 | opening a closed node's admissible neighbours and re-sorting keeps the loop invariant |
| `Manager.ReverseKeeps` | src/index.js:150-151 | reversing the closed list keeps the invariant, and leaves a list getPath can walk |
| `Manager.Conclude` | src/index.js:150-155 | after the loop, the reversed closed list and the path getPath builds from it have the outcome FindPath promises |
| `Manager.AvoidsMiddleReversed` | src/index.js:136-143 | the target cell can be at most at the ends of the closed list, before and after reversal |

## Left out

- The drawing layer (the Konva stage, the shapes, the drag handlers and the rendering at
  src/index.js:1-7 and 314 onwards) is not part of this model. Only the router class and the node
  class are modelled.
- Floating point is not modelled. Numbers are exact reals, so the cell sizes divide the
  anchor-to-anchor distance exactly. In IEEE doubles they would only approximately do so.
- `getEuclideanDistance`, the node's `type` field and `NODE_TYPE` are left out, because nothing in
  the router reads them.
- Nodes are values, not shared objects. A child holds a copy of its parent, and `isEqualTo` compares
  positions only. The source only reads a node's position, cost and parent after linking it, and
  never mutates a parent, so copying changes no result. `cloneDeep` before `getPath` is therefore the
  identity.
- The manager's `obstacles` field and its grid are passed as parameters to the module-level
  `GetNeighbors`, `ConvertToGridCell` and `ConvertObstaclesToGridCell`. `convertToGridCell` reads
  `this.source`, which the model passes as an argument.
- Anchor side names other than the four sides are modelled as the source treats them: the anchor
  stays at the shape's corner. No property beyond that is stated for them.
- Geometry.GetGridDimension: requires a non-zero step, for the reason given for the constructor below.
- Geometry.GetGrid: requires a non-zero step, for the reason given for the constructor below.
- Geometry.ConvertToGridCell: requires non-zero cell sizes, which a non-zero step guarantees; see the
  constructor below.
- Geometry.ConvertObstaclesToGridCell: requires non-zero cell sizes, as `ConvertToGridCell` does. Its
  coverage clause has the limits stated for `ObstacleCellCovers` below.
- Manager.AStarMgr.constructor: requires a non-zero step. With a step of 0, `getGridDimension` gives
  an axis with zero anchor-to-anchor distance cell size 0 and any other axis cell size NaN. Both anchor
  cells are then NaN, no neighbour passes the region test, and the path is the source surface anchor,
  the point (NaN, NaN) and the target surface anchor. The real-number model cannot represent NaN.
- Search.GetPath: requires a closed list that holds every parent, with each cell once. Without a
  listed parent, the source's outer loop never ends. `FindPath` always establishes this
  precondition, as `Manager.Conclude` shows.
- Ordering.SortByF: the engine's stable `Array.prototype.sort` is modelled by a stable insertion
  sort. Sortedness, permutation and stability are proved, and together they determine a stable sort's
  result uniquely; that uniqueness is not stated as a lemma.
- Manager.AStarMgr.FindPath: it does not claim that the route is a shortest one. The open list is never
  re-costed when a shorter link is found, so the source does not promise optimality.
- Geometry.ObstacleCellCovers: it states coverage of the padded shape's width and height, not of its
  right and bottom edges. The corner is rounded down and the size rounded up independently, so the
  rectangle can stop short of the far edge by less than one cell (`ObstacleRightEdgeCanFallShort`).
