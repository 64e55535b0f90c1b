/** Real-plane geometry of the connector router: anchors on shapes, the
    non-uniform search grid, conversion of points and shapes to grid cells,
    and the open-interval obstacle test. JavaScript numbers are modelled as
    exact reals; Math.floor, Math.ceil and Math.round as integer functions. */
module Geometry {

  /** A point of the real plane. */
  datatype Point = Point(x: real, y: real)

  /** A shape's bounding box: its top-left corner, width and height. */
  datatype Shape = Shape(x: real, y: real, width: real, height: real)

  /** An integer grid cell. */
  datatype Cell = Cell(x: int, y: int)

  /** An obstacle rectangle in cell units. */
  datatype CellRect = CellRect(x: int, y: int, width: int, height: int)

  /** The traversable region, in cell units, inclusive on all four sides. */
  datatype Edge = Edge(top: int, right: int, left: int, bottom: int)

  /** The grid: its origin (the source search anchor), cell width `x`,
      cell height `y`, and the traversable region. */
  datatype Grid = Grid(source: Point, x: real, y: real, edge: Edge)

  /** Math.floor. */
  function Floor(r: real): (k: int)
    ensures k as real <= r < k as real + 1.0
  {
    r.Floor
  }

  /** Math.ceil. */
  function Ceil(r: real): (k: int)
    ensures r <= k as real < r + 1.0
  {
    -((-r).Floor)
  }

  /** Math.round: the nearest integer, halves rounded towards +infinity. */
  function Round(r: real): (k: int)
    ensures r - 0.5 < k as real <= r + 0.5
  {
    (r + 0.5).Floor
  }

  /** Math.abs. */
  function Abs(r: real): (a: real)
    ensures a >= 0.0 && (a == r || a == -r)
  {
    if r < 0.0 then -r else r
  }

  // ---------------------------------------------------------------------------
  // Anchors

  /** The four side names the router recognises. */
  predicate IsSide(side: string)
  {
    side == "top" || side == "right" || side == "bottom" || side == "left"
  }

  /** The outward unit normal of a side; the zero vector for any other string. */
  function Normal(side: string): Point
  {
    if side == "top" then Point(0.0, -1.0)
    else if side == "right" then Point(1.0, 0.0)
    else if side == "bottom" then Point(0.0, 1.0)
    else if side == "left" then Point(-1.0, 0.0)
    else Point(0.0, 0.0)
  }

  /** The two corners that bound a side of a shape. */
  function SideCorners(shape: Shape, side: string): (Point, Point)
    requires IsSide(side)
  {
    var left, right := shape.x, shape.x + shape.width;
    var top, bottom := shape.y, shape.y + shape.height;
    if side == "top" then (Point(left, top), Point(right, top))
    else if side == "right" then (Point(right, top), Point(right, bottom))
    else if side == "bottom" then (Point(left, bottom), Point(right, bottom))
    else (Point(left, top), Point(left, bottom))
  }

  function Midpoint(a: Point, b: Point): Point
  {
    Point((a.x + b.x) / 2.0, (a.y + b.y) / 2.0)
  }

  /** `p` moved by `d` along the vector `v`. */
  function Translate(p: Point, v: Point, d: real): Point
  {
    Point(p.x + d * v.x, p.y + d * v.y)
  }

  /** getAnchor: the midpoint of the named side pushed `anchorOffset` outwards;
      any other side name leaves the anchor at the shape's corner (x, y). */
  function GetAnchor(shape: Shape, anchorDirection: string, anchorOffset: real): (anchor: Point)
    ensures IsSide(anchorDirection) ==>
      var (a, b) := SideCorners(shape, anchorDirection);
      anchor == Translate(Midpoint(a, b), Normal(anchorDirection), anchorOffset)
    ensures !IsSide(anchorDirection) ==> anchor == Point(shape.x, shape.y)
  {
    var x, y := shape.x, shape.y;
    if anchorDirection == "top" then Point(x + shape.width / 2.0, y - anchorOffset)
    else if anchorDirection == "right" then Point(x + shape.width + anchorOffset, y + shape.height / 2.0)
    else if anchorDirection == "bottom" then Point(x + shape.width / 2.0, y + shape.height + anchorOffset)
    else if anchorDirection == "left" then Point(x - anchorOffset, y + shape.height / 2.0)
    else Point(x, y)
  }

  /** A search anchor is the surface anchor moved `anchorOffset` along the
      side's outward normal. */
  lemma SearchAnchorIsOffsetSurfaceAnchor(shape: Shape, side: string, anchorOffset: real)
    ensures GetAnchor(shape, side, anchorOffset)
         == Translate(GetAnchor(shape, side, 0.0), Normal(side), anchorOffset)
  {
  }

  /** The closed box of a shape, boundary included. */
  predicate InClosedBox(shape: Shape, p: Point)
  {
    shape.x <= p.x <= shape.x + shape.width && shape.y <= p.y <= shape.y + shape.height
  }

  /** A surface anchor (offset 0) of a shape with non-negative extent lies on
      the shape's boundary. */
  lemma SurfaceAnchorOnBoundary(shape: Shape, side: string)
    requires shape.width >= 0.0 && shape.height >= 0.0
    ensures InClosedBox(shape, GetAnchor(shape, side, 0.0))
    ensures var p := GetAnchor(shape, side, 0.0);
      p.x == shape.x || p.x == shape.x + shape.width || p.y == shape.y || p.y == shape.y + shape.height
  {
  }

  // ---------------------------------------------------------------------------
  // The grid

  /** The number of cells that span a non-zero anchor-to-anchor distance:
      round(|diff| / step), or a single cell when that rounds to zero. */
  function Spans(diff: real, step: real): int
    requires step != 0.0
  {
    var count := Round(Abs(diff) / step);
    if count == 0 then 1 else count
  }

  /** getGridDimension: the cell size on one axis. A zero distance keeps the
      nominal step; the size is never zero, and positive for a positive step.
      GridDimensionSpansDistance states how the size divides the distance. */
  function GetGridDimension(diff: real, step: real): (size: real)
    requires step != 0.0
    ensures diff == 0.0 ==> size == step
    ensures size != 0.0
    ensures step > 0.0 ==> size > 0.0
  {
    if diff == 0.0 then step
    else
      var abs := Abs(diff);
      var count := Round(abs / step);
      if count == 0 then abs
      else
        var roundedDiff := count as real * step;
        var remainder := abs - roundedDiff;
        var correction := remainder / count as real;
        assert count as real * correction == remainder;
        if step > 0.0 then
          assert abs / step >= 0.0;
          PositiveFactor(count as real, step + correction, abs);
          step + correction
        else
          step + correction
  }

  /** A non-zero distance is covered exactly by `Spans(diff, step)` cells of
      the chosen size; a distance under half a step is a single cell. */
  lemma GridDimensionSpansDistance(diff: real, step: real)
    requires step != 0.0 && diff != 0.0
    ensures Spans(diff, step) as real * GetGridDimension(diff, step) == Abs(diff)
    ensures Round(Abs(diff) / step) == 0 ==> GetGridDimension(diff, step) == Abs(diff)
  {
    var abs := Abs(diff);
    var count := Round(abs / step);
    if count != 0 {
      var correction := (abs - count as real * step) / count as real;
      assert count as real * correction == abs - count as real * step;
    }
  }

  /** getGrid: a grid with its origin at the source anchor, whose cell sizes
      (chosen by getGridDimension) put the target anchor a whole number of
      cells away on each axis. With a positive step its region holds every
      cell whose corner lies on the map [0, mapWidth] x [0, mapHeight], and
      reaches past the map on every side. */
  function GetGrid(source: Point, target: Point, mapWidth: real, mapHeight: real, step: real): (grid: Grid)
    requires step != 0.0
    ensures grid.source == source
    ensures grid.x == GetGridDimension(target.x - source.x, step)
    ensures grid.y == GetGridDimension(target.y - source.y, step)
    ensures grid.x != 0.0 && grid.y != 0.0
    ensures WholeCellsApart(target.x - source.x, grid.x) && WholeCellsApart(target.y - source.y, grid.y)
    ensures step > 0.0 ==> grid.x > 0.0 && grid.y > 0.0
    ensures step > 0.0 ==> CoversMap(grid, mapWidth, mapHeight)
  {
    var dx := GetGridDimension(target.x - source.x, step);
    var dy := GetGridDimension(target.y - source.y, step);
    var grid := Grid(source, dx, dy, GridEdge(source, dx, dy, mapWidth, mapHeight));
    AxisLandsOnGridLine(target.x - source.x, step, grid.x);
    AxisLandsOnGridLine(target.y - source.y, step, grid.y);
    if step > 0.0 then
      RegionCoversMap(grid, mapWidth, mapHeight);
      grid
    else
      grid
  }

  /** The `edge` part of getGrid: the map [0, mapWidth] x [0, mapHeight] in
      cell units from `source`, widened by one cell on every side. */
  function GridEdge(source: Point, dx: real, dy: real, mapWidth: real, mapHeight: real): Edge
    requires dx != 0.0 && dy != 0.0
  {
    Edge(top := Ceil(-source.y / dy) - 1,
         right := Ceil((mapWidth - source.x) / dx) + 1,
         left := Ceil(-source.x / dx) - 1,
         bottom := Ceil((mapHeight - source.y) / dy) + 1)
  }

  /** convertToGridCell: the cell, counted from `source`, that holds `point`.
      With positive cell sizes it is the cell whose half-open box [k, k + 1)
      holds the point. */
  function ConvertToGridCell(point: Point, source: Point, grid: Grid): (c: Cell)
    requires grid.x != 0.0 && grid.y != 0.0
    ensures grid.x > 0.0 ==> c.x as real * grid.x <= point.x - source.x < (c.x + 1) as real * grid.x
    ensures grid.y > 0.0 ==> c.y as real * grid.y <= point.y - source.y < (c.y + 1) as real * grid.y
  {
    var c := Cell(Floor((point.x - source.x) / grid.x), Floor((point.y - source.y) / grid.y));
    FloorScaled(c.x, point.x - source.x, grid.x);
    FloorScaled(c.y, point.y - source.y, grid.y);
    c
  }

  /** A rounded-down quotient scaled back by a positive divisor brackets the dividend. */
  lemma FloorScaled(k: int, v: real, d: real)
    requires d != 0.0 && k == Floor(v / d)
    ensures d > 0.0 ==> k as real * d <= v < (k + 1) as real * d
  {
    var q := v / d;
    assert q * d == v;
    if d > 0.0 {
      var lo, hi := q - k as real, k as real + 1.0 - q;
      assert lo >= 0.0 && hi > 0.0;
      assert lo * d >= 0.0;
      assert hi * d > 0.0;
      assert lo * d == v - k as real * d;
      assert hi * d == (k + 1) as real * d - v;
    }
  }

  /** A positive factor of a positive product has a positive cofactor. */
  lemma PositiveFactor(c: real, s: real, p: real)
    requires c > 0.0 && c * s == p && p > 0.0
    ensures s > 0.0
  {
  }

  /** The real position of a cell's corner, as getPath maps cells back. */
  function CellToPoint(c: Cell, grid: Grid): Point
  {
    Point(c.x as real * grid.x + grid.source.x, c.y as real * grid.y + grid.source.y)
  }

  /** A distance that is a whole number of cells of the given size. */
  predicate WholeCellsApart(diff: real, size: real)
    requires size != 0.0
  {
    Floor(diff / size) as real * size == diff
  }

  /** On one axis, the anchor-to-anchor distance is a whole number of cells. */
  lemma AxisLandsOnGridLine(diff: real, step: real, size: real)
    requires step != 0.0 && size == GetGridDimension(diff, step)
    ensures WholeCellsApart(diff, size)
  {
    if diff != 0.0 {
      GridDimensionSpansDistance(diff, step);
      WholeCells(diff, size, Spans(diff, step));
    } else {
      assert diff / size == 0.0;
    }
  }

  /** A distance that n cells cover exactly is a whole number of cells. */
  lemma WholeCells(diff: real, size: real, n: int)
    requires n != 0 && n as real * size == Abs(diff) && size != 0.0
    ensures Floor(diff / size) as real * size == diff
  {
    var k := if diff >= 0.0 then n else -n;
    assert k as real * size == diff;
    assert diff / size == k as real;
    assert Floor(diff / size) == k;
  }

  /** The source search anchor is cell (0, 0) and the target search anchor is
      a cell whose corner maps back to the target exactly: the cell sizes
      getGrid chooses make the target land on the grid. */
  lemma AnchorsLandOnGrid(source: Point, target: Point, step: real, grid: Grid)
    requires step != 0.0 && grid.source == source
    requires grid.x == GetGridDimension(target.x - source.x, step)
    requires grid.y == GetGridDimension(target.y - source.y, step)
    ensures ConvertToGridCell(source, source, grid) == Cell(0, 0)
    ensures CellToPoint(ConvertToGridCell(target, source, grid), grid) == target
  {
    XLands(source, target, step, grid);
    YLands(source, target, step, grid);
  }

  /** The x axis of AnchorsLandOnGrid. */
  lemma XLands(source: Point, target: Point, step: real, grid: Grid)
    requires step != 0.0 && grid.source == source && grid.y != 0.0
    requires grid.x == GetGridDimension(target.x - source.x, step)
    ensures ConvertToGridCell(source, source, grid).x == 0
    ensures CellToPoint(ConvertToGridCell(target, source, grid), grid).x == target.x
  {
    AxisLandsOnGridLine(target.x - source.x, step, grid.x);
    assert (source.x - source.x) / grid.x == 0.0;
  }

  /** The y axis of AnchorsLandOnGrid. */
  lemma YLands(source: Point, target: Point, step: real, grid: Grid)
    requires step != 0.0 && grid.source == source && grid.x != 0.0
    requires grid.y == GetGridDimension(target.y - source.y, step)
    ensures ConvertToGridCell(source, source, grid).y == 0
    ensures CellToPoint(ConvertToGridCell(target, source, grid), grid).y == target.y
  {
    AxisLandsOnGridLine(target.y - source.y, step, grid.y);
    assert (source.y - source.y) / grid.y == 0.0;
  }

  /** A cell inside the region of a grid. */
  predicate InEdge(edge: Edge, c: Cell)
  {
    edge.left <= c.x <= edge.right && edge.top <= c.y <= edge.bottom
  }

  /** A point on the map [0, mapWidth] x [0, mapHeight]. */
  predicate OnMap(p: Point, mapWidth: real, mapHeight: real)
  {
    0.0 <= p.x <= mapWidth && 0.0 <= p.y <= mapHeight
  }

  /** The grid's region holds every cell whose corner lies on the map, and
      its ends, mapped back to the plane, lie beyond the map's on every side,
      a whole cell past the right and bottom ends. */
  ghost predicate CoversMap(grid: Grid, mapWidth: real, mapHeight: real)
  {
    (forall c :: OnMap(CellToPoint(c, grid), mapWidth, mapHeight) ==> InEdge(grid.edge, c)) &&
    grid.edge.left as real * grid.x + grid.source.x < 0.0 &&
    grid.edge.top as real * grid.y + grid.source.y < 0.0 &&
    grid.edge.right as real * grid.x + grid.source.x >= mapWidth + grid.x &&
    grid.edge.bottom as real * grid.y + grid.source.y >= mapHeight + grid.y
  }

  /** With positive cell sizes, the region getGrid's formulas give covers
      the map. */
  lemma RegionCoversMap(grid: Grid, mapWidth: real, mapHeight: real)
    requires grid.x > 0.0 && grid.y > 0.0
    requires grid.edge == GridEdge(grid.source, grid.x, grid.y, mapWidth, mapHeight)
    ensures CoversMap(grid, mapWidth, mapHeight)
  {
    AxisReach(grid.source.x, mapWidth, grid.x, grid.edge.left, grid.edge.right);
    AxisReach(grid.source.y, mapHeight, grid.y, grid.edge.top, grid.edge.bottom);
    forall c | OnMap(CellToPoint(c, grid), mapWidth, mapHeight)
      ensures InEdge(grid.edge, c)
    {
      MapCellInRegion(grid, mapWidth, mapHeight, c);
    }
  }

  /** A cell whose corner lies on the map is inside the region. */
  lemma MapCellInRegion(grid: Grid, mapWidth: real, mapHeight: real, c: Cell)
    requires grid.x > 0.0 && grid.y > 0.0
    requires grid.edge == GridEdge(grid.source, grid.x, grid.y, mapWidth, mapHeight)
    requires OnMap(CellToPoint(c, grid), mapWidth, mapHeight)
    ensures InEdge(grid.edge, c)
  {
    AxisCovered(c.x, grid.source.x, mapWidth, grid.x, grid.edge.left, grid.edge.right);
    AxisCovered(c.y, grid.source.y, mapHeight, grid.y, grid.edge.top, grid.edge.bottom);
  }

  /** One axis of the region: its ends lie beyond the map's, by a whole
      cell past the far end. */
  lemma AxisReach(origin: real, extent: real, size: real, low: int, high: int)
    requires size > 0.0
    requires low == Ceil(-origin / size) - 1 && high == Ceil((extent - origin) / size) + 1
    ensures low as real * size + origin < 0.0
    ensures high as real * size + origin >= extent + size
  {
    var a, b := -origin / size, (extent - origin) / size;
    assert (low as real) < a && b <= (high - 1) as real;
    DivOrder(low as real, -origin, size);
    DivOrder((high - 1) as real, extent - origin, size);
    assert (high - 1) as real * size == high as real * size - size;
  }

  /** One axis of the region: a cell whose corner lies on the map is strictly
      between the region's ends. */
  lemma AxisCovered(k: int, origin: real, extent: real, size: real, low: int, high: int)
    requires size > 0.0
    requires low == Ceil(-origin / size) - 1 && high == Ceil((extent - origin) / size) + 1
    requires 0.0 <= k as real * size + origin <= extent
    ensures low < k < high
  {
    var a, b := -origin / size, (extent - origin) / size;
    assert (low as real) < a && b <= (high - 1) as real;
    DivOrder(k as real, -origin, size);
    DivOrder(k as real, extent - origin, size);
  }

  /** Comparing with a quotient by a positive size is comparing with the
      dividend after scaling. */
  lemma DivOrder(u: real, num: real, size: real)
    requires size > 0.0
    ensures u <= num / size <==> u * size <= num
    ensures u < num / size <==> u * size < num
    ensures u >= num / size <==> u * size >= num
  {
    Scale(u, num / size, size);
    Scale(num / size, u, size);
    assert (num / size) * size == num;
  }

  /** Scaling by a positive factor keeps the order both ways. */
  lemma Scale(u: real, v: real, size: real)
    requires size > 0.0
    ensures u <= v <==> u * size <= v * size
    ensures u < v <==> u * size < v * size
  {
    if u < v {
      assert (v - u) * size > 0.0;
    } else if u > v {
      assert (u - v) * size > 0.0;
    }
  }

  // ---------------------------------------------------------------------------
  // Obstacles

  /** One shape padded by `padding` on every side, in cell units: the
      corner's cell, and width and height rounded up. */
  function ObstacleCell(shape: Shape, padding: real, source: Point, grid: Grid): CellRect
    requires grid.x != 0.0 && grid.y != 0.0
  {
    var cell := ConvertToGridCell(Point(shape.x - padding, shape.y - padding), source, grid);
    CellRect(cell.x, cell.y,
             Ceil((shape.width + 2.0 * padding) / grid.x),
             Ceil((shape.height + 2.0 * padding) / grid.y))
  }

  /** With positive cell sizes, an obstacle's cell rectangle starts at or
      before the padded shape's top-left corner and is at least as wide and
      as high as the padded shape. */
  lemma ObstacleCellCovers(shape: Shape, padding: real, source: Point, grid: Grid)
    requires grid.x > 0.0 && grid.y > 0.0
    ensures var r := ObstacleCell(shape, padding, source, grid);
      r.x as real * grid.x + source.x <= shape.x - padding &&
      r.y as real * grid.y + source.y <= shape.y - padding &&
      r.width as real * grid.x >= shape.width + 2.0 * padding &&
      r.height as real * grid.y >= shape.height + 2.0 * padding
  {
    CeilScaled(Ceil((shape.width + 2.0 * padding) / grid.x), shape.width + 2.0 * padding, grid.x);
    CeilScaled(Ceil((shape.height + 2.0 * padding) / grid.y), shape.height + 2.0 * padding, grid.y);
  }

  /** A rounded-up quotient scaled back by a positive divisor covers the dividend. */
  lemma CeilScaled(k: int, v: real, d: real)
    requires d != 0.0 && k == Ceil(v / d)
    ensures d > 0.0 ==> k as real * d >= v
  {
    assert (v / d) * d == v;
  }

  /** convertObstaclesToGridCell: every shape converted with the same
      padding, in order. With positive cell sizes, each rectangle starts at
      or before its padded shape's top-left corner and is at least as wide
      and as high as the padded shape. */
  function ConvertObstaclesToGridCell(obstacles: seq<Shape>, padding: real, source: Point, grid: Grid): (cells: seq<CellRect>)
    requires grid.x != 0.0 && grid.y != 0.0
    ensures |cells| == |obstacles|
    ensures forall i :: 0 <= i < |obstacles| ==> cells[i] == ObstacleCell(obstacles[i], padding, source, grid)
    ensures grid.x > 0.0 && grid.y > 0.0 ==> forall i :: 0 <= i < |obstacles| ==>
      cells[i].x as real * grid.x + source.x <= obstacles[i].x - padding &&
      cells[i].y as real * grid.y + source.y <= obstacles[i].y - padding &&
      cells[i].width as real * grid.x >= obstacles[i].width + 2.0 * padding &&
      cells[i].height as real * grid.y >= obstacles[i].height + 2.0 * padding
  {
    var cells := seq(|obstacles|, i requires 0 <= i < |obstacles| => ObstacleCell(obstacles[i], padding, source, grid));
    if grid.x > 0.0 && grid.y > 0.0 then
      ObstaclesCover(obstacles, padding, source, grid, cells);
      cells
    else
      cells
  }

  /** ObstacleCellCovers for every shape of a list. */
  lemma ObstaclesCover(obstacles: seq<Shape>, padding: real, source: Point, grid: Grid, cells: seq<CellRect>)
    requires grid.x > 0.0 && grid.y > 0.0 && |cells| == |obstacles|
    requires forall i :: 0 <= i < |obstacles| ==> cells[i] == ObstacleCell(obstacles[i], padding, source, grid)
    ensures forall i :: 0 <= i < |obstacles| ==>
      cells[i].x as real * grid.x + source.x <= obstacles[i].x - padding &&
      cells[i].y as real * grid.y + source.y <= obstacles[i].y - padding &&
      cells[i].width as real * grid.x >= obstacles[i].width + 2.0 * padding &&
      cells[i].height as real * grid.y >= obstacles[i].height + 2.0 * padding
  {
    forall i | 0 <= i < |obstacles|
      ensures cells[i].x as real * grid.x + source.x <= obstacles[i].x - padding &&
        cells[i].y as real * grid.y + source.y <= obstacles[i].y - padding &&
        cells[i].width as real * grid.x >= obstacles[i].width + 2.0 * padding &&
        cells[i].height as real * grid.y >= obstacles[i].height + 2.0 * padding
    {
      ObstacleCellCovers(obstacles[i], padding, source, grid);
    }
  }

  /** The cell rectangle's right edge can fall short of the padded shape's
      right edge: the corner is rounded down and the width up independently. */
  lemma ObstacleRightEdgeCanFallShort()
    ensures var grid := Grid(Point(0.0, 0.0), 10.0, 10.0, Edge(0, 0, 0, 0));
      var r := ObstacleCell(Shape(15.0, 15.0, 10.0, 10.0), 0.0, Point(0.0, 0.0), grid);
      (r.x + r.width) as real * grid.x < 15.0 + 10.0
  {
    var grid := Grid(Point(0.0, 0.0), 10.0, 10.0, Edge(0, 0, 0, 0));
    assert Floor(15.0 / 10.0) == 1;
    assert Ceil(10.0 / 10.0) == 1;
  }

  // ---------------------------------------------------------------------------
  // Containment

  /** The closed rectangle, boundary included. */
  predicate InClosedRect(rect: CellRect, p: Cell)
  {
    rect.x <= p.x <= rect.x + rect.width && rect.y <= p.y <= rect.y + rect.height
  }

  /** A cell on one of the rectangle's four boundary lines. */
  predicate OnBoundaryLine(rect: CellRect, p: Cell)
  {
    p.x == rect.x || p.x == rect.x + rect.width || p.y == rect.y || p.y == rect.y + rect.height
  }

  /** rectContainsPoint: strict inequalities on all four sides, so a
      rectangle contains exactly the cells of its closed box that are not on
      its boundary: edges and corners are walkable. */
  function RectContainsPoint(rect: CellRect, point: Cell): (inside: bool)
    ensures inside <==> InClosedRect(rect, point) && !OnBoundaryLine(rect, point)
  {
    point.x > rect.x && point.x < rect.x + rect.width &&
    point.y > rect.y && point.y < rect.y + rect.height
  }

  /** A rectangle one cell wide or high blocks no cell at all. */
  lemma ThinRectBlocksNothing(rect: CellRect, p: Cell)
    requires rect.width <= 1 || rect.height <= 1
    ensures !RectContainsPoint(rect, p)
  {
  }
}
