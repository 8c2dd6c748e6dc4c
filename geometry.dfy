/** Sizing of the canvas, the rectangle drawn for each cell, and the mapping
    from a pointer position back to a cell index (app/page.js). All lengths
    are reals; the browser's doubles are not modelled bit for bit. */
module Geometry {

  /** Cells per row and per column of the grid. */
  const NumCells: int := 100

  /** Number of cells in the whole grid. */
  const CellCount: int := NumCells * NumCells

  /** The divisor the sizing rule uses for the cell height. It is not
      NumCells: only the top 55 rows fit on the canvas. */
  const RowDivisor: real := 55.0

  /** Pixel distance that separates a click from a drag. */
  const MovementThreshold: real := 5.0

  datatype Size = Size(width: real, height: real)

  datatype Point = Point(x: real, y: real)

  datatype Rect = Rect(x: real, y: real, width: real, height: real)

  /** What a handler reads from the browser when it maps a pointer position:
      the canvas's bounding box origin and the device pixel ratio. */
  datatype Screen = Screen(left: real, top: real, devicePixelRatio: real)

  predicate Positive(s: Size) {
    s.width > 0.0 && s.height > 0.0
  }

  /** `window.devicePixelRatio || 1`: a ratio of 0 is falsy and is replaced by 1. */
  function EffectiveDpr(rawDpr: real): (d: real)
    ensures rawDpr == 0.0 ==> d == 1.0
    ensures rawDpr != 0.0 ==> d == rawDpr
    ensures rawDpr >= 0.0 ==> d > 0.0
  {
    if rawDpr == 0.0 then 1.0 else rawDpr
  }

  /** The canvas backing store in device pixels: the window size scaled by the ratio. */
  function CanvasSize(innerWidth: real, innerHeight: real, rawDpr: real): (canvas: Size)
    ensures innerWidth > 0.0 && innerHeight > 0.0 && rawDpr >= 0.0 ==> Positive(canvas)
  {
    var dpr := EffectiveDpr(rawDpr);
    Size(innerWidth * dpr, innerHeight * dpr)
  }

  /** Cell width and height for a canvas: NumCells columns exactly span the
      width, while RowDivisor (not NumCells) rows span the height. */
  function CellSize(canvas: Size): (cell: Size)
    ensures cell.width * NumCells as real == canvas.width
    ensures cell.height * RowDivisor == canvas.height
    ensures Positive(canvas) ==> Positive(cell)
  {
    Size(canvas.width / NumCells as real, canvas.height / RowDivisor)
  }

  /** The rectangle filled (and stroked) for the cell at (row, col): one cell
      in size, its far edges exactly where column col + 1 and row row + 1
      begin, so the rectangles tile the grid without gaps or overlaps. */
  function CellRect(row: int, col: int, cell: Size): (r: Rect)
    ensures r.width == cell.width && r.height == cell.height
    ensures r.x + r.width == (col + 1) as real * cell.width
    ensures r.y + r.height == (row + 1) as real * cell.height
  {
    Rect(col as real * cell.width, row as real * cell.height, cell.width, cell.height)
  }

  /** Half-open containment: the left and top edges belong to the rectangle. */
  predicate InRect(p: Point, r: Rect) {
    r.x <= p.x < r.x + r.width && r.y <= p.y < r.y + r.height
  }

  /** The area covered by the NumCells by NumCells rectangles. */
  predicate InGrid(p: Point, cell: Size) {
    0.0 <= p.x < NumCells as real * cell.width && 0.0 <= p.y < NumCells as real * cell.height
  }

  /** Client (viewport) coordinates to canvas coordinates in device pixels:
      dividing by the ratio and adding the canvas origin gives the client
      position back. */
  function ToDevice(clientX: real, clientY: real, screen: Screen): (p: Point)
    ensures screen.devicePixelRatio >= 0.0 ==>
      p.x / EffectiveDpr(screen.devicePixelRatio) + screen.left == clientX &&
      p.y / EffectiveDpr(screen.devicePixelRatio) + screen.top == clientY
  {
    var dpr := EffectiveDpr(screen.devicePixelRatio);
    Point((clientX - screen.left) * dpr, (clientY - screen.top) * dpr)
  }

  /** The floored quotient v / s is the one k with k*s <= v < (k+1)*s. */
  lemma FloorBounds(v: real, s: real)
    requires s > 0.0
    ensures (v / s).Floor as real * s <= v < ((v / s).Floor + 1) as real * s
  {
    var q := v / s;
    var k := q.Floor;
    assert q * s == v;
    assert k as real <= q < (k + 1) as real;
    MulMonotone(k as real, q, s);
    MulStrict(q, (k + 1) as real, s);
    assert k as real * s <= v;
    assert v < (k + 1) as real * s;
  }

  lemma FloorUnique(v: real, s: real, k: int)
    requires s > 0.0
    requires k as real * s <= v < (k + 1) as real * s
    ensures (v / s).Floor == k
  {
    FloorBounds(v, s);
    SameBand(v, s, (v / s).Floor, k);
  }

  /** Two integers whose bands [k*s, (k+1)*s) both hold v are equal. */
  lemma SameBand(v: real, s: real, m: int, k: int)
    requires s > 0.0
    requires m as real * s <= v < (m + 1) as real * s
    requires k as real * s <= v < (k + 1) as real * s
    ensures m == k
  {
    MulCancelStrict(k as real, (m + 1) as real, s, v);
    MulCancelStrict(m as real, (k + 1) as real, s, v);
  }

  lemma MulMonotone(a: real, b: real, s: real)
    requires a <= b && s > 0.0
    ensures a * s <= b * s
  {
  }

  lemma MulStrict(a: real, b: real, s: real)
    requires a < b && s > 0.0
    ensures a * s < b * s
  {
  }

  /** Products of non-negative reals are strictly monotone in both factors. */
  lemma MulBoth(a: real, b: real, c: real, d: real)
    requires 0.0 <= a < b && 0.0 <= c < d
    ensures a * c < b * d
  {
  }

  /** If some v lies in [a*s, b*s) with s positive, then a < b. */
  lemma MulCancelStrict(a: real, b: real, s: real, v: real)
    requires a * s <= v < b * s && s > 0.0
    ensures a < b
  {
  }

  /** For row and col in range, the linear index splits back into them. */
  lemma IndexSplits(row: int, col: int)
    requires 0 <= row < NumCells && 0 <= col < NumCells
    ensures 0 <= row * NumCells + col < CellCount
    ensures (row * NumCells + col) / NumCells == row && (row * NumCells + col) % NumCells == col
  {
  }

  /** The cell under a point in device pixels: the floored row and column,
      combined row-major, or the sentinel -1 when either lies outside
      [0, NumCells). The sentinel is returned exactly for points outside the
      drawn grid, and any other result is the index of the cell rectangle
      holding the point. */
  function CellAt(p: Point, cell: Size): (index: int)
    requires Positive(cell)
    ensures index == -1 <==> !InGrid(p, cell)
    ensures index != -1 ==> 0 <= index < CellCount
    ensures index != -1 ==> InRect(p, CellRect(index / NumCells, index % NumCells, cell))
  {
    var row := (p.y / cell.height).Floor;
    var col := (p.x / cell.width).Floor;
    FloorBounds(p.y, cell.height);
    FloorBounds(p.x, cell.width);
    InGridBounds(p.y, cell.height, row);
    InGridBounds(p.x, cell.width, col);
    if row < 0 || row >= NumCells || col < 0 || col >= NumCells then
      -1
    else
      IndexSplits(row, col);
      row * NumCells + col
  }

  /** getCellIndex: the cell under a pointer given in client coordinates,
      after moving to the canvas's origin and scaling to device pixels. */
  function GetCellIndex(clientX: real, clientY: real, screen: Screen, cell: Size): (index: int)
    requires Positive(cell)
    ensures index == -1 <==> !InGrid(ToDevice(clientX, clientY, screen), cell)
    ensures index != -1 ==> 0 <= index < CellCount
    ensures index != -1 ==>
      InRect(ToDevice(clientX, clientY, screen), CellRect(index / NumCells, index % NumCells, cell))
  {
    CellAt(ToDevice(clientX, clientY, screen), cell)
  }

  /** A coordinate lies in [0, NumCells*s) exactly when its floored quotient lies in [0, NumCells). */
  lemma InGridBounds(v: real, s: real, k: int)
    requires s > 0.0
    requires k as real * s <= v < (k + 1) as real * s
    ensures (0.0 <= v < NumCells as real * s) <==> (0 <= k < NumCells)
  {
    if 0 <= k {
      MulMonotone(0.0, k as real, s);
    } else {
      MulMonotone((k + 1) as real, 0.0, s);
    }
    if k < NumCells {
      MulMonotone((k + 1) as real, NumCells as real, s);
    } else {
      MulMonotone(NumCells as real, k as real, s);
    }
  }

  /** Rendering and mapping agree: a point that lies in the rectangle drawn
      for (row, col) is mapped to that cell's index. */
  lemma HitsDrawnCell(p: Point, cell: Size, row: int, col: int)
    requires Positive(cell)
    requires 0 <= row < NumCells && 0 <= col < NumCells
    requires InRect(p, CellRect(row, col, cell))
    ensures CellAt(p, cell) == row * NumCells + col
  {
    FloorUnique(p.y, cell.height, row);
    FloorUnique(p.x, cell.width, col);
  }

  /** With the sizing rule as written, every point on the canvas lands in one
      of the top RowDivisor rows: rows 55 to 99 are never under the canvas. */
  lemma CanvasShowsTopRows(p: Point, canvas: Size)
    requires Positive(canvas)
    requires 0.0 <= p.x < canvas.width && 0.0 <= p.y < canvas.height
    ensures 0 <= CellAt(p, CellSize(canvas)) < 55 * NumCells
  {
    var cell := CellSize(canvas);
    var h := cell.height;
    MulStrict(RowDivisor, NumCells as real, h);
    assert InGrid(p, cell);
    var index := CellAt(p, cell);
    var row := index / NumCells;
    var lo := row as real * h;
    var hi := RowDivisor * h;
    assert lo <= p.y;
    assert p.y < hi;
    MulCancelStrict(row as real, RowDivisor, h, p.y);
  }

  /** With the sizing rule as written, a point below the canvas (but above
      NumCells cell heights) still maps to a cell, in rows 55 to 99. */
  lemma BelowCanvasStillMaps(p: Point, canvas: Size)
    requires Positive(canvas)
    requires 0.0 <= p.x < canvas.width
    requires canvas.height <= p.y < NumCells as real * CellSize(canvas).height
    ensures 55 * NumCells <= CellAt(p, CellSize(canvas)) < CellCount
  {
    // Explicit steps: the row's band is pinned between RowDivisor * h and
    // (row + 1) * h; without them the proof is not stable.
    var cell := CellSize(canvas);
    var h := cell.height;
    assert InGrid(p, cell);
    var index := CellAt(p, cell);
    var row := index / NumCells;
    var lo := RowDivisor * h;
    var hi := (row + 1) as real * h;
    assert lo <= p.y;
    assert p.y < hi;
    MulCancelStrict(RowDivisor, (row + 1) as real, h, p.y);
  }
}
