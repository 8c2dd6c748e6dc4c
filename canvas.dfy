/** The drawing component (app/page.js): its state fields, one method per
    event handler, and the display list its render pass draws. Each handler
    is one atomic step; the browser's reads (window size, device pixel ratio,
    the canvas's bounding box) arrive as parameters. */
module Canvas {
  import opened Wrappers
  import opened Geometry
  import opened Grid

  /** The fields of a pointer event that the handlers read. */
  datatype PointerEvent = PointerEvent(clientX: real, clientY: real, button: int)

  /** The button number of the secondary (context-menu) button. */
  const SecondaryButton: int := 2

  /** One cell of the render pass: the rectangle it is filled in (and
      outlined on) and its fill colour. */
  datatype Tile = Tile(rect: Rect, fill: Color)

  /** Squared distance from the press position to the event's position:
      never negative, and zero exactly when the event is on the press spot. */
  function SquaredDistance(start: Point, e: PointerEvent): (d: real)
    ensures d >= 0.0
    ensures d == 0.0 <==> e.clientX == start.x && e.clientY == start.y
  {
    var dx := e.clientX - start.x;
    var dy := e.clientY - start.y;
    SquareSign(dx);
    SquareSign(dy);
    dx * dx + dy * dy
  }

  /** A square is never negative, and it is zero only for zero. */
  lemma SquareSign(x: real)
    ensures x * x >= 0.0
    ensures x * x == 0.0 <==> x == 0.0
  {
    if x > 0.0 {
      SquareMonotone(0.0, x);
    } else if x < 0.0 {
      SquareMonotone(0.0, -x);
      assert (-x) * (-x) == x * x;
    }
  }

  /** `Math.sqrt(d) < MovementThreshold`, stated on the square: a release
      this close to the press is a click. */
  predicate IsClick(start: Point, e: PointerEvent) {
    SquaredDistance(start, e) < MovementThreshold * MovementThreshold
  }

  /** `Math.sqrt(d) > MovementThreshold`, stated on the square. */
  predicate MovedPastThreshold(start: Point, e: PointerEvent) {
    SquaredDistance(start, e) > MovementThreshold * MovementThreshold
  }

  /** Comparing the squared distance with the squared threshold decides the
      same as comparing the distance itself, `Math.sqrt` of the square, with
      the threshold: below it for a click, above it for a move that counts. */
  lemma SquareRootThresholds(start: Point, e: PointerEvent, distance: real)
    requires distance >= 0.0 && distance * distance == SquaredDistance(start, e)
    ensures IsClick(start, e) <==> distance < MovementThreshold
    ensures MovedPastThreshold(start, e) <==> distance > MovementThreshold
  {
    if distance < MovementThreshold {
      SquareMonotone(distance, MovementThreshold);
    } else if distance > MovementThreshold {
      SquareMonotone(MovementThreshold, distance);
    }
  }

  /** Squaring is strictly increasing on the non-negative reals. */
  lemma SquareMonotone(a: real, b: real)
    requires 0.0 <= a < b
    ensures a * a < b * b
  {
    MulBoth(a, b, a, b);
  }

  class FullscreenCanvasGrid {
    /** Grid colours, row-major; replaced by a new sequence on every paint. */
    var cells: seq<Color>
    /** The active colour. */
    var color: Color
    /** Where the colour menu is shown. */
    var menuPosition: Point
    var showColorPicker: bool
    /** The cell the colour menu targets: null until the first right-click,
        then whatever the mapping returned (possibly the sentinel -1). */
    var selectedCell: Option<int>
    var isDrawing: bool
    /** Canvas backing store in device pixels, and the size of one cell. */
    var canvasSize: Size
    var cellSize: Size
    /** Set on a move past the threshold; no handler reads it. */
    var hasMoved: bool
    /** Client position of the last press. */
    var startPos: Point
    /** Colour of the pressed cell at press time; None is `undefined`. */
    var initialCellState: Option<Color>

    ghost predicate Valid()
      reads this
    {
      && |cells| == CellCount
      && Positive(canvasSize)
      && cellSize == CellSize(canvasSize)
      && (selectedCell.Some? ==> -1 <= selectedCell.value < CellCount)
    }

    /** The cell under an event's pointer for the current cell size. */
    function CellUnder(e: PointerEvent, screen: Screen): (index: int)
      reads this
      requires Valid()
      ensures -1 <= index < CellCount
    {
      GetCellIndex(e.clientX, e.clientY, screen, cellSize)
    }

    /** The initial state, followed by the resize the component runs when it mounts. */
    constructor (innerWidth: real, innerHeight: real, rawDpr: real)
      requires innerWidth > 0.0 && innerHeight > 0.0 && rawDpr >= 0.0
      ensures Valid()
      ensures cells == Blank() && color == InitialColor
      ensures menuPosition == Point(0.0, 0.0) && !showColorPicker && selectedCell == None
      ensures !isDrawing && !hasMoved && startPos == Point(0.0, 0.0)
      ensures initialCellState == Some(White)
      ensures canvasSize == CanvasSize(innerWidth, innerHeight, rawDpr)
      ensures cellSize == CellSize(canvasSize)
    {
      cells := Blank();
      color := InitialColor;
      menuPosition := Point(0.0, 0.0);
      showColorPicker := false;
      selectedCell := None;
      isDrawing := false;
      hasMoved := false;
      startPos := Point(0.0, 0.0);
      initialCellState := Some(White);
      var canvas := CanvasSize(innerWidth, innerHeight, rawDpr);
      canvasSize := canvas;
      cellSize := CellSize(canvas);
    }

    /** updateCanvasDimensions: recompute the backing store and cell sizes
        from the window; nothing else changes. */
    method UpdateCanvasDimensions(innerWidth: real, innerHeight: real, rawDpr: real)
      requires Valid()
      requires innerWidth > 0.0 && innerHeight > 0.0 && rawDpr >= 0.0
      modifies this`canvasSize, this`cellSize
      ensures Valid()
      ensures canvasSize == CanvasSize(innerWidth, innerHeight, rawDpr)
      ensures cellSize == CellSize(canvasSize)
    {
      var canvas := CanvasSize(innerWidth, innerHeight, rawDpr);
      canvasSize := canvas;
      cellSize := CellSize(canvas);
    }

    /** paintCell: replace the grid by its painted copy; nothing else changes. */
    method PaintCell(index: int, newColor: Color, toggle: bool)
      requires Valid() && index < CellCount
      modifies this`cells
      ensures Valid()
      ensures cells == Paint(old(cells), index, newColor, toggle)
    {
      cells := Paint(cells, index, newColor, toggle);
    }

    /** handlePointerDown: the secondary button is ignored; any other press
        starts a gesture and snapshots the pressed cell's colour without
        painting it. */
    method HandlePointerDown(e: PointerEvent, screen: Screen)
      requires Valid()
      modifies this`isDrawing, this`hasMoved, this`startPos, this`initialCellState
      ensures Valid()
      ensures e.button == SecondaryButton ==>
        && isDrawing == old(isDrawing) && hasMoved == old(hasMoved)
        && startPos == old(startPos) && initialCellState == old(initialCellState)
      ensures e.button != SecondaryButton ==>
        && isDrawing && !hasMoved
        && startPos == Point(e.clientX, e.clientY)
        && initialCellState == ColorAt(cells, CellUnder(e, screen))
    {
      if e.button == SecondaryButton {
        return;
      }
      isDrawing := true;
      hasMoved := false;
      startPos := Point(e.clientX, e.clientY);
      var index := CellUnder(e, screen);
      initialCellState := ColorAt(cells, index);
    }

    /** handlePointerMove: outside a gesture nothing happens; during one the
        hovered cell is force-painted with the active colour, however far the
        pointer has moved. */
    method HandlePointerMove(e: PointerEvent, screen: Screen)
      requires Valid()
      modifies this`hasMoved, this`cells
      ensures Valid()
      ensures !isDrawing ==> cells == old(cells) && hasMoved == old(hasMoved)
      ensures isDrawing ==>
        && cells == Paint(old(cells), CellUnder(e, screen), color, false)
        && hasMoved == (old(hasMoved) || MovedPastThreshold(startPos, e))
    {
      if !isDrawing {
        return;
      }
      if MovedPastThreshold(startPos, e) {
        hasMoved := true;
      }
      var index := CellUnder(e, screen);
      PaintCell(index, color, false);
    }

    /** handlePointerUp, run on every release whatever the button: the
        gesture ends; a release within the threshold of the press is a click,
        which force-paints the released cell if the pressed cell was blank at
        press time and toggles it otherwise; a farther release paints nothing. */
    method HandlePointerUp(e: PointerEvent, screen: Screen)
      requires Valid()
      modifies this`isDrawing, this`cells
      ensures Valid()
      ensures !isDrawing
      ensures !IsClick(startPos, e) ==> cells == old(cells)
      ensures IsClick(startPos, e) && initialCellState == Some(White) ==>
        cells == Paint(old(cells), CellUnder(e, screen), color, false)
      ensures IsClick(startPos, e) && initialCellState != Some(White) ==>
        cells == Paint(old(cells), CellUnder(e, screen), color, true)
    {
      isDrawing := false;
      var index := CellUnder(e, screen);
      if IsClick(startPos, e) {
        if initialCellState == Some(White) {
          PaintCell(index, color, false);
        } else {
          PaintCell(index, color, true);
        }
      }
    }

    /** The window-level pointer-up listener: it only ends the gesture. */
    method HandleGlobalPointerUp()
      requires Valid()
      modifies this`isDrawing
      ensures Valid()
      ensures !isDrawing
    {
      isDrawing := false;
    }

    /** handleContextMenu: remember the click position and the cell under
        it, and show the colour menu; the grid is untouched. */
    method HandleContextMenu(e: PointerEvent, screen: Screen)
      requires Valid()
      modifies this`menuPosition, this`selectedCell, this`showColorPicker
      ensures Valid()
      ensures menuPosition == Point(e.clientX, e.clientY)
      ensures selectedCell == Some(CellUnder(e, screen))
      ensures showColorPicker
    {
      var index := CellUnder(e, screen);
      menuPosition := Point(e.clientX, e.clientY);
      selectedCell := Some(index);
      showColorPicker := true;
    }

    /** handleColorSelect: the chosen colour becomes active, the targeted
        cell (when there is one, and it is not the sentinel) is force-painted
        with it, and the menu closes. */
    method HandleColorSelect(newColor: Color)
      requires Valid()
      modifies this`color, this`cells, this`showColorPicker
      ensures Valid()
      ensures color == newColor && !showColorPicker
      ensures selectedCell.Some? && selectedCell.value >= 0 ==>
        cells == Paint(old(cells), selectedCell.value, newColor, false)
      ensures !(selectedCell.Some? && selectedCell.value >= 0) ==> cells == old(cells)
    {
      color := newColor;
      if selectedCell.Some? && selectedCell.value >= 0 {
        PaintCell(selectedCell.value, newColor, false);
      }
      showColorPicker := false;
    }

    /** The menu's mouse-leave handler: the menu closes and nothing else changes. */
    method HandlePickerMouseLeave()
      requires Valid()
      modifies this`showColorPicker
      ensures Valid()
      ensures !showColorPicker
    {
      showColorPicker := false;
    }

    /** drawGrid's nested loops: the cells in row-major order, each as the
        rectangle at (col * width, row * height) of one cell's size, filled
        with that cell's colour. */
    method DrawGrid() returns (tiles: seq<Tile>)
      requires Valid()
      ensures |tiles| == CellCount
      ensures forall i :: 0 <= i < CellCount ==>
        tiles[i] == Tile(CellRect(i / NumCells, i % NumCells, cellSize), cells[i])
    {
      tiles := [];
      for row := 0 to NumCells
        invariant |tiles| == row * NumCells
        invariant forall i :: 0 <= i < |tiles| ==>
          tiles[i] == Tile(CellRect(i / NumCells, i % NumCells, cellSize), cells[i])
      {
        for col := 0 to NumCells
          invariant |tiles| == row * NumCells + col
          invariant forall i :: 0 <= i < |tiles| ==>
            tiles[i] == Tile(CellRect(i / NumCells, i % NumCells, cellSize), cells[i])
        {
          var index := row * NumCells + col;
          IndexSplits(row, col);
          tiles := tiles + [Tile(CellRect(row, col, cellSize), cells[index])];
        }
      }
    }
  }
}
