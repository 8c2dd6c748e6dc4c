/** Whole gestures on a freshly mounted component, composed from the
    handlers' contracts alone: a click and a second click, a drag across
    several cells, a colour chosen from the menu, a right-click on the
    spot of an erasing click, and a drag that returns to its press spot. */
module Scenarios {
  import opened Wrappers
  import opened Geometry
  import opened Grid
  import opened Canvas

  /** The cell an event lands on in a window of the given size. */
  function MountedCell(innerWidth: real, innerHeight: real, rawDpr: real, screen: Screen, e: PointerEvent): (index: int)
    requires innerWidth > 0.0 && innerHeight > 0.0 && rawDpr >= 0.0
  {
    GetCellIndex(e.clientX, e.clientY, screen, CellSize(CanvasSize(innerWidth, innerHeight, rawDpr)))
  }

  /** One press and release on the spot: both handlers run, the canvas's
      and the window's. */
  method Click(g: FullscreenCanvasGrid, e: PointerEvent, screen: Screen)
    requires g.Valid() && e.button != SecondaryButton
    modifies g`isDrawing, g`hasMoved, g`startPos, g`initialCellState, g`cells
    ensures g.Valid() && !g.isDrawing && !g.hasMoved
    ensures g.startPos == Point(e.clientX, e.clientY)
    ensures g.initialCellState == ColorAt(old(g.cells), g.CellUnder(e, screen))
    ensures g.cells == Paint(old(g.cells), g.CellUnder(e, screen), g.color,
                             ColorAt(old(g.cells), g.CellUnder(e, screen)) != Some(White))
  {
    g.HandlePointerDown(e, screen);
    assert SquaredDistance(g.startPos, e) == 0.0;
    g.HandlePointerUp(e, screen);
    g.HandleGlobalPointerUp();
  }

  /** Clicking a blank cell paints it with the active colour; clicking it
      again erases it, and the grid is blank again. */
  method ClickTwice(innerWidth: real, innerHeight: real, rawDpr: real, screen: Screen, e: PointerEvent)
    returns (first: seq<Color>, second: seq<Color>)
    requires innerWidth > 0.0 && innerHeight > 0.0 && rawDpr >= 0.0
    requires e.button != SecondaryButton
    requires InGrid(ToDevice(e.clientX, e.clientY, screen), CellSize(CanvasSize(innerWidth, innerHeight, rawDpr)))
    ensures first == Blank()[MountedCell(innerWidth, innerHeight, rawDpr, screen, e) := InitialColor]
    ensures second == Blank()
  {
    var g := new FullscreenCanvasGrid(innerWidth, innerHeight, rawDpr);
    var index := g.CellUnder(e, screen);
    Click(g, e, screen);
    first := g.cells;
    assert InitialColor != White by { assert InitialColor[1] != White[1]; }
    Click(g, e, screen);
    second := g.cells;
    assert second == Paint(Paint(Blank(), index, InitialColor, false), index, InitialColor, true);
    assert forall j :: 0 <= j < CellCount ==> second[j] == Blank()[j];
  }

  /** A press, moves over the given positions, and a release farther than
      the threshold from the press: exactly the cells under the moves are
      painted with the active colour, the rest stay blank, and the release
      toggles nothing. */
  method Drag(innerWidth: real, innerHeight: real, rawDpr: real, screen: Screen,
              press: PointerEvent, moves: seq<PointerEvent>, release: PointerEvent)
    returns (grid: seq<Color>)
    requires innerWidth > 0.0 && innerHeight > 0.0 && rawDpr >= 0.0
    requires press.button != SecondaryButton
    requires !IsClick(Point(press.clientX, press.clientY), release)
    ensures |grid| == CellCount
    ensures forall j :: 0 <= j < CellCount ==>
      grid[j] == if exists k :: 0 <= k < |moves| && MountedCell(innerWidth, innerHeight, rawDpr, screen, moves[k]) == j
                 then InitialColor else White
  {
    var g := new FullscreenCanvasGrid(innerWidth, innerHeight, rawDpr);
    g.HandlePointerDown(press, screen);
    for i := 0 to |moves|
      invariant g.Valid() && g.isDrawing
      invariant g.color == InitialColor
      invariant g.startPos == Point(press.clientX, press.clientY)
      invariant g.cellSize == CellSize(CanvasSize(innerWidth, innerHeight, rawDpr))
      invariant forall j :: 0 <= j < CellCount ==>
        g.cells[j] == if exists k :: 0 <= k < i && MountedCell(innerWidth, innerHeight, rawDpr, screen, moves[k]) == j
                      then InitialColor else White
    {
      g.HandlePointerMove(moves[i], screen);
    }
    g.HandlePointerUp(release, screen);
    g.HandleGlobalPointerUp();
    grid := g.cells;
  }

  /** Right-click a cell and choose a swatch: the cell takes that colour, the
      colour becomes active and the menu closes. A click on the same cell
      afterwards erases it, because no swatch is blank. The right-click is
      written as in RightClickAfterErase, menu after release; on a fresh grid
      the release either lies 5 or more from the initial press position and
      paints nothing, or force-paints the same cell that the swatch then
      overwrites. */
  method ChooseFromMenu(innerWidth: real, innerHeight: real, rawDpr: real, screen: Screen,
                        e: PointerEvent, swatch: int)
    returns (chosen: seq<Color>, active: Color, menuShown: bool, afterClick: seq<Color>)
    requires innerWidth > 0.0 && innerHeight > 0.0 && rawDpr >= 0.0
    requires InGrid(ToDevice(e.clientX, e.clientY, screen), CellSize(CanvasSize(innerWidth, innerHeight, rawDpr)))
    requires 0 <= swatch < |Palette|
    ensures chosen == Blank()[MountedCell(innerWidth, innerHeight, rawDpr, screen, e) := Palette[swatch]]
    ensures active == Palette[swatch] && !menuShown
    ensures afterClick == Blank()
  {
    var g := new FullscreenCanvasGrid(innerWidth, innerHeight, rawDpr);
    var index := g.CellUnder(e, screen);
    var right := PointerEvent(e.clientX, e.clientY, SecondaryButton);
    g.HandlePointerDown(right, screen);
    g.HandlePointerUp(right, screen);
    g.HandleGlobalPointerUp();
    assert forall j :: 0 <= j < CellCount && j != index ==> g.cells[j] == White;
    g.HandleContextMenu(right, screen);
    g.HandleColorSelect(Palette[swatch]);
    chosen, active, menuShown := g.cells, g.color, g.showColorPicker;
    PaletteIsNotWhite(swatch);
    var left := PointerEvent(e.clientX, e.clientY, 0);
    Click(g, left, screen);
    afterClick := g.cells;
    assert forall j :: 0 <= j < CellCount ==> afterClick[j] == Blank()[j];
  }

  /** Click a blank cell twice, erasing it again, then right-click the same
      spot, with the context menu opening after the release. The right press
      is ignored, so the release re-runs the last press's click decision with
      that press's snapshot, which was not "#fff": the erased cell is toggled
      back to the active colour, and then the colour menu opens. Where the
      menu opens on the press instead, it is drawn with its corner under the
      pointer and takes the release, so the canvas's pointer-up never runs
      and the cell stays erased; that order is not modelled here. */
  method RightClickAfterErase(innerWidth: real, innerHeight: real, rawDpr: real, screen: Screen,
                              e: PointerEvent)
    returns (grid: seq<Color>, menuShown: bool)
    requires innerWidth > 0.0 && innerHeight > 0.0 && rawDpr >= 0.0
    requires e.button != SecondaryButton
    requires InGrid(ToDevice(e.clientX, e.clientY, screen), CellSize(CanvasSize(innerWidth, innerHeight, rawDpr)))
    ensures grid == Blank()[MountedCell(innerWidth, innerHeight, rawDpr, screen, e) := InitialColor]
    ensures menuShown
  {
    var g := new FullscreenCanvasGrid(innerWidth, innerHeight, rawDpr);
    var index := g.CellUnder(e, screen);
    assert InitialColor != White by { assert InitialColor[1] != White[1]; }
    Click(g, e, screen);
    var painted := g.cells;
    assert painted == Blank()[index := InitialColor] by {
      assert forall j :: 0 <= j < CellCount ==> painted[j] == Blank()[index := InitialColor][j];
    }
    Click(g, e, screen);
    assert g.initialCellState == Some(InitialColor);
    assert g.cells == Blank() by {
      assert forall j :: 0 <= j < CellCount ==> g.cells[j] == Blank()[j];
    }
    var right := PointerEvent(e.clientX, e.clientY, SecondaryButton);
    g.HandlePointerDown(right, screen);
    assert SquaredDistance(g.startPos, right) == 0.0;
    g.HandlePointerUp(right, screen);
    g.HandleGlobalPointerUp();
    g.HandleContextMenu(right, screen);
    grid, menuShown := g.cells, g.showColorPicker;
    assert forall j :: 0 <= j < CellCount ==> grid[j] == Blank()[index := InitialColor][j];
  }

  /** The moved flag is never read, so a drag that comes back to its press
      spot counts as a click. Paint a cell by a click, press on it again,
      drag away (however far) and back, and release: the moves force-paint the cells
      they pass, but the release is within the threshold of the press and
      the snapshot was not "#fff", so the start cell is toggled and ends
      erased. */
  method DragBackErases(innerWidth: real, innerHeight: real, rawDpr: real, screen: Screen,
                        e: PointerEvent, away: PointerEvent)
    returns (grid: seq<Color>)
    requires innerWidth > 0.0 && innerHeight > 0.0 && rawDpr >= 0.0
    requires e.button != SecondaryButton
    requires InGrid(ToDevice(e.clientX, e.clientY, screen), CellSize(CanvasSize(innerWidth, innerHeight, rawDpr)))
    ensures |grid| == CellCount
    ensures grid[MountedCell(innerWidth, innerHeight, rawDpr, screen, e)] == White
    ensures forall j :: 0 <= j < CellCount && j != MountedCell(innerWidth, innerHeight, rawDpr, screen, e) ==>
      grid[j] == if j == MountedCell(innerWidth, innerHeight, rawDpr, screen, away) then InitialColor else White
  {
    var g := new FullscreenCanvasGrid(innerWidth, innerHeight, rawDpr);
    var index := g.CellUnder(e, screen);
    var farIndex := g.CellUnder(away, screen);
    assert InitialColor != White by { assert InitialColor[1] != White[1]; }
    Click(g, e, screen);
    g.HandlePointerDown(e, screen);
    assert g.initialCellState == Some(InitialColor);
    g.HandlePointerMove(away, screen);
    g.HandlePointerMove(e, screen);
    assert SquaredDistance(g.startPos, e) == 0.0;
    g.HandlePointerUp(e, screen);
    g.HandleGlobalPointerUp();
    grid := g.cells;
  }
}
