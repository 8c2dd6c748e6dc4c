# Pixel drawing grid — a Dafny model

The repository is a one-page pixel-art editor: a full-window canvas shows a
100 × 100 grid of colour cells. Clicking a cell paints it with the active
colour or erases it again. Dragging paints every cell passed over. Right-click
opens a small menu of five colours. Choosing one makes it the active colour and
paints the right-clicked cell with it.

All of the logic is in one React component, `FullscreenCanvasGrid`
(`app/page.js`). This project models it as follows:

- `Geometry` (pure): the sizing rule for the canvas and for one cell, the
  rectangle drawn for each cell, and the mapping from a pointer position to a
  cell index. The mapping returns the sentinel -1 outside the grid.
- `Grid` (pure): cell colours, the initial blank grid, and the paint rule
  (force-set or toggle) as a function that returns the new grid.
- `Canvas` (imperative): class `FullscreenCanvasGrid` holds the component's
  state and refs as fields. It has one method per event handler. Each
  method's frame names the fields that handler writes. `DrawGrid` is the
  render pass's nested loop, returning the cells it fills in order.
- `Scenarios`: whole gestures run on a freshly mounted component — a click
  and a second click, a drag across several cells, a colour chosen from the
  menu, a right-click after an erase, a drag back to its press spot. They are proved from the handlers' contracts.
- `Wrappers`: `Option`, which stands for `undefined` and `null` in the source.

Modelling decisions:

- The grid is a `seq` field that each paint replaces with a new sequence.
  This matches the source, which builds a fresh array for every update
  instead of writing into the old one.
- The colour snapshot taken at pointer-down is an `Option`. `None` is the
  `undefined` that the source reads when the press lands outside the grid
  (`cells[-1]`). `None` is not `"#fff"`, so releasing such a press takes the
  toggle branch, as it does in the source.
- Lengths are `real`. Flooring uses `.Floor`. `Math.sqrt(d) < 5` and
  `Math.sqrt(d) > 5` become `d < 25` and `d > 25`; this is equivalent because
  `d` is never negative.
- The window size, the device pixel ratio and the canvas's bounding box are
  parameters of the methods that read them. A pixel ratio of 0 reads as 1,
  like `devicePixelRatio || 1`.
- The constructor models two steps: the initial state, and the resize that
  runs when the component mounts. After that the cell sizes are positive,
  and every handler relies on that.

The model follows the code as written, including these details:

- **Cell height.** The code divides the canvas height by 55, not by 100
  (`app/page.js:38`), although the comment on line 36 says 100.
  `CanvasShowsTopRows` proves that a point on the canvas only ever hits rows
  0 to 54. `BelowCanvasStillMaps` proves that a point below the canvas
  bottom, but within 100 cell heights of the top, still maps to a cell in
  rows 55 to 99. So "outside the canvas returns the sentinel" does not hold
  for the code as written. Drawing and hit-testing still agree, because both
  use the same cell height: see `HitsDrawnCell`.
- **Distance of exactly 5.** A release at distance exactly 5 is not a click:
  the code tests `distance < 5`. A move at distance exactly 5 does not set
  the moved flag: the code tests `> 5`.
- **The moved flag is unread.** Pointer-up decides on the final distance
  alone (`app/page.js:152-156`). So a drag that comes back to within 5 of its
  press counts as a click. If the start cell was painted at press time, the
  release erases it, although the drag's moves had just painted it: see
  `DragBackErases`.
- **Any button.** Pointer-up does not look at the button, so it also runs
  when the right button is released. Pointer-down ignores the right button,
  so that release re-runs the click decision of the last left press, with the
  press position and colour snapshot recorded then. What a right-click on the
  spot of a click that just erased a cell does depends on when the browser
  fires `contextmenu`. Where the menu opens after the release, the release
  reaches the canvas and repaints that cell with the active colour, and then
  the menu opens: see `RightClickAfterErase`. Where the menu opens on the
  press, it is drawn with its corner at the pointer, above the canvas
  (`app/page.js:209-213`). It then takes the release, the canvas's
  pointer-up does not run, and the cell stays erased. The model composes
  only the first order.

## Model

| member | source | states |
|---|---|---|
| Geometry.EffectiveDpr | app/page.js:31 | a missing (zero) device pixel ratio reads as 1; any other ratio is used as it is; the result is positive for any ratio the browser reports |
| Geometry.CanvasSize | app/page.js:30-35 | the backing store is the window size times the pixel ratio, and it is positive for a non-empty window |
| Geometry.CellSize | app/page.js:36-38 | 100 cell widths make exactly the canvas width; 55 cell heights (not 100) make exactly the canvas height; a positive canvas gives positive cells |
| Geometry.CellRect | app/page.js:60 | the rectangle drawn for (row, col) is one cell in size, and its right and bottom edges are exactly where column col + 1 and row row + 1 begin |
| Geometry.ToDevice | app/page.js:95-96 | the device point, divided by the pixel ratio and shifted by the canvas origin, gives the client position back |
| Geometry.CellAt | app/page.js:98-105 | the result is -1 exactly when the point lies outside the 100 × 100 cell area; any other result is an index in [0, 10000) whose cell rectangle (row = index / 100, col = index % 100) contains the point |
| Geometry.GetCellIndex | app/page.js:89-107 | after subtracting the canvas origin and scaling by the pixel ratio, the sentinel is returned exactly for points outside the cell area, every other result is a valid index, and the rectangle of the cell it names contains the pointer's device position |
| Geometry.HitsDrawnCell | app/page.js:98-105 | rendering and hit-testing agree: a point inside the rectangle drawn for (row, col) maps to row * 100 + col |
| Geometry.CanvasShowsTopRows | app/page.js:36-38 | with the height divided by 55, every point on the canvas maps to a cell in rows 0 to 54 |
| Geometry.BelowCanvasStillMaps | app/page.js:36-38 | with the height divided by 55, a point below the canvas but within 100 cell heights maps to a cell in rows 55 to 99, not to the sentinel |
| Geometry.FloorUnique | app/page.js:98-99 | the floor of v / s is the one integer k with k·s <= v < (k+1)·s |
| Grid.Blank | app/page.js:12 | the initial grid has exactly 100 · 100 entries, all "#fff" |
| Grid.ColorAt | app/page.js:129 | reading the grid at an index gives that entry inside the array and undefined (None) anywhere else, including the sentinel -1 |
| Grid.Paint | app/page.js:111-119 | a negative index changes nothing; otherwise the length is kept, only the entry at index may change, force-set makes it newColor, and toggle makes a "#fff" entry newColor and any other entry "#fff" |
| Grid.ToggleTwiceRestores | app/page.js:115 | toggling a cell twice with the same colour restores the whole grid when the cell held "#fff" or that colour |
| Grid.ToggleTwiceRepaints | app/page.js:115 | a cell holding a third colour is not restored by two toggles: it ends up with the toggling colour |
| Grid.ForcePaintIdempotent | app/page.js:116 | force-painting a cell twice with one colour equals painting it once |
| Grid.PaintsCommute | app/page.js:113-117 | paints at two different cells give the same grid in either order |
| Grid.PaletteIsNotWhite | app/page.js:216-220 | none of the five menu colours is "#fff" |
| Canvas.SquaredDistance | app/page.js:152-154 | dx² + dy² from the press position (computed the same way on move, lines 139-141) is never negative, and it is zero exactly when the event is on the press spot |
| Canvas.SquareRootThresholds | app/page.js:139-156 | for the distance d = sqrt(dx² + dy²), `IsClick` (the squared distance below 25) holds exactly when d < 5, and `MovedPastThreshold` (above 25) exactly when d > 5 |
| Canvas.FullscreenCanvasGrid.constructor | app/page.js:7-27 | the initial state: blank grid, active colour "#FF2DF1", no menu, no target cell, not drawing, snapshot "#fff", start at (0, 0), and the cell sizes from the mount-time resize |
| Canvas.FullscreenCanvasGrid.UpdateCanvasDimensions | app/page.js:30-39 | the canvas and cell sizes are recomputed from the window and nothing else changes |
| Canvas.FullscreenCanvasGrid.PaintCell | app/page.js:111-119 | the grid becomes its painted copy and no other field changes |
| Canvas.FullscreenCanvasGrid.HandlePointerDown | app/page.js:122-133 | button 2 changes nothing; any other button starts drawing, clears the moved flag, records the press position and snapshots the pressed cell's colour (undefined outside the grid), writing no cell |
| Canvas.FullscreenCanvasGrid.HandlePointerMove | app/page.js:136-146 | when not drawing nothing changes; while drawing the hovered cell is force-painted with the active colour whatever the distance, and the moved flag is set once the distance exceeds 5 |
| Canvas.FullscreenCanvasGrid.HandlePointerUp | app/page.js:149-167 | drawing always stops; a release closer than 5 force-paints the released cell after a "#fff" snapshot and toggles it after any other snapshot; a release at 5 or more changes no cell |
| Canvas.FullscreenCanvasGrid.HandleGlobalPointerUp | app/page.js:192 | only the drawing flag is cleared |
| Canvas.FullscreenCanvasGrid.HandleContextMenu | app/page.js:170-179 | the menu position and target cell are recorded, the menu is shown, and the grid is untouched |
| Canvas.FullscreenCanvasGrid.HandleColorSelect | app/page.js:182-188 | the active colour becomes the choice, the target cell is force-painted only when one was recorded and it is not -1, and the menu closes |
| Canvas.FullscreenCanvasGrid.HandlePickerMouseLeave | app/page.js:213 | only the menu is closed |
| Canvas.FullscreenCanvasGrid.DrawGrid | app/page.js:48-70 | the render pass visits all 10000 cells row by row; the i-th is drawn at (col · cell width, row · cell height), one cell in size, where row = i / 100 and col = i % 100, and filled with cells[i] |
| Scenarios.Click | app/page.js:122-167 | a press and release on one spot leaves drawing off and the moved flag clear, records the press position and the cell's colour at press time, and toggles the cell exactly when that colour was not "#fff" (otherwise force-sets it); the colour, the menu and the sizes are untouched |
| Scenarios.ClickTwice | app/page.js:149-167 | on a fresh grid, clicking a cell paints it with "#FF2DF1" and clicking it again leaves the whole grid blank |
| Scenarios.Drag | app/page.js:136-167 | a press, any moves, and a release 5 or more away paint exactly the cells under the moves with the active colour and leave every other cell "#fff" |
| Scenarios.RightClickAfterErase | app/page.js:122-179 | after a cell is painted and erased by two clicks, a right-click on the same spot whose context menu opens after the release paints it again with the active colour, and the menu opens |
| Scenarios.DragBackErases | app/page.js:136-167 | press on a painted cell, move anywhere and back, release on the press spot: the start cell ends "#fff", the cell under the away move holds the active colour, and every other cell stays "#fff" |
| Scenarios.ChooseFromMenu | app/page.js:122-188 | right-clicking a cell (press, release, then the menu) and choosing a swatch paints that cell with it, makes it active and closes the menu; a later click on that cell erases it |

## Left out

- React plumbing: hooks, `useCallback` dependency lists, and adding and
  removing the resize and window pointer-up listeners
  (`app/page.js:41-45, 191-195`). It is framework wiring. Each handler is
  modelled as one atomic step. React's deferred, batched state commits and
  stale closures are not modelled.
- Canvas calls: `getContext`, `clearRect`, `fillRect`, `strokeRect`, and the
  writes to the element's size and style (`app/page.js:51-65, 73-86`). These
  are browser APIs. `DrawGrid` returns the rectangles and fill colours. The
  clear is not listed, and neither is the 2-pixel "#ccc" border stroked on
  each cell's own rectangle.
- `console.log` (`app/page.js:34`): output only.
- Floating point: lengths are exact reals, so rounding, NaN and Infinity are
  not modelled. The cell sizes of 0 that exist before the first resize are
  not either: the constructor runs that resize, and widths, heights and
  pixel ratios must be positive (a ratio of 0 reads as 1).
- The square root: the model compares squared distances, which gives the
  same result (`SquareRootThresholds`).
- The colour menu's on-screen placement (CSS `left`/`top`) and the JSX markup:
  the position is stored and nothing more.
- Browser event order: the scenarios fix one order of events: down, up,
  window-up, and for a right-click `contextmenu` after the release. Pointer
  capture is not modelled. Neither is the other order, where `contextmenu`
  fires on the press and the menu over the canvas receives the release.
- Grid.Paint: requires an index below the grid length. JavaScript would grow
  the array for a larger index, but every caller passes a result of
  `getCellIndex`, which is below 10000 or is -1.
- Canvas.FullscreenCanvasGrid.HandleColorSelect: accepts any colour string.
  In the page only the five swatches call it.
- `app/layout.js`: static metadata and a wrapper element, with no logic.
