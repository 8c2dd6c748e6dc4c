/** The grid of cell colours and the paint rule that updates it (app/page.js). */
module Grid {
  import opened Wrappers
  import opened Geometry

  /** A colour as the canvas receives it: a CSS string such as "#fff",
      compared character for character as JavaScript's `===` does. */
  type Color = string

  /** The blank colour every cell starts with, and the one toggling erases to. */
  const White: Color := "#fff"

  /** The active colour before the menu is first used. */
  const InitialColor: Color := "#FF2DF1"

  /** The five swatches of the colour menu, in the order they are shown. */
  const Palette: seq<Color> := ["#FF2DF1", "#FF5733", "#33FF57", "#3357FF", "#FFFF33"]

  /** The grid at mount: CellCount entries, all blank. */
  function Blank(): (cells: seq<Color>)
    ensures |cells| == CellCount
    ensures forall i :: 0 <= i < |cells| ==> cells[i] == White
  {
    seq(CellCount, _ => White)
  }

  /** `cells[index]` in JavaScript: the colour at an index inside the array,
      `undefined` (None) at any other index, such as the sentinel -1. */
  function ColorAt(cells: seq<Color>, index: int): (c: Option<Color>)
    ensures c.Some? <==> 0 <= index < |cells|
    ensures c.Some? ==> c.value == cells[index]
  {
    if 0 <= index < |cells| then Some(cells[index]) else None
  }

  /** paintCell: a negative index leaves the grid as it is; otherwise a copy
      of the grid in which only the entry at index is replaced. Without
      toggle that entry becomes newColor; with toggle a blank entry becomes
      newColor and any other entry becomes blank. */
  function Paint(cells: seq<Color>, index: int, newColor: Color, toggle: bool): (r: seq<Color>)
    requires index < |cells|
    ensures |r| == |cells|
    ensures index < 0 ==> r == cells
    ensures forall j :: 0 <= j < |cells| && j != index ==> r[j] == cells[j]
    ensures 0 <= index && !toggle ==> r[index] == newColor
    ensures 0 <= index && toggle && cells[index] == White ==> r[index] == newColor
    ensures 0 <= index && toggle && cells[index] != White ==> r[index] == White
  {
    if index < 0 then cells
    else if toggle then cells[index := if cells[index] == White then newColor else White]
    else cells[index := newColor]
  }

  /** Toggling twice with the same colour restores a cell that held either
      blank or that colour: click, click again, and the grid is as before. */
  lemma ToggleTwiceRestores(cells: seq<Color>, index: int, c: Color)
    requires 0 <= index < |cells|
    requires cells[index] == White || cells[index] == c
    ensures Paint(Paint(cells, index, c, true), index, c, true) == cells
  {
  }

  /** A cell holding some third colour does not come back after two toggles:
      the first erases it and the second paints c. */
  lemma ToggleTwiceRepaints(cells: seq<Color>, index: int, c: Color)
    requires 0 <= index < |cells|
    requires cells[index] != White
    ensures Paint(Paint(cells, index, c, true), index, c, true)[index] == c
  {
  }

  /** Force-painting the same cell twice with the same colour is the same as once. */
  lemma ForcePaintIdempotent(cells: seq<Color>, index: int, c: Color)
    requires index < |cells|
    ensures Paint(Paint(cells, index, c, false), index, c, false) == Paint(cells, index, c, false)
  {
  }

  /** Paints at different cells commute: each touches only its own entry. */
  lemma PaintsCommute(cells: seq<Color>, i: int, a: Color, s: bool, j: int, b: Color, t: bool)
    requires i < |cells| && j < |cells| && i != j
    ensures Paint(Paint(cells, i, a, s), j, b, t) == Paint(Paint(cells, j, b, t), i, a, s)
  {
  }

  /** No swatch of the menu is the blank colour, so a cell painted from the
      menu counts as painted for the next click's toggle. */
  lemma PaletteIsNotWhite(k: int)
    requires 0 <= k < |Palette|
    ensures Palette[k] != White
  {
  }
}
