/** The colour picker of ansicht/ui.py (class Palette): a non-empty sequence
    of RGB triples laid out row-major in `cols` columns, with two independent
    selections, one for the foreground colour and one for the background
    colour. Rendering is modelled as the sequence of swatches the redraw
    loops fill, not as pixels. */
module PaletteWidget {
  import opened Grid

  datatype Rgb = Rgb(r: int, g: int, b: int)

  const Black := Rgb(0, 0, 0)

  /** The outline a swatch gets: the background marker's colour wins over
      the foreground marker's when a cell carries both. */
  datatype Highlight = Plain | BgOutline | FgOutline

  /** One filled cell of the grid: its cell, its colour and its outline. */
  datatype Swatch = Swatch(col: int, row: int, color: Rgb, highlight: Highlight)

  /** The selection state a click changes. */
  datatype PaletteState = PaletteState(markerBg: Cell, markerFg: Cell, selectedBg: Rgb, selectedFg: Rgb)

  /** What the lookup of select(x, y) meets: the early return for an index
      past the last entry, an IndexError raised by a negative index below
      -n, or the entry found (negative indices from -n count from the end). */
  datatype Lookup = Beyond | Raises | Found(index: nat)

  function PaletteLookup(n: nat, cols: int, x: int, y: int): (r: Lookup)
    ensures r == Beyond <==> LinearIndex(x, y, cols) >= n
    ensures r == Raises <==> LinearIndex(x, y, cols) < -(n as int)
    ensures r.Found? ==> r.index < n
    ensures r.Found? && LinearIndex(x, y, cols) >= 0 ==> r.index == LinearIndex(x, y, cols)
    ensures r.Found? && LinearIndex(x, y, cols) < 0 ==> r.index == n + LinearIndex(x, y, cols)
  {
    var i := LinearIndex(x, y, cols);
    if i > n - 1 then Beyond
    else match PyIndex(i, n)
      case Some(k) => Found(k)
      case None => Raises
  }

  /** The smaller of two integers. */
  function Min(a: int, b: int): int
  {
    if a <= b then a else b
  }

  /** The outline of a cell: background first, then foreground. */
  function HighlightOf(cell: Cell, markerBg: Cell, markerFg: Cell): Highlight
  {
    if cell == markerBg then BgOutline
    else if cell == markerFg then FgOutline
    else Plain
  }

  /** The swatch of palette entry k: in cell CellOf(k), in its colour. */
  function SwatchAt(palette: seq<Rgb>, cols: int, markerBg: Cell, markerFg: Cell, k: int): Swatch
    requires cols >= 1 && 0 <= k < |palette|
  {
    var c := CellOf(k, cols);
    Swatch(c.0, c.1, palette[k], HighlightOf(c, markerBg, markerFg))
  }

  /** What a full redraw fills, swatch by swatch. */
  function SwatchGrid(palette: seq<Rgb>, cols: int, markerBg: Cell, markerFg: Cell): seq<Swatch>
    requires cols >= 1
  {
    seq(|palette|, k requires 0 <= k < |palette| => SwatchAt(palette, cols, markerBg, markerFg, k))
  }

  /** The state transition of select(x, y, fg): when the lookup finds an
      entry, exactly one of the two selections takes its colour and the
      cell (x, y); otherwise nothing changes. */
  function PaletteSelect(s: PaletteState, palette: seq<Rgb>, cols: int, x: int, y: int, fg: bool): PaletteState
  {
    match PaletteLookup(|palette|, cols, x, y)
    case Found(k) =>
      if fg then s.(selectedFg := palette[k], markerFg := (x, y))
      else s.(selectedBg := palette[k], markerBg := (x, y))
    case _ => s
  }

  /** An index past the last entry returns early, and one below -n raises
      before any assignment: in both cases every field (both markers, both
      colours) is unchanged. */
  lemma SelectMissUnchanged(s: PaletteState, palette: seq<Rgb>, cols: int, x: int, y: int, fg: bool)
    requires LinearIndex(x, y, cols) > |palette| - 1 || LinearIndex(x, y, cols) < -|palette|
    ensures PaletteSelect(s, palette, cols, x, y, fg) == s
  {
  }

  /** A found entry updates exactly the chosen selection: with fg its colour
      and (x, y) become the foreground selection, otherwise the background
      one, and the other selection is kept. */
  lemma SelectUpdatesOneChannel(s: PaletteState, palette: seq<Rgb>, cols: int, x: int, y: int, fg: bool)
    requires 0 <= LinearIndex(x, y, cols) < |palette|
    ensures var t := PaletteSelect(s, palette, cols, x, y, fg);
            var c := palette[LinearIndex(x, y, cols)];
            if fg then t == PaletteState(s.markerBg, (x, y), s.selectedBg, c)
            else t == PaletteState((x, y), s.markerFg, c, s.selectedFg)
  {
  }

  /** A negative flat index in [-n, 0) selects the entry counted from the
      end, as numpy indexing does. */
  lemma SelectWraps(s: PaletteState, palette: seq<Rgb>, cols: int, x: int, y: int, fg: bool)
    requires -|palette| <= LinearIndex(x, y, cols) < 0
    ensures var t := PaletteSelect(s, palette, cols, x, y, fg);
            var c := palette[|palette| + LinearIndex(x, y, cols)];
            if fg then t == PaletteState(s.markerBg, (x, y), s.selectedBg, c)
            else t == PaletteState((x, y), s.markerFg, c, s.selectedFg)
  {
  }

  /** The two selections are independent: a foreground select and a
      background select give the same state in either order. */
  lemma SelectChannelsCommute(s: PaletteState, palette: seq<Rgb>, cols: int, a: Cell, b: Cell)
    ensures PaletteSelect(PaletteSelect(s, palette, cols, a.0, a.1, true), palette, cols, b.0, b.1, false)
         == PaletteSelect(PaletteSelect(s, palette, cols, b.0, b.1, false), palette, cols, a.0, a.1, true)
  {
  }

  /** Selecting A, then B, then A again on one channel restores the state
      after the first A, provided A finds an entry. */
  lemma SelectRoundTrip(s: PaletteState, palette: seq<Rgb>, cols: int, a: Cell, b: Cell, fg: bool)
    requires PaletteLookup(|palette|, cols, a.0, a.1).Found?
    ensures var t := PaletteSelect(s, palette, cols, a.0, a.1, fg);
            PaletteSelect(PaletteSelect(t, palette, cols, b.0, b.1, fg), palette, cols, a.0, a.1, fg) == t
  {
  }

  /** Redraw fills each entry exactly once, in row-major order: swatch k
      holds entry k's colour in the one in-column cell of flat index k, and
      lies within the RowCount(n, cols) rows of the grid. */
  lemma SwatchLayout(palette: seq<Rgb>, cols: int, markerBg: Cell, markerFg: Cell, k: int, x: int, y: int)
    requires cols >= 1 && 0 <= k < |palette|
    ensures var g := SwatchGrid(palette, cols, markerBg, markerFg);
            |g| == |palette| && g[k].color == palette[k] &&
            0 <= g[k].row < RowCount(|palette|, cols) &&
            ((g[k].col, g[k].row) == (x, y) <==> 0 <= x < cols && LinearIndex(x, y, cols) == k)
  {
    CellOfIff(k, cols, x, y);
    var c := CellOf(k, cols);
    if c.1 >= RowCount(|palette|, cols) {
      MulMonotone(RowCount(|palette|, cols), c.1, cols);
      assert false;
    }
  }

  /** Row-major order: a later swatch lies in a later row, or further right
      in the same row. */
  lemma SwatchOrder(palette: seq<Rgb>, cols: int, markerBg: Cell, markerFg: Cell, i: int, j: int)
    requires cols >= 1 && 0 <= i < j < |palette|
    ensures var g := SwatchGrid(palette, cols, markerBg, markerFg);
            g[i].row < g[j].row || (g[i].row == g[j].row && g[i].col < g[j].col)
  {
    var ci, cj := CellOf(i, cols), CellOf(j, cols);
    if ci.1 > cj.1 {
      MulMonotone(cj.1 + 1, ci.1, cols);
      assert false;
    }
  }

  /** A cell of the rows x cols grid is filled exactly when its flat index
      is at most n - 1; the cells after the last entry are skipped. */
  lemma CellFilledIff(palette: seq<Rgb>, cols: int, markerBg: Cell, markerFg: Cell, x: int, y: int)
    requires cols >= 1 && 0 <= x < cols && 0 <= y < RowCount(|palette|, cols)
    ensures var g := SwatchGrid(palette, cols, markerBg, markerFg);
            (exists k :: 0 <= k < |g| && g[k].col == x && g[k].row == y)
            <==> LinearIndex(x, y, cols) <= |palette| - 1
  {
    var g := SwatchGrid(palette, cols, markerBg, markerFg);
    var i := LinearIndex(x, y, cols);
    assert 0 <= i by { MulMonotone(0, y, cols); }
    if i <= |palette| - 1 {
      CellOfIff(i, cols, x, y);
      assert g[i].col == x && g[i].row == y;
    } else {
      forall k | 0 <= k < |g|
        ensures !(g[k].col == x && g[k].row == y)
      {
        CellOfIff(k, cols, x, y);
      }
    }
  }

  /** Outlines: a swatch gets the background outline exactly when the
      background marker is its cell, and the foreground outline exactly
      when the foreground marker is its cell and the background marker is
      not. */
  lemma OutlinePrecedence(palette: seq<Rgb>, cols: int, markerBg: Cell, markerFg: Cell, k: int)
    requires cols >= 1 && 0 <= k < |palette|
    ensures var h := SwatchGrid(palette, cols, markerBg, markerFg)[k].highlight;
            var onBg := 0 <= markerBg.0 < cols && LinearIndex(markerBg.0, markerBg.1, cols) == k;
            var onFg := 0 <= markerFg.0 < cols && LinearIndex(markerFg.0, markerFg.1, cols) == k;
            (h == BgOutline <==> onBg) && (h == FgOutline <==> onFg && !onBg) && (h == Plain <==> !onBg && !onFg)
  {
    CellOfIff(k, cols, markerBg.0, markerBg.1);
    CellOfIff(k, cols, markerFg.0, markerFg.1);
  }

  /** After a select that finds entry k through an in-column cell, swatch k
      shows the selected colour with that selection's outline, except that
      a foreground selection on the background marker's cell shows the
      background outline. */
  lemma SelectionOutlined(s: PaletteState, palette: seq<Rgb>, cols: int, x: int, y: int, fg: bool)
    requires cols >= 1 && 0 <= x < cols && 0 <= LinearIndex(x, y, cols) < |palette|
    ensures var t := PaletteSelect(s, palette, cols, x, y, fg);
            var w := SwatchGrid(palette, cols, t.markerBg, t.markerFg)[LinearIndex(x, y, cols)];
            (fg ==> w.color == t.selectedFg && w.highlight == (if s.markerBg == (x, y) then BgOutline else FgOutline)) &&
            (!fg ==> w.color == t.selectedBg && w.highlight == BgOutline)
  {
    CellOfIff(LinearIndex(x, y, cols), cols, x, y);
  }

  /** A 216-entry palette in 15 columns: 14 full rows leave a remainder of
      6, so a 15th row is added. */
  lemma RowCountExample()
    ensures RowCount(216, 15) == 15
  {
  }

  class Palette {
    const palette: seq<Rgb>
    const cols: int
    var markerBg: Cell
    var markerFg: Cell
    var selectedBg: Rgb
    var selectedFg: Rgb
    /** The abstract content of the rendered surface. */
    var surface: seq<Swatch>

    ghost predicate Valid()
    {
      |palette| >= 1 && cols >= 1
    }

    function State(): PaletteState
      reads this
    {
      PaletteState(markerBg, markerFg, selectedBg, selectedFg)
    }

    /** The palette resource and the column count derived from the widget's
        size are given here. Both markers start at the origin and both
        colours are black; the constructor redraws. */
    constructor (palette: seq<Rgb>, cols: int)
      requires |palette| >= 1 && cols >= 1
      ensures Valid()
      ensures this.palette == palette && this.cols == cols
      ensures State() == PaletteState((0, 0), (0, 0), Black, Black)
      ensures surface == SwatchGrid(palette, cols, (0, 0), (0, 0))
    {
      markerBg, markerFg := (0, 0), (0, 0);
      selectedBg, selectedFg := Black, Black;
      this.palette := palette;
      this.cols := cols;
      new;
      Redraw();
    }

    /** A grid of RowCount(n, cols) rows visited row by row, column by
        column; cells whose flat index is past the last entry are skipped. */
    method Redraw()
      requires Valid()
      modifies this`surface
      ensures surface == SwatchGrid(palette, cols, markerBg, markerFg)
    {
      var n := |palette|;
      var rows := RowCount(n, cols);
      var out: seq<Swatch> := [];
      for row := 0 to rows
        invariant |out| == Min(row * cols, n)
        invariant forall k :: 0 <= k < |out| ==> out[k] == SwatchAt(palette, cols, markerBg, markerFg, k)
      {
        for column := 0 to cols
          invariant |out| == Min(row * cols + column, n)
          invariant forall k :: 0 <= k < |out| ==> out[k] == SwatchAt(palette, cols, markerBg, markerFg, k)
        {
          if row * cols + column > n - 1 {
            continue;
          }
          CellOfIff(row * cols + column, cols, column, row);
          var color := palette[row * cols + column];
          out := out + [Swatch(column, row, color, HighlightOf((column, row), markerBg, markerFg))];
        }
        assert (row + 1) * cols == row * cols + cols;
      }
      surface := out;
    }

    /** Checks only the upper bound of the flat index; a found entry becomes
        the foreground or the background selection and the surface is
        redrawn. `raised` reports the IndexError a flat index below -n
        raises to the caller, with nothing changed. */
    method Select(x: int, y: int, fg: bool) returns (raised: bool)
      requires Valid()
      modifies this`markerBg, this`markerFg, this`selectedBg, this`selectedFg, this`surface
      ensures raised <==> PaletteLookup(|palette|, cols, x, y) == Raises
      ensures State() == PaletteSelect(old(State()), palette, cols, x, y, fg)
      ensures surface == if PaletteLookup(|palette|, cols, x, y).Found?
                         then SwatchGrid(palette, cols, markerBg, markerFg)
                         else old(surface)
    {
      raised := false;
      var n := |palette|;
      if cols * y + x > n - 1 {
        return;
      }
      var k := PyIndex(cols * y + x, n);
      if k.None? {
        raised := true;
        return;
      }
      var color := palette[k.value];
      if fg {
        selectedFg := color;
        markerFg := (x, y);
      } else {
        selectedBg := color;
        markerBg := (x, y);
      }
      Redraw();
    }
  }
}
