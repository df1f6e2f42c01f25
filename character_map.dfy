/** The glyph picker of ansicht/ui.py (class CharacterMap): a fixed string of
    glyphs laid out row-major in a grid of `cols` square cells of edge `sq`
    pixels, a marker cell and the selected glyph. Rendering is modelled as
    the sequence of cells the redraw loop places, not as pixels. */
module CharacterMapWidget {
  import opened Grid

  /** The hard-coded glyph table: letters, digits, punctuation, box-drawing
      and block characters, in this order. */
  const Glyphs: string := " " + "ABCDEFGHIJKLMNOPQRSTUVWXYZabcdefghijklmnopqrstuvwxyz"
    + "1234567890!§$%&/()=?`´+#-.,;:_'*²³{[]}\\~@<>|^°"
    + "─━│┃┄┅┆┇┈┉┊┋┌┍┎┏┐┑┒┓└┕┖┗┘┙┚┛├┝┞┟┠┡┢┣┤┥┦┧┨┩┪┫┬┭┮┯┰┱┲┳┴┵┶┷┸┹┺┻┼┽┾┿╀╁╂╃╄╅╆╇╈╉╊╋╌╍╎╏═║╒╓╔╕╖╗╘╙╚╛╜╝╞╟╠╡╢╣╤╥╦╧╨╩╪╫╬╭╮╯╰╱╲╳╴╵╶╷╸╹╺╻╼╽╾╿▀▁▂▃▄▅▆▇█▉▊▋▌▍▎▐░▒▓▔▕▖▗▘▙▚▛▜▝▞▟"

  /** One glyph as redraw places it: its grid cell, the glyph, and whether
      the cell carries the marker outline. */
  datatype GlyphCell = GlyphCell(col: int, row: int, glyph: char, highlighted: bool)

  /** The selection state a click changes. */
  datatype CharMapState = CharMapState(marker: Cell, selected: char)

  /** The i-th glyph of the layout: in cell CellOf(i), outlined when that
      cell is the marker. */
  function GlyphAt(chars: string, cols: int, marker: Cell, i: int): GlyphCell
    requires cols >= 1 && 0 <= i < |chars|
  {
    var c := CellOf(i, cols);
    GlyphCell(c.0, c.1, chars[i], c == marker)
  }

  /** What a full redraw places, glyph by glyph. */
  function GlyphGrid(chars: string, cols: int, marker: Cell): seq<GlyphCell>
    requires cols >= 1
  {
    seq(|chars|, i requires 0 <= i < |chars| => GlyphAt(chars, cols, marker, i))
  }

  /** The state transition of select(x, y): the marker always moves to
      (x, y), since it is assigned before the lookup; the selected glyph
      changes only when the flat index is a valid Python subscript, and
      otherwise the IndexError is swallowed. */
  function CharSelect(s: CharMapState, chars: string, cols: int, x: int, y: int): CharMapState
  {
    match PyIndex(LinearIndex(x, y, cols), |chars|)
    case Some(k) => CharMapState((x, y), chars[k])
    case None => CharMapState((x, y), s.selected)
  }

  /** Whether select(x, y) finds a glyph (and therefore redraws). */
  predicate Hits(chars: string, cols: int, x: int, y: int)
  {
    PyIndex(LinearIndex(x, y, cols), |chars|).Some?
  }

  /** The table has 258 glyphs and starts with a space, so the initial
      selection is the glyph at the origin. */
  lemma GlyphTable()
    ensures |Glyphs| == 258 && Glyphs[0] == ' '
  {
  }

  /** The initial state (marker at the origin, a space selected) is the
      state select(0, 0) produces from any state. */
  lemma InitialIsSelectOrigin(s: CharMapState, cols: int)
    ensures CharSelect(s, Glyphs, cols, 0, 0) == CharMapState((0, 0), ' ')
  {
    GlyphTable();
  }

  /** Layout: the grid has one entry per glyph, in order, and the i-th
      glyph sits in the one in-column cell whose flat index is i. */
  lemma GlyphPlacement(chars: string, cols: int, marker: Cell, i: int, x: int, y: int)
    requires cols >= 1 && 0 <= i < |chars|
    ensures |GlyphGrid(chars, cols, marker)| == |chars|
    ensures GlyphGrid(chars, cols, marker)[i].glyph == chars[i]
    ensures (GlyphGrid(chars, cols, marker)[i].col, GlyphGrid(chars, cols, marker)[i].row) == (x, y)
            <==> 0 <= x < cols && LinearIndex(x, y, cols) == i
  {
    CellOfIff(i, cols, x, y);
  }

  /** The layout wraps exactly at the last column: the next glyph goes one
      cell to the right, or to column 0 of the next row after column
      cols - 1. */
  lemma RowAdvance(chars: string, cols: int, marker: Cell, i: int)
    requires cols >= 1 && 0 <= i && i + 1 < |chars|
    ensures var g, h := GlyphGrid(chars, cols, marker)[i], GlyphGrid(chars, cols, marker)[i + 1];
            if g.col == cols - 1 then h.col == 0 && h.row == g.row + 1
            else h.col == g.col + 1 && h.row == g.row
  {
    var c := CellOf(i, cols);
    if c.0 == cols - 1 {
      DivModUnique(i + 1, cols, c.1 + 1, 0);
    } else {
      DivModUnique(i + 1, cols, c.1, c.0 + 1);
    }
  }

  /** Only the marker's cell is outlined: entry i is highlighted exactly
      when the marker is an in-column cell with flat index i. */
  lemma HighlightIff(chars: string, cols: int, marker: Cell, i: int)
    requires cols >= 1 && 0 <= i < |chars|
    ensures GlyphGrid(chars, cols, marker)[i].highlighted
            <==> 0 <= marker.0 < cols && LinearIndex(marker.0, marker.1, cols) == i
  {
    CellOfIff(i, cols, marker.0, marker.1);
  }

  /** At most one glyph is outlined. */
  lemma AtMostOneHighlight(chars: string, cols: int, marker: Cell, i: int, j: int)
    requires cols >= 1 && 0 <= i < |chars| && 0 <= j < |chars|
    requires GlyphGrid(chars, cols, marker)[i].highlighted
    requires GlyphGrid(chars, cols, marker)[j].highlighted
    ensures i == j
  {
    HighlightIff(chars, cols, marker, i);
    HighlightIff(chars, cols, marker, j);
  }

  /** Clicking the cell in which a glyph is drawn selects that glyph and
      puts the outline on it. */
  lemma ClickSelectsDrawnGlyph(s: CharMapState, chars: string, cols: int, i: int)
    requires cols >= 1 && 0 <= i < |chars|
    ensures var g := GlyphGrid(chars, cols, s.marker)[i];
            var t := CharSelect(s, chars, cols, g.col, g.row);
            t.selected == chars[i] && GlyphGrid(chars, cols, t.marker)[i].highlighted
  {
    var g := GlyphGrid(chars, cols, s.marker)[i];
    GlyphPlacement(chars, cols, s.marker, i, g.col, g.row);
    HighlightIff(chars, cols, (g.col, g.row), i);
  }

  /** select(x, y) with a flat index in [0, len) moves the marker to (x, y)
      and selects the glyph at that index. */
  lemma SelectHit(s: CharMapState, chars: string, cols: int, x: int, y: int)
    requires 0 <= LinearIndex(x, y, cols) < |chars|
    ensures CharSelect(s, chars, cols, x, y) == CharMapState((x, y), chars[LinearIndex(x, y, cols)])
  {
  }

  /** A flat index in [-len, 0) counts from the end of the table, as a
      Python subscript does. */
  lemma SelectWraps(s: CharMapState, chars: string, cols: int, x: int, y: int)
    requires -|chars| <= LinearIndex(x, y, cols) < 0
    ensures CharSelect(s, chars, cols, x, y) == CharMapState((x, y), chars[|chars| + LinearIndex(x, y, cols)])
  {
  }

  /** On an IndexError the selected glyph is kept, but the marker has
      already moved to (x, y). */
  lemma SelectMiss(s: CharMapState, chars: string, cols: int, x: int, y: int)
    requires LinearIndex(x, y, cols) >= |chars| || LinearIndex(x, y, cols) < -|chars|
    ensures !Hits(chars, cols, x, y)
    ensures CharSelect(s, chars, cols, x, y) == CharMapState((x, y), s.selected)
  {
  }

  /** A successful select does not depend on the earlier state; so
      selecting A, then anything, then A again gives the state after the
      first A. */
  lemma SelectRoundTrip(s: CharMapState, chars: string, cols: int, a: Cell, b: Cell)
    requires Hits(chars, cols, a.0, a.1)
    ensures var t := CharSelect(s, chars, cols, a.0, a.1);
            CharSelect(CharSelect(t, chars, cols, b.0, b.1), chars, cols, a.0, a.1) == t
  {
  }

  /** Selecting the same cell twice is the same as selecting it once. */
  lemma SelectIdempotent(s: CharMapState, chars: string, cols: int, x: int, y: int)
    ensures var t := CharSelect(s, chars, cols, x, y);
            CharSelect(t, chars, cols, x, y) == t
  {
  }

  /** After a successful select, the outline is on the selected glyph when
      (x, y) is an in-column cell with a non-negative index; a select that
      reached its glyph through a column past the grid or a wrapped
      negative index leaves no glyph outlined. */
  lemma SelectionOutline(s: CharMapState, chars: string, cols: int, x: int, y: int, i: int)
    requires cols >= 1 && Hits(chars, cols, x, y) && 0 <= i < |chars|
    ensures var t := CharSelect(s, chars, cols, x, y);
            GlyphGrid(chars, cols, t.marker)[i].highlighted
            <==> 0 <= x < cols && LinearIndex(x, y, cols) == i
    ensures var t := CharSelect(s, chars, cols, x, y);
            GlyphGrid(chars, cols, t.marker)[i].highlighted ==> GlyphGrid(chars, cols, t.marker)[i].glyph == t.selected
  {
    HighlightIff(chars, cols, (x, y), i);
  }

  /** A missed select leaves the old surface, which no longer matches the
      moved marker whenever the old marker was outlined on it. */
  lemma StaleAfterMiss(chars: string, cols: int, m: Cell, x: int, y: int)
    requires cols >= 1 && 0 <= m.0 < cols && 0 <= LinearIndex(m.0, m.1, cols) < |chars|
    requires !Hits(chars, cols, x, y)
    ensures GlyphGrid(chars, cols, m) != GlyphGrid(chars, cols, (x, y))
  {
    var i := LinearIndex(m.0, m.1, cols);
    HighlightIff(chars, cols, m, i);
    HighlightIff(chars, cols, (x, y), i);
  }

  class CharacterMap {
    const chars: string
    const cols: int
    const sq: int
    var marker: Cell
    var selected: char
    /** The abstract content of the rendered surface. */
    var surface: seq<GlyphCell>

    ghost predicate Valid()
    {
      cols >= 1 && sq >= 1
    }

    function State(): CharMapState
      reads this
    {
      CharMapState(marker, selected)
    }

    /** The column count and cell edge come from font metrics; they are
        given here. The initial marker is the origin and the initial glyph
        a space, and the constructor redraws. */
    constructor (cols: int, sq: int)
      requires cols >= 1 && sq >= 1
      ensures Valid()
      ensures chars == Glyphs && this.cols == cols && this.sq == sq
      ensures marker == (0, 0) && selected == ' '
      ensures surface == GlyphGrid(Glyphs, cols, (0, 0))
    {
      this.cols := cols;
      this.sq := sq;
      chars := Glyphs;
      marker := (0, 0);
      selected := ' ';
      new;
      Redraw();
    }

    /** Walks the glyphs with pixel counters x and y, starting a new row
        when x has reached cols * sq, and outlines the cell equal to the
        marker. */
    method Redraw()
      requires Valid()
      modifies this`surface
      ensures surface == GlyphGrid(chars, cols, marker)
    {
      var out: seq<GlyphCell> := [];
      var x, y := 0, 0;
      ghost var col, row := 0, 0;
      var i := 0;
      while i < |chars|
        invariant 0 <= i <= |chars|
        invariant 0 <= col <= cols && 0 <= row
        invariant x == col * sq && y == row * sq
        invariant i == LinearIndex(col, row, cols)
        invariant |out| == i
        invariant forall k :: 0 <= k < i ==> out[k] == GlyphAt(chars, cols, marker, k)
      {
        ExactQuotient(col, sq);
        if x / sq == cols {
          x, y := 0, y + sq;
          col, row := 0, row + 1;
        }
        ExactQuotient(col, sq);
        ExactQuotient(row, sq);
        CellOfIff(i, cols, col, row);
        var cell := (x / sq, y / sq);
        out := out + [GlyphCell(cell.0, cell.1, chars[i], cell == marker)];
        x := x + sq;
        col := col + 1;
        i := i + 1;
      }
      surface := out;
    }

    /** Moves the marker to (x, y) before looking the glyph up; on a hit
        the glyph is selected and the surface redrawn, on an IndexError
        neither happens. */
    method Select(x: int, y: int)
      requires Valid()
      modifies this`marker, this`selected, this`surface
      ensures State() == CharSelect(old(State()), chars, cols, x, y)
      ensures surface == if Hits(chars, cols, x, y) then GlyphGrid(chars, cols, (x, y)) else old(surface)
    {
      marker := (x, y);
      var k := PyIndex(y * cols + x, |chars|);
      if k.Some? {
        selected := chars[k.value];
        Redraw();
      }
    }
  }
}
