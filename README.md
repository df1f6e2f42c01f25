# ANSIcht picker widgets in Dafny

ANSIcht is a small ANSI-art editor. Its editor window holds two grid pickers, both defined in `ansicht/ui.py`:

- **CharacterMap** is the glyph picker. It holds a fixed table of 258 glyphs laid out row-major in `cols` square cells of `sq` pixels. It keeps a `marker` cell and the `selected` glyph.
- **Palette** is the colour picker. It holds a sequence of RGB triples laid out row-major in `cols` columns. It keeps two independent selections: a foreground colour with its marker, and a background colour with its marker.

The host forwards clicks as grid coordinates `(x, y)` to `select`. Each successful `select` redraws the whole widget.

This project models both widgets as Dafny classes:

- `CharacterMapWidget.CharacterMap` and `PaletteWidget.Palette` hold the fields the source updates in place.
- Each `Select` method is proved against a pure state-transition function (`CharSelect`, `PaletteSelect`).
- Each `Redraw` method runs the source's loops and is proved to build exactly a closed-form layout (`GlyphGrid`, `SwatchGrid`). `CharacterMap.Redraw` uses the pixel counters `x`, `y`, advanced by `sq`. `Palette.Redraw` uses nested `for` loops over rows and columns, with the skip past the last entry.
- The rendered surface is an abstract sequence of placed cells: cell, item, outline. It contains no pixels.
- The shared integer arithmetic lives in module `Grid`: the flat index `y * cols + x`, the cell of the i-th item, the ceiling row count, and Python's rule for negative subscripts.

Behaviour pinned down as the code has it:

- **`CharacterMap.select` on an out-of-range index.** The code assigns `marker` before the lookup (ansicht/ui.py:61-62), so a failed lookup still moves the marker. The selected glyph stays the same and the surface is not redrawn. A no-op would be the natural reading; the code moves the marker anyway. `StaleAfterMiss` shows that the kept surface then disagrees with the moved marker whenever the old marker was outlined on it. The old marker was outlined when it lay within the columns and had a flat index in `[0, len)`.
- **Negative flat indices.** For both widgets, an index in `[-n, 0)` counts from the end of the table, as Python and numpy subscripts do.
- **`Palette.select` below `-n`.** `Palette.select` checks only the upper bound (ansicht/ui.py:83). A flat index below `-n` therefore raises `IndexError` to the caller before any field is assigned. `Palette.Select` reports this case as `raised == true` and leaves the state unchanged.
- **Selections that do not outline the selected cell.** A select can succeed with a column `x` outside `[0, cols)`, or through a wrapped negative index. Such a select changes the selection, but the redraw outlines no cell for that selection, because no drawn cell equals its marker. A `Palette` redraw still outlines the other channel's marker cell.

## Model

| member | source | states |
|---|---|---|
| `Grid.CellOf` | ansicht/ui.py:47-57 | the cell of item i lies in a column in `[0, cols)`, in a non-negative row for i >= 0, and its flat index is i |
| `Grid.CellOfIff` | ansicht/ui.py:55-62 | cell-of-index and index-of-cell are inverse: `CellOf(i) == (x, y)` exactly when `0 <= x < cols` and `y*cols + x == i` |
| `Grid.ExactQuotient` | ansicht/ui.py:51-55 | a pixel counter that is a multiple of `sq` divides back to a whole cell number, so `x / sq` names the column exactly |
| `Grid.PyIndex` | ansicht/ui.py:62 | a subscript succeeds exactly on `[-n, n)`, a non-negative index is used as is, and a negative one counts from the end |
| `Grid.RowCount` | ansicht/ui.py:97-99 | truncated quotient plus one row when the remainder is positive, bounded by `(rows-1)*cols < n <= rows*cols` |
| `Grid.RowCountIsCeiling` | ansicht/ui.py:97-99 | the row count equals the ceiling `(n + cols - 1) / cols` |
| `Grid.RowCountUnique` | ansicht/ui.py:97-99 | the ceiling bounds determine the row count uniquely |
| `CharacterMapWidget.GlyphTable` | ansicht/ui.py:35-39 | the glyph table has 258 glyphs and begins with a space |
| `CharacterMapWidget.InitialIsSelectOrigin` | ansicht/ui.py:35-41 | the initial state (marker at the origin, a space selected) is what `select(0, 0)` produces from any state |
| `CharacterMapWidget.GlyphPlacement` | ansicht/ui.py:47-57 | redraw places every glyph once, in order; glyph i sits in the one in-column cell whose flat index is i |
| `CharacterMapWidget.RowAdvance` | ansicht/ui.py:51-53 | the next glyph goes one column right, or to column 0 of the next row exactly after column `cols - 1` |
| `CharacterMapWidget.HighlightIff` | ansicht/ui.py:55-56 | glyph i is outlined exactly when the marker is an in-column cell with flat index i |
| `CharacterMapWidget.AtMostOneHighlight` | ansicht/ui.py:55-56 | no two glyphs are outlined at once |
| `CharacterMapWidget.ClickSelectsDrawnGlyph` | ansicht/ui.py:47-63 | selecting the cell a glyph was drawn in selects that glyph and outlines it |
| `CharacterMapWidget.SelectHit` | ansicht/ui.py:59-63 | with `0 <= y*cols + x < len`, the marker becomes `(x, y)` and the selected glyph is `chars[y*cols + x]` |
| `CharacterMapWidget.SelectWraps` | ansicht/ui.py:62 | with `-len <= y*cols + x < 0`, the selected glyph is `chars[len + y*cols + x]` |
| `CharacterMapWidget.SelectMiss` | ansicht/ui.py:60-65 | with the index `>= len` or `< -len`, no redraw happens and the selected glyph is kept, yet the marker moves to `(x, y)` |
| `CharacterMapWidget.SelectRoundTrip` | ansicht/ui.py:59-63 | selecting A (a hit), then any B, then A again restores the state after the first A |
| `CharacterMapWidget.SelectIdempotent` | ansicht/ui.py:59-63 | selecting the same cell twice equals selecting it once |
| `CharacterMapWidget.SelectionOutline` | ansicht/ui.py:55-62 | after a hit, glyph i is outlined exactly when `0 <= x < cols` and `y*cols + x == i`, and the outlined glyph is the selected one |
| `CharacterMapWidget.StaleAfterMiss` | ansicht/ui.py:60-65 | after a miss, the surface kept from before differs from a redraw with the moved marker whenever the old marker was outlined |
| `CharacterMapWidget.CharacterMap.constructor` | ansicht/ui.py:28-42 | the glyph table is installed, the marker is at the origin, a space is selected, and the surface is the full layout |
| `CharacterMapWidget.CharacterMap.Redraw` | ansicht/ui.py:44-57 | the pixel-counter walk with its wrap at `cols*sq` builds exactly `GlyphGrid` for the current marker |
| `CharacterMapWidget.CharacterMap.Select` | ansicht/ui.py:59-65 | the new marker and glyph are `CharSelect` of the old state; the surface is redrawn on a hit and untouched on an IndexError |
| `PaletteWidget.PaletteLookup` | ansicht/ui.py:83-85 | an index `> n-1` returns early, an index `< -n` raises, and otherwise the entry is found, counted from the end when the index is negative |
| `PaletteWidget.SelectMissUnchanged` | ansicht/ui.py:82-85 | an index past the last entry or below `-n` leaves both markers and both colours unchanged |
| `PaletteWidget.SelectUpdatesOneChannel` | ansicht/ui.py:85-91 | with fg, the foreground colour and marker take `palette[cols*y + x]` and `(x, y)` and the background pair is kept; without fg, the reverse |
| `PaletteWidget.SelectWraps` | ansicht/ui.py:85-91 | an index in `[-n, 0)` selects the entry counted from the end, on the chosen channel only |
| `PaletteWidget.SelectChannelsCommute` | ansicht/ui.py:86-91 | a foreground select and a background select give the same state in either order |
| `PaletteWidget.SelectRoundTrip` | ansicht/ui.py:85-91 | on one channel, selecting A (found), then B, then A restores the state after the first A |
| `PaletteWidget.SwatchLayout` | ansicht/ui.py:102-107 | redraw fills each entry once; swatch k has colour `palette[k]`, sits in the one in-column cell of flat index k, and lies in a row below the row count |
| `PaletteWidget.SwatchOrder` | ansicht/ui.py:102-103 | swatches come in row-major order |
| `PaletteWidget.CellFilledIff` | ansicht/ui.py:102-105 | a cell of the rows by cols grid is filled exactly when its flat index is at most `n-1` |
| `PaletteWidget.OutlinePrecedence` | ansicht/ui.py:108-115 | a swatch gets the background outline exactly on the background marker's cell, and the foreground outline exactly on the foreground marker's cell when that is not also the background marker's |
| `PaletteWidget.SelectionOutlined` | ansicht/ui.py:85-115 | after an in-column select, the chosen swatch shows the selected colour with its channel's outline, the background outline winning on a shared cell |
| `PaletteWidget.RowCountExample` | ansicht/ui.py:97-99 | 216 entries in 15 columns need 15 rows |
| `PaletteWidget.Palette.constructor` | ansicht/ui.py:69-80 | both markers are at the origin, both colours are black, and the surface is the full layout |
| `PaletteWidget.Palette.Redraw` | ansicht/ui.py:94-115 | the nested row and column loops, skipping indices past `n-1`, build exactly `SwatchGrid` for the current markers |
| `PaletteWidget.Palette.Select` | ansicht/ui.py:82-92 | the new state is `PaletteSelect` of the old; `raised` holds exactly when the index is below `-n`; the surface is redrawn only when an entry is found |

## Left out

- Pixel drawing is not modelled: `pygame.Surface`, `fill`, `font.render`, `blit` and `pygame.draw.rect`. The surface is an abstract sequence of cells with their item and outline.
- Outline colours are not modelled.
- The ¼-cell glyph offset and the trailing-space pad are not modelled.
- The `CharacterMap` column count and cell edge are given integers `cols >= 1` and `sq >= 1`. The source derives them from a font metric (`font.size(" ")`) and a float `round`.
- The `Palette` column count is a given constant `cols >= 1`. The source's `redraw` recomputes it from `w`, `h` and the palette size with `np.sqrt` and `round`. These inputs never change, so every redraw assigns the same value. The float cell edge `sq` and the surface width are not modelled.
- The palette resource `def_palette` (from `ansicht.resources`) is not part of this model. It is a constructor parameter: any non-empty sequence of RGB triples. The widths `w` and `h` are not modelled, since only the left-out geometry uses them.
- `Grid.RowCount` models the truncating `int(n / cols)` in exact integer arithmetic. Float rounding for very large counts is not modelled.
- `Palette.Select` takes `fg` as an explicit argument. The source gives it the default `fg=False` (ansicht/ui.py:82), so a plain `select(x, y)` picks the background channel, which is `Select(x, y, false)` here.
- `SettingsDialog` and `open_settings_dialog` are not modelled. They are a tkinter modal dialog, with I/O through the toolkit and `print`.
- `setup.py` holds packaging metadata only.
