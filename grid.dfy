/** Integer grid arithmetic shared by the two picker widgets of ansicht/ui.py:
    the flat index of a grid cell, the cell of the i-th item, the number of
    rows a partially filled grid needs, and Python's indexing rule for
    negative subscripts. */
module Grid {

  datatype Option<+T> = None | Some(value: T)

  /** A grid coordinate: (column, row). */
  type Cell = (int, int)

  /** The flat index of cell (x, y) in a grid with `cols` columns, as both
      widgets compute it for `select` (`y * cols + x`, `cols * y + x`). */
  function LinearIndex(x: int, y: int, cols: int): int
  {
    y * cols + x
  }

  /** The cell in which the i-th item of a row-major grid lies. */
  function CellOf(i: int, cols: int): (c: Cell)
    requires cols >= 1
    ensures 0 <= c.0 < cols
    ensures LinearIndex(c.0, c.1, cols) == i
    ensures i >= 0 ==> c.1 >= 0
  {
    (i % cols, i / cols)
  }

  /** Quotient and remainder are unique: the flat index determines its cell. */
  lemma {:induction false} DivModUnique(i: int, cols: int, q: int, r: int)
    requires cols >= 1 && 0 <= r < cols && i == q * cols + r
    ensures i / cols == q && i % cols == r
  {
    var q', r' := i / cols, i % cols;
    assert i == q' * cols + r';
    assert (q - q') * cols == r' - r;
    if q > q' {
      assert (q - q') * cols >= cols by { MulAtLeast(q - q', cols); }
      assert false;
    } else if q < q' {
      assert (q' - q) * cols >= cols by { MulAtLeast(q' - q, cols); }
      assert false;
    }
  }

  lemma {:induction false} MulAtLeast(k: int, cols: int)
    requires k >= 1 && cols >= 1
    ensures k * cols >= cols
  {
    if k > 1 {
      MulAtLeast(k - 1, cols);
      assert k * cols == (k - 1) * cols + cols;
    }
  }

  /** Multiplying by a positive column count keeps the order of rows. */
  lemma {:induction false} MulMonotone(a: int, b: int, cols: int)
    requires 0 <= a <= b && cols >= 1
    ensures a * cols <= b * cols
  {
    if a < b {
      MulMonotone(a, b - 1, cols);
      assert b * cols == (b - 1) * cols + cols;
    }
  }

  /** A multiple of a positive number divides back exactly: this is why the
      pixel counters of CharacterMap.redraw, always multiples of the cell
      edge, name whole cells. */
  lemma ExactQuotient(a: int, b: int)
    requires b >= 1
    ensures (a * b) / b == a && (a * b) % b == 0
  {
    DivModUnique(a * b, b, a, 0);
  }

  /** The cell of a flat index and the flat index of a cell are inverse on
      the cells inside the grid's columns, in both directions. */
  lemma CellOfIff(i: int, cols: int, x: int, y: int)
    requires cols >= 1
    ensures CellOf(i, cols) == (x, y) <==> 0 <= x < cols && i == LinearIndex(x, y, cols)
  {
    if 0 <= x < cols && i == LinearIndex(x, y, cols) {
      DivModUnique(i, cols, y, x);
    }
  }

  /** Subscripting a Python sequence of length n with i: indices in [0, n)
      are used as they are, indices in [-n, 0) count from the end, and every
      other index raises IndexError (None). numpy arrays follow the same
      rule along their first axis. */
  function PyIndex(i: int, n: nat): (r: Option<nat>)
    ensures r.Some? <==> -(n as int) <= i < n
    ensures r.Some? ==> r.value < n
    ensures r.Some? && i >= 0 ==> r.value == i
    ensures r.Some? && i < 0 ==> r.value == n + i
  {
    if 0 <= i < n then Some(i)
    else if -(n as int) <= i < 0 then Some(n + i)
    else None
  }

  /** The row count of Palette.redraw: the truncated quotient, plus one row
      when the full rows leave a positive remainder. The result is the least
      number of rows that holds n items. */
  function RowCount(n: nat, cols: int): (rows: nat)
    requires cols >= 1
    ensures (rows - 1) * cols < n <= rows * cols
  {
    var q := n / cols;
    assert n == q * cols + n % cols && 0 <= n % cols < cols;
    if n - q * cols > 0 then
      assert (q + 1) * cols == q * cols + cols;
      q + 1
    else
      assert (q - 1) * cols == q * cols - cols;
      q
  }

  /** RowCount agrees with the textbook ceiling (n + cols - 1) / cols. */
  lemma RowCountIsCeiling(n: nat, cols: int)
    requires cols >= 1
    ensures RowCount(n, cols) == (n + cols - 1) / cols
  {
    var rows := RowCount(n, cols);
    var r := n + cols - 1 - rows * cols;
    assert 0 <= r < cols;
    DivModUnique(n + cols - 1, cols, rows, r);
  }

  /** Any row count with the ceiling bounds is RowCount's: the bounds in its
      contract pin the value down. */
  lemma RowCountUnique(n: nat, cols: int, rows: int)
    requires cols >= 1 && (rows - 1) * cols < n <= rows * cols
    ensures rows == RowCount(n, cols)
  {
    var r := n + cols - 1 - rows * cols;
    assert 0 <= r < cols;
    DivModUnique(n + cols - 1, cols, rows, r);
    RowCountIsCeiling(n, cols);
  }
}
