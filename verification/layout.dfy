/**
  Address translation of Array2D: where cell (row, col) lives in the flat
  buffer of height*width elements.

  Row-major storage puts cell (row, col) at col + row*width, column-major
  storage at row + col*height. Every access of the package reduces to this
  translation, so this module proves it is a bijection between the cells
  [0, height) x [0, width) and the offsets [0, height*width), and describes
  where a whole row or column lies in the buffer.
 */
module Layout {
  import Transfer

  // ---------------------------------------------------------------------
  // Arithmetic facts the translation needs
  // ---------------------------------------------------------------------

  /** Multiplying by the same factor keeps the order. */
  lemma {:induction false} MulMono(a: nat, b: nat, n: nat)
    requires a <= b
    ensures a * n <= b * n
  {
    if n > 0 {
      MulMono(a, b, n - 1);
      assert a * n == a * (n - 1) + a;
      assert b * n == b * (n - 1) + b;
    }
  }

  /** q*n + r with 0 <= r < n determines the quotient and remainder. */
  lemma DivModUnique(x: nat, n: nat, q: nat, r: nat)
    requires 0 <= r < n && x == q * n + r
    ensures x / n == q && x % n == r
  {
    var q', r' := x / n, x % n;
    assert x == q' * n + r';
    assert (q' + 1) * n == q' * n + n;
    assert (q + 1) * n == q * n + n;
    if q' < q {
      MulMono(q' + 1, q, n);
    } else if q < q' {
      MulMono(q + 1, q', n);
    }
  }

  /** A translated offset stays inside a buffer of height*width elements. */
  lemma OffsetBound(height: nat, width: nat, row: nat, col: nat)
    requires row < height && col < width
    ensures col + row * width < height * width
    ensures row + col * height < height * width
  {
    MulMono(row + 1, height, width);
    assert (row + 1) * width == row * width + width;
    assert height * width == width * height;
    MulMono(col + 1, width, height);
    assert (col + 1) * height == col * height + height;
  }

  /** An offset below height*width has a quotient below width when divided by height. */
  lemma DivBound(off: nat, height: nat, width: nat)
    requires off < height * width
    ensures height > 0 && width > 0
    ensures off / height < width && off % height < height
  {
    assert height == 0 || width == 0 ==> height * width == 0;
    var q := off / height;
    assert q * height <= off;
    assert width * height == height * width;
    if width <= q {
      MulMono(width, q, height);
    }
  }

  // ---------------------------------------------------------------------
  // The translation and its inverse
  // ---------------------------------------------------------------------

  /** The buffer index of cell (row, col): getUnchecked/setUnchecked. */
  function Offset(height: nat, width: nat, colMajor: bool, row: nat, col: nat): (off: nat)
    requires row < height && col < width
    ensures off < height * width
  {
    OffsetBound(height, width, row, col);
    if colMajor then row + col * height else col + row * width
  }

  /** The cell stored at buffer index off. */
  function CellOf(height: nat, width: nat, colMajor: bool, off: nat): (cell: (nat, nat))
    requires off < height * width
    ensures cell.0 < height && cell.1 < width
  {
    DivBound(off, height, width);
    assert height * width == width * height;
    DivBound(off, width, height);
    if colMajor then (off % height, off / height) else (off / width, off % width)
  }

  /** Translating a cell and translating back gives the cell again. */
  lemma CellOfOffset(height: nat, width: nat, colMajor: bool, row: nat, col: nat)
    requires row < height && col < width
    ensures CellOf(height, width, colMajor, Offset(height, width, colMajor, row, col)) == (row, col)
  {
    var off := Offset(height, width, colMajor, row, col);
    if colMajor {
      DivModUnique(off, height, col, row);
    } else {
      DivModUnique(off, width, row, col);
    }
  }

  /** Every offset of the buffer is the translation of the cell CellOf names. */
  lemma OffsetCellOf(height: nat, width: nat, colMajor: bool, off: nat)
    requires off < height * width
    ensures var cell := CellOf(height, width, colMajor, off);
      Offset(height, width, colMajor, cell.0, cell.1) == off
  {
    DivBound(off, height, width);
    assert height * width == width * height;
    DivBound(off, width, height);
  }

  /** The only buffer slot that CellOf maps back to (row, col) is the translation of (row, col). */
  lemma SlotOfCell(height: nat, width: nat, colMajor: bool, row: nat, col: nat)
    requires row < height && col < width
    ensures forall off: nat :: off < height * width && CellOf(height, width, colMajor, off) == (row, col) ==>
      off == Offset(height, width, colMajor, row, col)
  {
  }

  /** Two different cells never share a buffer slot. */
  lemma OffsetInjective(height: nat, width: nat, colMajor: bool, r1: nat, c1: nat, r2: nat, c2: nat)
    requires r1 < height && c1 < width && r2 < height && c2 < width
    ensures Offset(height, width, colMajor, r1, c1) == Offset(height, width, colMajor, r2, c2)
            <==> r1 == r2 && c1 == c2
  {
    CellOfOffset(height, width, colMajor, r1, c1);
    CellOfOffset(height, width, colMajor, r2, c2);
  }

  /**
    In row-major order the slots [row*width + lo, row*width + hi) are exactly
    the cells (row, lo) .. (row, hi-1): a row span is contiguous and holds
    nothing else.
   */
  lemma RowSpan(height: nat, width: nat, row: nat, lo: nat, hi: nat, r: nat, c: nat)
    requires row < height && lo <= hi <= width && r < height && c < width
    ensures row * width + lo <= Offset(height, width, false, r, c) < row * width + hi
            <==> r == row && lo <= c < hi
  {
    var off := Offset(height, width, false, r, c);
    if row * width + lo <= off < row * width + hi {
      var k := off - row * width;
      OffsetInjective(height, width, false, r, c, row, k);
    }
  }

  /** In column-major order column col is the contiguous run starting at col*height. */
  lemma ColSpan(height: nat, width: nat, col: nat, r: nat, c: nat)
    requires col < width && r < height && c < width
    ensures col * height <= Offset(height, width, true, r, c) < col * height + height
            <==> c == col
  {
    var off := Offset(height, width, true, r, c);
    if col * height <= off < col * height + height {
      var k := off - col * height;
      OffsetInjective(height, width, true, r, c, k, col);
    }
  }

  // ---------------------------------------------------------------------
  // Rows and columns of a buffer
  // ---------------------------------------------------------------------

  /**
    The elements of row `row`, in column order. In row-major order they are
    the contiguous run that Array2D.Row returns as an alias.
   */
  function RowOf<T>(buf: seq<T>, height: nat, width: nat, colMajor: bool, row: nat): (r: seq<T>)
    requires |buf| == height * width && row < height
    ensures |r| == width
    ensures forall c :: 0 <= c < width ==> r[c] == buf[Offset(height, width, colMajor, row, c)]
    ensures !colMajor ==> row * width + width <= |buf| && r == buf[row * width .. row * width + width]
  {
    MulMono(row + 1, height, width);
    seq(width, c requires 0 <= c < width => buf[Offset(height, width, colMajor, row, c)])
  }

  /**
    The elements of column `col`, in row order. In column-major order they are
    the contiguous run that Array2D.Col returns as an alias.
   */
  function ColOf<T>(buf: seq<T>, height: nat, width: nat, colMajor: bool, col: nat): (r: seq<T>)
    requires |buf| == height * width && col < width
    ensures |r| == height
    ensures forall row :: 0 <= row < height ==> r[row] == buf[Offset(height, width, colMajor, row, col)]
    ensures colMajor ==> col * height + height <= |buf| && r == buf[col * height .. col * height + height]
  {
    MulMono(col + 1, width, height);
    assert width * height == height * width;
    seq(height, r requires 0 <= r < height => buf[Offset(height, width, colMajor, r, col)])
  }

  /** The buffer offsets of row `row`, in column order: the reads of Rows.Scan's element loop. */
  function RowOffsets(height: nat, width: nat, colMajor: bool, row: nat): (offs: seq<nat>)
    requires row < height
    ensures |offs| == width && Transfer.Within(offs, height * width)
  {
    seq(width, c requires 0 <= c < width => Offset(height, width, colMajor, row, c))
  }

  /** The buffer offsets of column `col`, in row order: the reads of Cols.Scan's element loop. */
  function ColOffsets(height: nat, width: nat, colMajor: bool, col: nat): (offs: seq<nat>)
    requires col < width
    ensures |offs| == height && Transfer.Within(offs, height * width)
  {
    seq(height, r requires 0 <= r < height => Offset(height, width, colMajor, r, col))
  }

  /** Reading a row through its offsets gives the row. */
  lemma GatherRow<T>(buf: seq<T>, height: nat, width: nat, colMajor: bool, row: nat)
    requires |buf| == height * width && row < height
    ensures Transfer.Gather(buf, RowOffsets(height, width, colMajor, row)) == RowOf(buf, height, width, colMajor, row)
  {
  }

  /** Reading a column through its offsets gives the column. */
  lemma GatherCol<T>(buf: seq<T>, height: nat, width: nat, colMajor: bool, col: nat)
    requires |buf| == height * width && col < width
    ensures Transfer.Gather(buf, ColOffsets(height, width, colMajor, col)) == ColOf(buf, height, width, colMajor, col)
  {
  }
}
