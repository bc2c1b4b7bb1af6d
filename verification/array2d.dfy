/**
  Package array2d: a dense two-dimensional array over one flat buffer.

  No method of Array2D assigns its height, width, layout or slice header;
  they write only the elements of the slice. These are therefore constant
  fields, and only the elements of `data` change. The Rows and Cols
  iterators hold a pointer to the array, which is a reference to the same
  object here.

  `zero` is Go's zero value of T: every constructor is given it, New fills
  the buffer with it and Get returns it out of range.
 */
module Grid {
  import opened Errors
  import Layout
  import Render
  import Cursor
  import Transfer

  function Min(a: int, b: int): int { if a <= b then a else b }
  function Max(a: int, b: int): int { if a <= b then b else a }

  /** The Go slice buf[lo:hi]: a window onto an array, shared with whoever else holds it. */
  datatype Slice<T> = Slice(buf: array<T>, lo: nat, hi: nat)
  {
    predicate Valid() { lo <= hi <= buf.Length }

    /** len() of the slice. */
    function Len(): nat
      requires Valid()
    {
      hi - lo
    }

    function Elems(): seq<T>
      reads buf
      requires Valid()
    {
      buf[lo..hi]
    }
  }

  function Pow2(n: nat): nat { if n == 0 then 1 else 2 * Pow2(n - 1) }

  /**
    fill: sets every element of the slice buf[lo:hi] to value. It writes the
    first element and then copies the filled prefix behind itself, doubling
    the filled prefix each round.
   */
  method FillSlice<E>(buf: array<E>, lo: nat, hi: nat, value: E)
    requires lo <= hi <= buf.Length
    modifies buf
    ensures forall i :: 0 <= i < buf.Length ==> buf[i] == if lo <= i < hi then value else old(buf[i])
  {
    var n := hi - lo;
    if n == 0 {
      return;
    }
    buf[lo] := value;
    var i := 1;
    ghost var rounds := 0;
    while i < n
      invariant i == Pow2(rounds)
      invariant forall k :: lo <= k < lo + Min(i, n) ==> buf[k] == value
      invariant forall k :: 0 <= k < buf.Length && !(lo <= k < hi) ==> buf[k] == old(buf[k])
      decreases n - i
    {
      // Go's copy moves as many elements as the shorter of source and destination holds
      var m := Min(n - i, i);
      forall k | 0 <= k < m {
        buf[lo + i + k] := buf[lo + k];
      }
      i := i + i;
      rounds := rounds + 1;
    }
  }

  /**
    Go's copy(dst, src) for two views of the same length: dst's run receives
    the elements src held before the call, whether or not the two share a
    buffer (copy behaves as memmove), and nothing else changes.
   */
  method CopySlice<E>(dst: Slice<E>, src: Slice<E>)
    requires dst.Valid() && src.Valid() && dst.Len() == src.Len()
    modifies dst.buf
    ensures dst.buf[..] == Transfer.Splice(old(dst.buf[..]), dst.lo, old(src.Elems()))
  {
    forall k | 0 <= k < dst.Len() {
      dst.buf[dst.lo + k] := src.buf[src.lo + k];
    }
  }

  /**
    Scan's element loop: dest[k] = src[offs[k]] for k = 0, 1, ..., one write
    at a time. dest may be a view of src itself, and then later reads see
    earlier writes, as CopyEach says.
   */
  method CopyEachInto<E>(dest: Slice<E>, src: array<E>, offs: seq<nat>)
    requires dest.Valid() && dest.Len() == |offs| && Transfer.Within(offs, src.Length)
    modifies dest.buf
    ensures dest.buf[..] == Transfer.CopyEach(old(dest.buf[..]), old(src[..]), dest.buf == src, dest.lo, offs)
  {
    var k := 0;
    while k < |offs|
      invariant 0 <= k <= |offs|
      invariant dest.buf != src ==> src[..] == old(src[..])
      invariant dest.buf[..] == Transfer.CopyEach(old(dest.buf[..]), old(src[..]), dest.buf == src, dest.lo, offs[..k])
    {
      dest.buf[dest.lo + k] := src[offs[k]];
      assert offs[..k + 1][..k] == offs[..k];
      k := k + 1;
    }
    assert offs[..|offs|] == offs;
  }

  /** The rectangle with corners (row1, col1) and (row2, col2), in whatever order they come. */
  predicate InRect(row1: int, col1: int, row2: int, col2: int, r: int, c: int)
  {
    Min(row1, row2) <= r <= Max(row1, row2) && Min(col1, col2) <= c <= Max(col1, col2)
  }

  /**
    The cells Fill writes. Row-major storage sorts the corners first;
    column-major storage loops from row1 to row2 and from col1 to col2 as
    given, so reversed corners select no cell there.
   */
  predicate FillRegion(colMajor: bool, row1: int, col1: int, row2: int, col2: int, r: int, c: int)
  {
    if colMajor then row1 <= r <= row2 && col1 <= c <= col2
    else InRect(row1, col1, row2, col2, r, c)
  }

  /** In row-major storage Fill writes exactly the rectangle between the corners. */
  lemma FillRegionRowMajor(row1: int, col1: int, row2: int, col2: int, r: int, c: int)
    ensures FillRegion(false, row1, col1, row2, col2, r, c) <==> InRect(row1, col1, row2, col2, r, c)
  {
  }

  /** With the corners given in order both layouts write the rectangle. */
  lemma FillRegionOrdered(colMajor: bool, row1: int, col1: int, row2: int, col2: int, r: int, c: int)
    requires row1 <= row2 && col1 <= col2
    ensures FillRegion(colMajor, row1, col1, row2, col2, r, c) <==> InRect(row1, col1, row2, col2, r, c)
  {
  }

  /**
    In column-major storage, corners given in reverse order in either
    coordinate select no cell at all, although the rectangle between them is
    never empty.
   */
  lemma FillRegionReversed(row1: int, col1: int, row2: int, col2: int)
    requires row2 < row1 || col2 < col1
    ensures forall r, c :: !FillRegion(true, row1, col1, row2, col2, r, c)
    ensures InRect(row1, col1, row2, col2, row1, col1) && InRect(row1, col1, row2, col2, row2, col2)
  {
  }

  /**
    The smallest case: on a 2x2 column-major array Fill(1, 1, 0, 0, v)
    succeeds and writes nothing, while the rectangle it documents holds all
    four cells.
   */
  lemma FillMissesReversedCorners()
    ensures forall r, c :: 0 <= r < 2 && 0 <= c < 2 ==> InRect(1, 1, 0, 0, r, c) && !FillRegion(true, 1, 1, 0, 0, r, c)
  {
  }

  class Array2D<T> {
    const height: nat
    const width: nat
    const data: array<T>
    const colMajor: bool
    const zero: T

    /** The buffer holds exactly one element per cell. */
    predicate Valid()
    {
      data.Length == height * width
    }

    /** The struct literal Array2D[T]{height, width, slice, colMajor}. */
    constructor Make(height: nat, width: nat, data: array<T>, colMajor: bool, zero: T)
      requires data.Length == height * width
      ensures Valid()
      ensures this.height == height && this.width == width && this.data == data
      ensures this.colMajor == colMajor && this.zero == zero
    {
      this.height := height;
      this.width := width;
      this.data := data;
      this.colMajor := colMajor;
      this.zero := zero;
    }

    /** Width: the number of columns; height times it is the buffer length. */
    function Width(): (w: nat)
      ensures Valid() ==> height * w == data.Length
    {
      width
    }

    /** Height: the number of rows; it times the width is the buffer length. */
    function Height(): (h: nat)
      ensures Valid() ==> h * width == data.Length
    {
      height
    }

    /**
      getUnchecked: the element of cell (row, col), which the caller has
      bounds-checked: the element of the buffer slot that the inverse
      translation CellOf maps back to (row, col).
     */
    function GetUnchecked(row: nat, col: nat): (v: T)
      reads data
      requires Valid() && row < height && col < width
      ensures forall off :: 0 <= off < data.Length && Layout.CellOf(height, width, colMajor, off) == (row, col) ==>
        v == data[off]
    {
      Layout.SlotOfCell(height, width, colMajor, row, col);
      data[Layout.Offset(height, width, colMajor, row, col)]
    }

    /** Get: the element of cell (row, col) and true, or the zero value and false out of range. */
    function Get(row: int, col: int): (r: (T, bool))
      reads data
      requires Valid()
      ensures r.1 <==> 0 <= row < height && 0 <= col < width
      ensures !r.1 ==> r.0 == zero
      ensures r.1 ==> r.0 == data[Layout.Offset(height, width, colMajor, row, col)]
    {
      if col < 0 || col >= width || row < 0 || row >= height then (zero, false)
      else (GetUnchecked(row, col), true)
    }

    /** setUnchecked: writes cell (row, col), which the caller has bounds-checked; no other cell changes. */
    method SetUnchecked(row: nat, col: nat, value: T)
      requires Valid() && row < height && col < width
      modifies data
      ensures data[..] == old(data[..])[Layout.Offset(height, width, colMajor, row, col) := value]
      ensures forall r, c :: 0 <= r < height && 0 <= c < width ==>
        GetUnchecked(r, c) == if r == row && c == col then value else old(GetUnchecked(r, c))
    {
      data[Layout.Offset(height, width, colMajor, row, col)] := value;
      forall r, c | 0 <= r < height && 0 <= c < width
        ensures GetUnchecked(r, c) == if r == row && c == col then value else old(GetUnchecked(r, c))
      {
        Layout.OffsetInjective(height, width, colMajor, r, c, row, col);
      }
    }

    /**
      Set: writes cell (row, col). Out of range it reports the column first,
      then the row, and writes nothing.
     */
    method Set(row: int, col: int, value: T) returns (err: Option<Error>)
      requires Valid()
      modifies data
      ensures !(0 <= col < width) ==> err == Some(OutOfBounds(Coord.Col, col, width))
      ensures 0 <= col < width && !(0 <= row < height) ==> err == Some(OutOfBounds(Coord.Row, row, height))
      ensures err.None? <==> 0 <= row < height && 0 <= col < width
      ensures err.Some? ==> data[..] == old(data[..])
      ensures err.None? ==> Get(row, col) == (value, true)
      ensures err.None? ==> forall r, c :: r != row || c != col ==> Get(r, c) == old(Get(r, c))
    {
      if col < 0 || col >= width {
        return Some(OutOfBounds(Coord.Col, col, width));
      }
      if row < 0 || row >= height {
        return Some(OutOfBounds(Coord.Row, row, height));
      }
      SetUnchecked(row, col, value);
      err := None;
      forall r, c | r != row || c != col
        ensures Get(r, c) == old(Get(r, c))
      {
        if 0 <= r < height && 0 <= c < width {
          assert GetUnchecked(r, c) == old(GetUnchecked(r, c));
        }
      }
    }

    /**
      String: the header "Array2d[<type>] <height>x<width> " and then the rows,
      each row summarised on its own and the list of rows summarised as a
      whole. The type name and the printing of one element are given as
      parameters.
     */
    method String(typeName: string, show: T -> string) returns (s: string)
      requires Valid()
      ensures s == Render.Header(typeName, height, width) + Render.Body(data[..], height, width, colMajor, show)
    {
      s := Render.Header(typeName, height, width);
      if height == 0 || width == 0 {
        s := s + "[]";
        return;
      }
      ghost var rows := Render.RowTexts(data[..], height, width, colMajor, show);
      Render.RowTextsLines(data[..], height, width, colMajor, show);
      s := WriteRows(s, rows, show);
      assert Render.Body(data[..], height, width, colMajor, show) == Render.Line(rows);
    }

    /** The outer loop of String: appends the text of the rows, given their lines, to s. */
    method WriteRows(s0: string, ghost rows: seq<string>, show: T -> string) returns (s: string)
      requires Valid() && 0 < height && 0 < width && |rows| == height
      requires forall y {:trigger Render.IsRowLine(data[..], height, width, colMajor, show, rows, y)} ::
        0 <= y < height ==> Render.IsRowLine(data[..], height, width, colMajor, show, rows, y)
      ensures s == s0 + Render.Line(rows)
    {
      var summarizeRows := height > Render.PrintThreshold;
      var summarizeCols := width > Render.PrintThreshold;
      ghost var buf := data[..];
      s := s0 + "[";
      var y := 0;
      while y < height
        invariant 0 <= y <= height
        invariant summarizeRows ==> y <= Render.EdgeItems || height - Render.EdgeItems <= y
        invariant s == s0 + Render.LinePrefix(rows, y)
        invariant data[..] == buf
        decreases height - y
      {
        ghost var next := if summarizeRows && y == Render.EdgeItems then height - Render.EdgeItems else y + 1;
        var sep := if y > 0 then " " else "";
        if summarizeRows && y == Render.EdgeItems {
          Render.AppendLineStep(s0, rows, y, next, sep, Render.Ellipsis);
          s := s + sep + Render.Ellipsis;
          y := height - Render.EdgeItems - 1;
        } else {
          assert Render.IsRowLine(buf, height, width, colMajor, show, rows, y);
          Render.AppendLineStep(s0, rows, y, next, sep, rows[y]);
          s := WriteRow(s + sep, buf, y, summarizeCols, show);
        }
        y := y + 1;
      }
      Render.AppendLineEnd(s0, rows);
      s := s + "]";
    }

    /** The inner loop of String: appends the text of row y to s. */
    method WriteRow(s0: string, ghost buf: seq<T>, y: nat, summarizeCols: bool, show: T -> string) returns (s: string)
      requires Valid() && buf == data[..] && y < height && 0 < width
      requires summarizeCols == (width > Render.PrintThreshold)
      ensures s == s0 + Render.Line(Render.CellTexts(buf, height, width, colMajor, show, y))
    {
      ghost var texts := Render.CellTexts(buf, height, width, colMajor, show, y);
      s := s0 + "[";
      var x := 0;
      while x < width
        invariant 0 <= x <= width
        invariant summarizeCols ==> x <= Render.EdgeItems || width - Render.EdgeItems <= x
        invariant s == s0 + Render.LinePrefix(texts, x)
        decreases width - x
      {
        ghost var next := if summarizeCols && x == Render.EdgeItems then width - Render.EdgeItems else x + 1;
        var sep := if x > 0 then " " else "";
        if summarizeCols && x == Render.EdgeItems {
          Render.AppendLineStep(s0, texts, x, next, sep, Render.Ellipsis);
          s := s + sep + Render.Ellipsis;
          x := width - Render.EdgeItems - 1;
        } else {
          var text := show(GetUnchecked(y, x));
          assert text == texts[x];
          Render.AppendLineStep(s0, texts, x, next, sep, text);
          s := s + sep + text;
        }
        x := x + 1;
      }
      Render.AppendLineEnd(s0, texts);
      s := s + "]";
    }

    /** FromJagged's column-major step: the first |row| cells of row y become row, one by one. */
    method FillRowCells(y: nat, row: seq<T>)
      requires Valid() && y < height && |row| <= width
      modifies data
      ensures forall r, c :: 0 <= r < height && 0 <= c < width ==>
        GetUnchecked(r, c) == if r == y && c < |row| then row[c] else old(GetUnchecked(r, c))
    {
      var x := 0;
      while x < |row|
        invariant 0 <= x <= |row|
        invariant forall r, c :: 0 <= r < height && 0 <= c < width ==>
          GetUnchecked(r, c) == if r == y && c < x then row[c] else old(GetUnchecked(r, c))
      {
        SetUnchecked(y, x, row[x]);
        x := x + 1;
      }
    }

    /**
      FromJagged's row-major step: row is copied into the front of the view
      Row(y) returns, which is row y's span of the buffer itself.
     */
    method CopyIntoRow(y: nat, row: seq<T>)
      requires Valid() && !colMajor && y < height && |row| <= width
      modifies data
      ensures forall r, c :: 0 <= r < height && 0 <= c < width ==>
        GetUnchecked(r, c) == if r == y && c < |row| then row[c] else old(GetUnchecked(r, c))
    {
      var view := Row(y);
      var span := view.value;
      forall k | 0 <= k < |row| {
        span.buf[span.lo + k] := row[k];
      }
      forall r, c | 0 <= r < height && 0 <= c < width
        ensures GetUnchecked(r, c) == if r == y && c < |row| then row[c] else old(GetUnchecked(r, c))
      {
        Layout.RowSpan(height, width, y, 0, |row|, r, c);
      }
    }

    /**
      Scan's copy for Rows: row `row` into the view dest, element by element
      in column-major storage and as one copy from the Row view in row-major
      storage. Before the first row (row == -1) the row-major copy copies
      nothing. The view may lie in this array's own buffer, and then the
      writes go into the array.
     */
    method CopyRowInto(row: int, dest: Slice<T>)
      requires Valid() && dest.Valid() && dest.Len() == width && -1 <= row < height
      requires colMajor && width > 0 ==> 0 <= row
      modifies dest.buf
      ensures dest.buf != data ==> data[..] == old(data[..])
      ensures dest.buf[..] ==
        RowScan(height, width, colMajor, old(dest.buf[..]), old(data[..]), dest.buf == data, dest.lo, row)
    {
      if colMajor {
        // the element loop; RowOffsets(...)[k] is the offset getUnchecked reads for element k
        var offs := if row < 0 then [] else Layout.RowOffsets(height, width, colMajor, row);
        CopyEachInto(dest, data, offs);
      } else {
        var view := Row(row);
        if view.Some? {
          CopySlice(dest, view.value);
        }
      }
    }

    /**
      Scan's copy for Cols: column `col` into the view dest, element by
      element in row-major storage and as one copy from the Col view in
      column-major storage; as CopyRowInto with the roles of rows and columns
      exchanged.
     */
    method CopyColInto(col: int, dest: Slice<T>)
      requires Valid() && dest.Valid() && dest.Len() == height && -1 <= col < width
      requires !colMajor && height > 0 ==> 0 <= col
      modifies dest.buf
      ensures dest.buf != data ==> data[..] == old(data[..])
      ensures dest.buf[..] ==
        ColScan(height, width, colMajor, old(dest.buf[..]), old(data[..]), dest.buf == data, dest.lo, col)
    {
      if !colMajor {
        // the element loop; ColOffsets(...)[k] is the offset getUnchecked reads for element k
        var offs := if col < 0 then [] else Layout.ColOffsets(height, width, colMajor, col);
        CopyEachInto(dest, data, offs);
      } else {
        var view := Col(col);
        if view.Some? {
          CopySlice(dest, view.value);
        }
      }
    }

    /** Rows: a fresh iterator over the rows of this array, positioned before the first. */
    method Rows() returns (it: Rows<T>)
      requires Valid()
      ensures fresh(it) && it.Valid() && it.arr == this && it.row == -1 && it.err.None?
    {
      it := new Rows(this);
    }

    /** Cols: a fresh iterator over the columns of this array, positioned before the first. */
    method Cols() returns (it: Cols<T>)
      requires Valid()
      ensures fresh(it) && it.Valid() && it.arr == this && it.col == -1 && it.err.None?
    {
      it := new Cols(this);
    }

    /** Copy: an array of the same shape, layout and elements over a buffer of its own. */
    method Copy() returns (a: Array2D<T>)
      requires Valid()
      ensures fresh(a) && fresh(a.data) && a.Valid()
      ensures a.height == height && a.width == width && a.colMajor == colMajor && a.zero == zero
      ensures a.data[..] == data[..]
      ensures forall r, c :: a.Get(r, c) == Get(r, c)
    {
      var z := zero;
      var slice := new T[data.Length](_ => z);
      forall i | 0 <= i < data.Length {
        slice[i] := data[i];
      }
      a := new Array2D.Make(height, width, slice, colMajor, zero);
      assert a.data[..] == data[..];
    }

    /**
      Row: the elements of row `row`. Row-major storage returns the row's own
      span of the buffer (writes through it are writes to the array);
      column-major storage returns a new buffer holding a copy.
     */
    method Row(row: int) returns (view: Option<Slice<T>>)
      requires Valid()
      ensures view.None? <==> !(0 <= row < height)
      ensures view.Some? ==>
        view.value.Valid() && view.value.Elems() == Layout.RowOf(data[..], height, width, colMajor, row)
      ensures view.Some? ==> forall k :: 0 <= k < width ==> view.value.Elems()[k] == Get(row, k).0
      ensures view.Some? && !colMajor ==> view.value.buf == data && view.value.lo == row * width
      ensures view.Some? && colMajor ==> fresh(view.value.buf)
    {
      if row < 0 || row >= height {
        return None;
      }
      if colMajor {
        var z := zero;
        var r := new T[width](_ => z);
        var c := 0;
        while c < width
          invariant 0 <= c <= width
          invariant forall k :: 0 <= k < c ==> r[k] == GetUnchecked(row, k)
        {
          r[c] := GetUnchecked(row, c);
          c := c + 1;
        }
        return Some(Slice(r, 0, width));
      }
      // names the row so that RowOf's postcondition is in scope for the returned view
      ghost var whole := Layout.RowOf(data[..], height, width, colMajor, row);
      return Some(Slice(data, row * width, width + row * width));
    }

    /**
      Col: the elements of column `col`. Column-major storage returns the
      column's own span of the buffer; row-major storage returns a copy.
     */
    method Col(col: int) returns (view: Option<Slice<T>>)
      requires Valid()
      ensures view.None? <==> !(0 <= col < width)
      ensures view.Some? ==>
        view.value.Valid() && view.value.Elems() == Layout.ColOf(data[..], height, width, colMajor, col)
      ensures view.Some? ==> forall k :: 0 <= k < height ==> view.value.Elems()[k] == Get(k, col).0
      ensures view.Some? && colMajor ==> view.value.buf == data && view.value.lo == col * height
      ensures view.Some? && !colMajor ==> fresh(view.value.buf)
    {
      if col < 0 || col >= width {
        return None;
      }
      if colMajor {
        // names the column so that ColOf's postcondition is in scope for the returned view
        ghost var whole := Layout.ColOf(data[..], height, width, colMajor, col);
        var start := col * height;
        return Some(Slice(data, start, start + height));
      }
      var z := zero;
      var c := new T[height](_ => z);
      var r := 0;
      while r < height
        invariant 0 <= r <= height
        invariant forall k :: 0 <= k < r ==> c[k] == GetUnchecked(k, col)
      {
        c[r] := GetUnchecked(r, col);
        r := r + 1;
      }
      return Some(Slice(c, 0, height));
    }

    /** Fill's bounds checks, in the order the code makes them: col1, row1, col2, row2. */
    function CornerError(row1: int, col1: int, row2: int, col2: int): (err: Option<Error>)
      ensures err.None? <==>
        0 <= row1 < height && 0 <= col1 < width && 0 <= row2 < height && 0 <= col2 < width
      ensures !(0 <= col1 < width) ==> err == Some(OutOfBounds(Col1, col1, width))
      ensures err.Some? ==> err.value.OutOfBounds? && !(0 <= err.value.index < err.value.limit)
    {
      if col1 < 0 || col1 >= width then Some(OutOfBounds(Col1, col1, width))
      else if row1 < 0 || row1 >= height then Some(OutOfBounds(Row1, row1, height))
      else if col2 < 0 || col2 >= width then Some(OutOfBounds(Col2, col2, width))
      else if row2 < 0 || row2 >= height then Some(OutOfBounds(Row2, row2, height))
      else None
    }

    /**
      Fill: sets the cells of FillRegion to value and leaves every other cell
      alone; with a corner out of range it reports that corner and writes
      nothing.
     */
    method Fill(row1: int, col1: int, row2: int, col2: int, value: T) returns (err: Option<Error>)
      requires Valid()
      modifies data
      ensures err == CornerError(row1, col1, row2, col2)
      ensures err.Some? ==> data[..] == old(data[..])
      ensures err.None? ==> forall r, c :: 0 <= r < height && 0 <= c < width ==>
        GetUnchecked(r, c) ==
          if FillRegion(colMajor, row1, col1, row2, col2, r, c) then value else old(GetUnchecked(r, c))
    {
      err := CornerError(row1, col1, row2, col2);
      if err.Some? {
        return;
      }
      if colMajor {
        FillCells(row1, col1, row2, col2, value);
        return;
      }
      var r1, c1, r2, c2 := row1, col1, row2, col2;
      if c2 < c1 {
        c1, c2 := c2, c1;
      }
      if r2 < r1 {
        r1, r2 := r2, r1;
      }
      FillRows(r1, c1, r2, c2, value);
    }

    /**
      Fill as its documentation describes it: the corners are sorted in both
      layouts, so the whole rectangle between them is filled.
     */
    method FillSorted(row1: int, col1: int, row2: int, col2: int, value: T) returns (err: Option<Error>)
      requires Valid()
      modifies data
      ensures err == CornerError(row1, col1, row2, col2)
      ensures err.Some? ==> data[..] == old(data[..])
      ensures err.None? ==> forall r, c :: 0 <= r < height && 0 <= c < width ==>
        GetUnchecked(r, c) == if InRect(row1, col1, row2, col2, r, c) then value else old(GetUnchecked(r, c))
    {
      err := CornerError(row1, col1, row2, col2);
      if err.Some? {
        return;
      }
      var r1, c1, r2, c2 := row1, col1, row2, col2;
      if c2 < c1 {
        c1, c2 := c2, c1;
      }
      if r2 < r1 {
        r1, r2 := r2, r1;
      }
      if colMajor {
        FillCells(r1, c1, r2, c2, value);
      } else {
        FillRows(r1, c1, r2, c2, value);
      }
    }

    /** Fill's column-major branch: every cell from row1 to row2 and col1 to col2, one at a time. */
    method FillCells(row1: nat, col1: nat, row2: nat, col2: nat, value: T)
      requires Valid() && row1 < height && col1 < width && row2 < height && col2 < width
      modifies data
      ensures forall r, c :: 0 <= r < height && 0 <= c < width ==>
        GetUnchecked(r, c) == if row1 <= r <= row2 && col1 <= c <= col2 then value else old(GetUnchecked(r, c))
    {
      var r := row1;
      while r <= row2
        invariant row1 <= r <= Max(row1, row2 + 1)
        invariant forall rr, cc :: 0 <= rr < height && 0 <= cc < width ==>
          GetUnchecked(rr, cc) ==
            if row1 <= rr < r && col1 <= cc <= col2 then value else old(GetUnchecked(rr, cc))
      {
        var c := col1;
        while c <= col2
          invariant col1 <= c <= Max(col1, col2 + 1)
          invariant forall rr, cc :: 0 <= rr < height && 0 <= cc < width ==>
            GetUnchecked(rr, cc) ==
              if (row1 <= rr < r && col1 <= cc <= col2) || (rr == r && col1 <= cc < c) then value
              else old(GetUnchecked(rr, cc))
        {
          SetUnchecked(r, c, value);
          c := c + 1;
        }
        r := r + 1;
      }
    }

    /**
      Fill's row-major branch on sorted corners: fill the span of the first
      row by doubling, then copy that span into each following row.
     */
    method FillRows(row1: nat, col1: nat, row2: nat, col2: nat, value: T)
      requires Valid() && !colMajor && row1 <= row2 < height && col1 <= col2 < width
      modifies data
      ensures forall r, c :: 0 <= r < height && 0 <= c < width ==>
        GetUnchecked(r, c) == if row1 <= r <= row2 && col1 <= c <= col2 then value else old(GetUnchecked(r, c))
    {
      var lo := col1 + row1 * width;
      var span := 1 + col2 - col1;
      assert lo + span == Layout.Offset(height, width, false, row1, col2) + 1;
      FillSlice(data, lo, lo + span, value);
      forall rr, cc | 0 <= rr < height && 0 <= cc < width
        ensures GetUnchecked(rr, cc) ==
          if rr == row1 && col1 <= cc <= col2 then value else old(GetUnchecked(rr, cc))
      {
        Layout.RowSpan(height, width, row1, col1, col2 + 1, rr, cc);
      }
      var row := row1 + 1;
      while row <= row2
        invariant row1 + 1 <= row <= row2 + 1
        invariant forall rr, cc :: 0 <= rr < height && 0 <= cc < width ==>
          GetUnchecked(rr, cc) ==
            if row1 <= rr < row && col1 <= cc <= col2 then value else old(GetUnchecked(rr, cc))
      {
        CopySpan(row1, row, col1, col2);
        row := row + 1;
      }
    }

    /**
      The row-major copy(a.slice[col1+dst*width : 1+col2+dst*width],
      a.slice[col1+src*width : 1+col2+src*width]): columns col1..col2 of row
      dst take the values they have in row src.
     */
    method CopySpan(src: nat, dst: nat, col1: nat, col2: nat)
      requires Valid() && !colMajor && src < height && dst < height && col1 <= col2 < width
      modifies data
      ensures forall r, c :: 0 <= r < height && 0 <= c < width ==>
        GetUnchecked(r, c) ==
          if r == dst && col1 <= c <= col2 then old(GetUnchecked(src, c)) else old(GetUnchecked(r, c))
    {
      var from := col1 + src * width;
      var start := col1 + dst * width;
      var span := 1 + col2 - col1;
      assert from + span == Layout.Offset(height, width, false, src, col2) + 1;
      assert start + span == Layout.Offset(height, width, false, dst, col2) + 1;
      forall k | 0 <= k < span {
        data[start + k] := data[from + k];
      }
      forall r, c | 0 <= r < height && 0 <= c < width
        ensures GetUnchecked(r, c) ==
          if r == dst && col1 <= c <= col2 then old(GetUnchecked(src, c)) else old(GetUnchecked(r, c))
      {
        Layout.RowSpan(height, width, dst, col1, col2 + 1, r, c);
        if r == dst && col1 <= c <= col2 {
          assert Layout.Offset(height, width, false, src, c) == from + (c - col1);
        }
      }
    }
  }

  /** Array2D[T]{}: the empty array the constructors return with an error. */
  method Empty<T>(zero: T) returns (a: Array2D<T>)
    ensures fresh(a) && fresh(a.data) && a.Valid()
    ensures a.height == 0 && a.width == 0 && !a.colMajor && a.zero == zero
  {
    var none := new T[0](_ => zero);
    a := new Array2D.Make(0, 0, none, false, zero);
  }

  /** New: a height x width array with every element the zero value. */
  method New<T>(height: nat, width: nat, zero: T, colMajor: bool) returns (a: Array2D<T>)
    ensures fresh(a) && fresh(a.data) && a.Valid()
    ensures a.height == height && a.width == width && a.colMajor == colMajor && a.zero == zero
    ensures forall i :: 0 <= i < a.data.Length ==> a.data[i] == zero
  {
    var slice := new T[width * height](_ => zero);
    a := new Array2D.Make(height, width, slice, colMajor, zero);
  }

  /** NewFilled: a height x width array with every element `value`, filled by doubling. */
  method NewFilled<T>(height: nat, width: nat, value: T, zero: T, colMajor: bool) returns (a: Array2D<T>)
    ensures fresh(a) && fresh(a.data) && a.Valid()
    ensures a.height == height && a.width == width && a.colMajor == colMajor && a.zero == zero
    ensures forall i :: 0 <= i < a.data.Length ==> a.data[i] == value
  {
    var slice := new T[width * height](_ => zero);
    FillSlice(slice, 0, slice.Length, value);
    a := new Array2D.Make(height, width, slice, colMajor, zero);
  }

  /**
    FromSlice: adopts the caller's buffer, without copying, when its length is
    height*width; otherwise reports the shape error and returns the empty array.
   */
  method FromSlice<T>(height: nat, width: nat, slice: array<T>, zero: T, colMajor: bool)
    returns (a: Array2D<T>, err: Option<Error>)
    ensures fresh(a) && a.Valid() && a.zero == zero
    ensures err.None? <==> slice.Length == height * width
    ensures err.None? ==> a.data == slice && a.height == height && a.width == width && a.colMajor == colMajor
    ensures err.Some? ==> err == Some(Shape(SliceLength(slice.Length, height * width)))
    ensures err.Some? ==> a.height == 0 && a.width == 0 && !a.colMajor && fresh(a.data)
  {
    if slice.Length != width * height {
      a := Empty(zero);
      return a, Some(Shape(SliceLength(slice.Length, width * height)));
    }
    a := new Array2D.Make(height, width, slice, colMajor, zero);
    err := None;
  }

  /** The first row at or after `from` that is longer than width, if any. */
  function WideRow<E>(width: nat, jagged: seq<seq<E>>, from: nat): (y: Option<nat>)
    decreases |jagged| - from
    ensures y.None? <==> forall j :: from <= j < |jagged| ==> |jagged[j]| <= width
    ensures y.Some? ==> from <= y.value < |jagged| && |jagged[y.value]| > width
    ensures y.Some? ==> forall j :: from <= j < y.value ==> |jagged[j]| <= width
  {
    if from >= |jagged| then None
    else if |jagged[from]| > width then Some(from)
    else WideRow(width, jagged, from + 1)
  }

  /**
    FromJagged's verdict on its input: too many rows is reported first, then
    the first row that is too long; anything that fits is accepted.
   */
  function JaggedError<E>(height: nat, width: nat, jagged: seq<seq<E>>): (err: Option<Error>)
    ensures err.None? <==> |jagged| <= height && forall y :: 0 <= y < |jagged| ==> |jagged[y]| <= width
    ensures |jagged| > height ==> err == Some(Shape(JaggedHeight(|jagged|, height)))
    ensures forall y :: 0 <= y < |jagged| <= height && |jagged[y]| > width &&
                        (forall j :: 0 <= j < y ==> |jagged[j]| <= width) ==>
                        err == Some(Shape(RowWidth(y, |jagged[y]|, width)))
  {
    if |jagged| > height then Some(Shape(JaggedHeight(|jagged|, height)))
    else match WideRow(width, jagged, 0)
      case None => None
      case Some(y) => Some(Shape(RowWidth(y, |jagged[y]|, width)))
  }

  /** The element FromJagged puts in cell (r, c): the jagged entry when there is one, else zero. */
  function JaggedCell<E>(jagged: seq<seq<E>>, zero: E, r: nat, c: nat): E
  {
    if r < |jagged| && c < |jagged[r]| then jagged[r][c] else zero
  }

  /**
    FromJagged: a height x width array holding jagged[y][x] where that entry
    exists and zero elsewhere; on a shape error the empty array.
   */
  method FromJagged<E>(height: nat, width: nat, jagged: seq<seq<E>>, zero: E, colMajor: bool)
    returns (a: Array2D<E>, err: Option<Error>)
    ensures fresh(a) && fresh(a.data) && a.Valid() && a.zero == zero
    ensures err == JaggedError(height, width, jagged)
    ensures err.None? ==> a.height == height && a.width == width && a.colMajor == colMajor
    ensures err.None? ==> forall r, c :: 0 <= r < height && 0 <= c < width ==>
      a.GetUnchecked(r, c) == JaggedCell(jagged, zero, r, c)
    ensures err.Some? ==> a.height == 0 && a.width == 0 && !a.colMajor
  {
    if |jagged| > height {
      a := Empty(zero);
      return a, Some(Shape(JaggedHeight(|jagged|, height)));
    }
    var arr := New(height, width, zero, colMajor);
    var y := 0;
    while y < |jagged|
      invariant 0 <= y <= |jagged|
      invariant fresh(arr) && fresh(arr.data) && arr.Valid() && arr.zero == zero
      invariant arr.height == height && arr.width == width && arr.colMajor == colMajor
      invariant forall j :: 0 <= j < y ==> |jagged[j]| <= width
      invariant forall r, c :: 0 <= r < height && 0 <= c < width ==>
        arr.GetUnchecked(r, c) == JaggedCell(jagged[..y], zero, r, c)
    {
      var row := jagged[y];
      if |row| > width {
        a := Empty(zero);
        return a, Some(Shape(RowWidth(y, |row|, width)));
      }
      if colMajor {
        arr.FillRowCells(y, row);
      } else {
        arr.CopyIntoRow(y, row);
      }
      y := y + 1;
    }
    assert jagged[..y] == jagged;
    a, err := arr, None;
  }

  // -----------------------------------------------------------------------
  // What Scan leaves in its destination
  // -----------------------------------------------------------------------

  /**
    The buffer dst after Rows.Scan copies row `row` of an array with buffer
    src into the view of dst that starts at lo. Row-major storage uses Go's
    copy from the Row view; column-major storage uses the element loop, and
    when the view lies in the array's own buffer (aliased, so dst is src)
    each read of that loop sees the writes before it. Before the first row
    nothing is copied. Only the view is written, and it receives exactly the
    row unless the element loop runs over its own buffer.
   */
  function RowScan<T>(height: nat, width: nat, colMajor: bool, dst: seq<T>, src: seq<T>, aliased: bool, lo: nat, row: int): (t: seq<T>)
    requires |src| == height * width && lo + width <= |dst| && -1 <= row < height
    requires aliased ==> dst == src
    requires colMajor && width > 0 ==> 0 <= row
    ensures |t| == |dst|
    ensures forall i :: 0 <= i < |dst| && !(lo <= i < lo + width) ==> t[i] == dst[i]
    ensures 0 <= row && (!aliased || !colMajor) ==>
      t[lo..lo + width] == Layout.RowOf(src, height, width, colMajor, row)
    ensures row < 0 ==> t == dst
  {
    if row < 0 then dst
    else if colMajor then
      var offs := Layout.RowOffsets(height, width, colMajor, row);
      if aliased then Transfer.CopyEach(dst, src, true, lo, offs)
      else
        Transfer.CopyEachSeparate(dst, src, lo, offs);
        Layout.GatherRow(src, height, width, colMajor, row);
        Transfer.CopyEach(dst, src, false, lo, offs)
    else Transfer.Splice(dst, lo, Layout.RowOf(src, height, width, colMajor, row))
  }

  /** As RowScan, for Cols.Scan copying column `col`, with the roles of the layouts exchanged. */
  function ColScan<T>(height: nat, width: nat, colMajor: bool, dst: seq<T>, src: seq<T>, aliased: bool, lo: nat, col: int): (t: seq<T>)
    requires |src| == height * width && lo + height <= |dst| && -1 <= col < width
    requires aliased ==> dst == src
    requires !colMajor && height > 0 ==> 0 <= col
    ensures |t| == |dst|
    ensures forall i :: 0 <= i < |dst| && !(lo <= i < lo + height) ==> t[i] == dst[i]
    ensures 0 <= col && (!aliased || colMajor) ==>
      t[lo..lo + height] == Layout.ColOf(src, height, width, colMajor, col)
    ensures col < 0 ==> t == dst
  {
    if col < 0 then dst
    else if !colMajor then
      var offs := Layout.ColOffsets(height, width, colMajor, col);
      if aliased then Transfer.CopyEach(dst, src, true, lo, offs)
      else
        Transfer.CopyEachSeparate(dst, src, lo, offs);
        Layout.GatherCol(src, height, width, colMajor, col);
        Transfer.CopyEach(dst, src, false, lo, offs)
    else Transfer.Splice(dst, lo, Layout.ColOf(src, height, width, colMajor, col))
  }

  /**
    Rows.Scan of row 0 of the row-major array [[1,2],[3,4]] into the view
    Row(1): copy moves the row as a whole, so the view receives [1,2] and
    the array becomes [[1,2],[1,2]].
   */
  lemma ScanRowIntoOwnRow()
    ensures RowScan(2, 2, false, [1, 2, 3, 4], [1, 2, 3, 4], true, 2, 0) == [1, 2, 1, 2]
  {
  }

  /**
    Cols.Scan of column 0 of the same array into the same view: the element
    loop writes cell (1,0) and then reads it, so the view receives [1,1]
    rather than the column [1,3], and the array becomes [[1,2],[1,1]].
   */
  lemma ScanColIntoOwnRow()
    ensures Layout.ColOf([1, 2, 3, 4], 2, 2, false, 0) == [1, 3]
    ensures ColScan(2, 2, false, [1, 2, 3, 4], [1, 2, 3, 4], true, 2, 0) == [1, 2, 1, 1]
  {
  }

  // -----------------------------------------------------------------------
  // Iterators over rows and columns
  // -----------------------------------------------------------------------

  /**
    Rows: an iterator over the rows of an array, in the manner of sql.Rows.
    Next moves to the next row, Scan copies the current row into a
    destination and latches the first destination error, Err reports it.
   */
  class Rows<T> {
    const arr: Array2D<T>
    var row: int
    var err: Option<Error>

    /** The index is -1 before the first Next and a row index afterwards; only Scan's errors are latched. */
    predicate Valid()
      reads this
    {
      arr.Valid() && -1 <= row < arr.height && (err.Some? ==> err.value.IsDestError())
    }

    constructor(arr: Array2D<T>)
      requires arr.Valid()
      ensures Valid() && this.arr == arr && row == -1 && err.None?
    {
      this.arr := arr;
      row := -1;
      err := None;
    }

    /** Next: moves to the next row if there is one and says whether it did. */
    method Next() returns (more: bool)
      requires Valid()
      modifies this`row
      ensures Valid()
      ensures (row, more) == Cursor.Advance(old(row), arr.height)
    {
      if row + 1 >= arr.height {
        return false;
      }
      row := row + 1;
      return true;
    }

    /**
      Scan: copies the current row into the view dest (None stands for a nil
      pointer). A latched error is returned again; otherwise a nil destination
      or one of the wrong length is latched and returned. The view may lie in
      the array's own buffer; then the array changes as RowScan says.
     */
    method Scan(dest: Option<Slice<T>>) returns (e: Option<Error>)
      requires Valid()
      requires dest.Some? ==> dest.value.Valid()
      requires err.None? && dest.Some? && dest.value.Len() == arr.width && arr.colMajor && arr.width > 0 ==> 0 <= row
      modifies this`err, if dest.Some? then {dest.value.buf} else {}
      ensures Valid()
      ensures e == err == Cursor.Latch(old(err), if dest.None? then None else Some(dest.value.Len()), arr.width)
      ensures dest.Some? && e.Some? ==> dest.value.buf[..] == old(dest.value.buf[..])
      ensures dest.None? || e.Some? || dest.value.buf != arr.data ==> arr.data[..] == old(arr.data[..])
      ensures dest.Some? && e.None? ==>
        dest.value.buf[..] == RowScan(arr.height, arr.width, arr.colMajor, old(dest.value.buf[..]), old(arr.data[..]),
                                      dest.value.buf == arr.data, dest.value.lo, row)
    {
      if err.Some? {
        return err;
      }
      if dest.None? {
        err := Some(NilDest);
        return err;
      }
      if dest.value.Len() != arr.width {
        err := Some(DestLength(dest.value.Len(), arr.width));
        return err;
      }
      arr.CopyRowInto(row, dest.value);
      return None;
    }

    /** Err: the error latched by Scan, if any. */
    function Err(): (e: Option<Error>)
      reads this
      requires Valid()
      ensures e.Some? ==> e.value.IsDestError()
    {
      err
    }
  }

  /** Cols: the iterator over the columns of an array; Rows with the roles of height and width exchanged. */
  class Cols<T> {
    const arr: Array2D<T>
    var col: int
    var err: Option<Error>

    predicate Valid()
      reads this
    {
      arr.Valid() && -1 <= col < arr.width && (err.Some? ==> err.value.IsDestError())
    }

    constructor(arr: Array2D<T>)
      requires arr.Valid()
      ensures Valid() && this.arr == arr && col == -1 && err.None?
    {
      this.arr := arr;
      col := -1;
      err := None;
    }

    /** Next: moves to the next column if there is one and says whether it did. */
    method Next() returns (more: bool)
      requires Valid()
      modifies this`col
      ensures Valid()
      ensures (col, more) == Cursor.Advance(old(col), arr.width)
    {
      if col + 1 >= arr.width {
        return false;
      }
      col := col + 1;
      return true;
    }

    /** Scan: copies the current column into the view dest; errors as for Rows, against the height. */
    method Scan(dest: Option<Slice<T>>) returns (e: Option<Error>)
      requires Valid()
      requires dest.Some? ==> dest.value.Valid()
      requires err.None? && dest.Some? && dest.value.Len() == arr.height && !arr.colMajor && arr.height > 0 ==> 0 <= col
      modifies this`err, if dest.Some? then {dest.value.buf} else {}
      ensures Valid()
      ensures e == err == Cursor.Latch(old(err), if dest.None? then None else Some(dest.value.Len()), arr.height)
      ensures dest.Some? && e.Some? ==> dest.value.buf[..] == old(dest.value.buf[..])
      ensures dest.None? || e.Some? || dest.value.buf != arr.data ==> arr.data[..] == old(arr.data[..])
      ensures dest.Some? && e.None? ==>
        dest.value.buf[..] == ColScan(arr.height, arr.width, arr.colMajor, old(dest.value.buf[..]), old(arr.data[..]),
                                      dest.value.buf == arr.data, dest.value.lo, col)
    {
      if err.Some? {
        return err;
      }
      if dest.None? {
        err := Some(NilDest);
        return err;
      }
      if dest.value.Len() != arr.height {
        err := Some(DestLength(dest.value.Len(), arr.height));
        return err;
      }
      arr.CopyColInto(col, dest.value);
      return None;
    }

    /** Err: the error latched by Scan, if any. */
    function Err(): (e: Option<Error>)
      reads this
      requires Valid()
      ensures e.Some? ==> e.value.IsDestError()
    {
      err
    }
  }
}
