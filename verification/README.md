# array2d in Dafny

A model of the Go package `array2d`: `Array2D[T]`, a dense two-dimensional array. It stores
`height*width` elements in one flat buffer. A `colMajor` flag picks the layout:

- row-major keeps cell `(row, col)` at `col + row*width`;
- column-major keeps it at `row + col*height`.

The model covers:

- the address translation and its inverse;
- the constructors (`New`, `NewFilled`, `FromSlice`, `FromJagged`);
- the bounds-checked accessors (`Get`, `Set`);
- the views (`Row`, `Col`) and `Copy`;
- the rectangular `Fill` with its doubling `fill` helper;
- the `Rows` and `Cols` iterators with their sticky error;
- `String`, which summarises arrays larger than ten rows or columns.

Modules:

- `Errors`: the four error kinds (`ErrOutOfBounds`, `ErrShape`, `ErrNilDest`, `ErrDestLength`) as constructors. Each carries the numbers its message would print.
- `Layout`: the translation `Offset` and its inverse `CellOf`. It proves the translation is a bijection between the cells and `[0, height*width)`. It also proves where a row (row-major) or a column (column-major) lies as one contiguous span, and gives the offsets a row or a column is read from.
- `Transfer`: the two ways `Scan` moves elements, as functions on sequences. `Splice` is Go's `copy`, which behaves as memmove. `CopyEach` is an element-by-element loop, whose reads see its own earlier writes when source and destination share a buffer.
- `Render`: the text `String` produces, as a specification.
  - `Visible` says which items of a line are printed.
  - `Summarize`, `JoinSpaces` and `Line` build a bracketed line.
  - `Decimal` is the `%d` of the header.
- `Cursor`: the iterators' state machine as pure functions. `Advance` is `Next`; `Latch` is `Scan`'s error.
- `Grid`: the imperative part.
  - Class `Array2D` has the buffer as an `array<T>`.
  - `FillSlice` is the doubling `fill`.
  - The constructors are module-level methods.
  - Classes `Rows` and `Cols` are the iterators.

How Go constructs are represented:

- Go's `copy` is a Dafny `forall` statement, whose simultaneous assignment has `copy`'s memmove meaning (`CopySlice` for two views).
- A view that aliases the buffer is a `Slice(buf, lo, hi)` with `buf` the array's own buffer.
- `Scan`'s `*[]T` destination is an `Option<Slice<T>>`: `None` is a nil pointer, and `Some` is any slice, including a view of the array being scanned.
- Go's zero value of `T` is a parameter that the array keeps (`zero`).

## Model

| member | source | states |
|---|---|---|
| Layout.Offset | array2d.go:200-205 | the buffer index of a cell is below height*width |
| Layout.CellOf | array2d.go:200-205 | the inverse translation yields a cell inside the array |
| Layout.CellOfOffset | array2d.go:200-205 | translating a cell and translating back gives the cell again, in both layouts |
| Layout.OffsetCellOf | array2d.go:220-226 | every buffer index is the translation of some cell, so the translation is onto |
| Layout.OffsetInjective | array2d.go:220-226 | two cells share a buffer index iff they are the same cell, so setUnchecked touches one cell |
| Layout.RowSpan | array2d.go:328-331 | in row-major order, the slice [row*width+lo, row*width+hi) holds exactly the cells (row, lo..hi-1) |
| Layout.ColSpan | array2d.go:280-283 | in column-major order, [col*height, col*height+height) holds exactly the cells of column col |
| Layout.RowOf | array2d.go:255-267 | a row has width elements, element c is the cell (row, c), and in row-major order it is the buffer slice the Go code returns |
| Layout.ColOf | array2d.go:276-289 | a column has height elements, element r is the cell (r, col), and in column-major order it is the buffer slice the Go code returns |
| Render.Visible | array2d.go:148-175 | a line of n items prints all n when n <= 10, else 11 slots with the single gap in the middle, and only indices below n |
| Render.VisibleItems | array2d.go:153-161 | item i is printed iff the line is short or i is among the first 5 or last 5 |
| Render.VisibleOrdered | array2d.go:153-161 | printed items keep their order |
| Render.VisibleGap | array2d.go:154-158 | a line has a "..." exactly when it is summarised, and at position 5 only |
| Render.PositionSlot | array2d.go:153-161 | the index the loop reaches (after its jump from 5 to n-5) is printed at the matching position, with the gap printed at index 5 |
| Render.JoinSpacesStep | array2d.go:178-181 | appending an item writes one separating space first unless it is the first item |
| Render.SummarizeClosed | array2d.go:153-161 | a line of at most 10 items prints all of them; a longer one prints its first 5, "..." and its last 5 |
| Render.LineStep | array2d.go:168-181 | one iteration of the printing loop extends the printed prefix by the separator and the next item or "..." |
| Render.LineEnd | array2d.go:183 | after the last index, the prefix plus "]" is the whole line |
| Render.Decimal | array2d.go:141 | the %d text of a number is non-empty, only digits, with no leading zero |
| Render.DecimalRoundTrip | array2d.go:141 | the %d text denotes exactly the number printed |
| Transfer.Splice | array2d.go:396 | copy into a slice starting at lo: the run from lo holds the source and every element outside it is kept |
| Transfer.CopyEach | array2d.go:390-392 | the element loop writes only the run dst[lo .. lo+n) |
| Transfer.CopyEachSeparate | array2d.go:390-392 | into a separate buffer, the element loop has copy's effect: the run holds the gathered source elements |
| Transfer.CopyEachUnseen | array2d.go:450-452 | into the same buffer, the element loop still has copy's effect when no read falls on an element already written |
| Cursor.AfterIndex | array2d.go:364-370 | after k calls of Next on a fresh iterator the index is min(k, count) - 1 |
| Cursor.AdvanceCount | array2d.go:364-370 | call k+1 of Next returns true iff k < count |
| Cursor.AdvanceExhausted | array2d.go:364-370 | once Next returns false, it keeps returning false and the index stays |
| Cursor.Latch | array2d.go:374-387 | a latched error is returned again; otherwise nil gives NilDest, a wrong length gives DestLength, and there is no error iff the destination has the expected length |
| Cursor.LatchSticky | array2d.go:375-377 | a latched error survives every later Scan, whatever its destination |
| Grid.FillSlice | array2d.go:336-345 | the doubling fill sets exactly [lo, hi) to the value; its loop keeps the filled prefix as i doubles |
| Grid.CopySlice | array2d.go:395-396 | copy between two equally long views: the destination run gets the source's elements from before the call, even when the views overlap, and nothing else changes |
| Grid.CopyEachInto | array2d.go:390-392 | the element loop, one write at a time, leaves the destination buffer as CopyEach says, including when the destination is a view of the source buffer |
| Grid.FillRegionRowMajor | array2d.go:322-331 | in row-major order Fill writes exactly the rectangle between the corners, whatever their order |
| Grid.FillRegionOrdered | array2d.go:311-331 | with the corners in order both layouts write the rectangle |
| Grid.FillRegionReversed | array2d.go:311-318 | in column-major order, reversed corners select no cell, although the rectangle is non-empty |
| Grid.FillMissesReversedCorners | array2d.go:311-318 | Fill(1, 1, 0, 0) on a 2x2 column-major array writes none of the four cells its rectangle holds |
| Grid.Array2D.Make | array2d.go:126-130 | the struct literal keeps the given shape, buffer, layout and zero |
| Grid.Array2D.Width | array2d.go:229-231 | the width times the height is the buffer length |
| Grid.Array2D.Height | array2d.go:234-236 | the height times the width is the buffer length |
| Grid.Array2D.GetUnchecked | array2d.go:200-205 | the element of cell (row, col) is the element of the one buffer slot that the inverse translation CellOf maps back to (row, col); the bijection lemmas are about this translation |
| Grid.Array2D.Get | array2d.go:192-198 | Get succeeds iff the cell is in range; it then returns the cell's element, and otherwise zero and false |
| Grid.Array2D.SetUnchecked | array2d.go:220-226 | only the cell's buffer slot changes; every other cell keeps its element |
| Grid.Array2D.Set | array2d.go:209-218 | the column is checked before the row; an error leaves the buffer untouched; success makes Get(row, col) = (value, true) and leaves every other cell |
| Grid.Array2D.String | array2d.go:133-188 | the text is the header followed by "[]" for an empty array, or by the summarised line of summarised row lines |
| Grid.Array2D.WriteRows | array2d.go:151-186 | the outer loop, with its jump over the middle rows, writes the line of the rows |
| Grid.Array2D.WriteRow | array2d.go:166-183 | the inner loop, with its jump over the middle columns, writes the line of row y's element texts |
| Grid.Array2D.FillRowCells | array2d.go:113-116 | FromJagged's column-major step sets the first len(row) cells of row y to row and leaves every other cell |
| Grid.Array2D.CopyIntoRow | array2d.go:117-120 | FromJagged's row-major step, copying into the Row view, sets the same cells and leaves every other cell |
| Grid.Array2D.Rows | array2d.go:348-353 | a fresh iterator over this array, before the first row, with no error |
| Grid.Array2D.Cols | array2d.go:408-413 | a fresh iterator over this array, before the first column, with no error |
| Grid.Array2D.CopyRowInto | array2d.go:388-397 | the destination buffer becomes RowScan of its old contents and the old array; the array changes only when the view lies in its buffer |
| Grid.Array2D.CopyColInto | array2d.go:448-457 | the destination buffer becomes ColScan of its old contents and the old array; the array changes only when the view lies in its buffer |
| Grid.Array2D.Copy | array2d.go:239-248 | a fresh buffer with the same shape, layout and elements; every Get agrees with the original |
| Grid.Array2D.Row | array2d.go:255-267 | out of range gives none; otherwise width elements, element k is Get(row, k); row-major aliases the buffer at row*width, column-major is a fresh copy |
| Grid.Array2D.Col | array2d.go:276-289 | out of range gives none; otherwise height elements, element k is Get(k, col); column-major aliases the buffer at col*height, row-major is a fresh copy |
| Grid.Array2D.CornerError | array2d.go:297-309 | no error iff all four corners are in range; col1 is checked first; a reported coordinate is the one out of range |
| Grid.Array2D.Fill | array2d.go:297-334 | an error writes nothing; otherwise exactly the cells of FillRegion get the value and every other cell is unchanged |
| Grid.Array2D.FillSorted | array2d.go:290-296 | the documented Fill: in both layouts exactly the rectangle between the corners gets the value |
| Grid.Array2D.FillCells | array2d.go:314-318 | the nested loops write exactly the cells from row1..row2 by col1..col2 |
| Grid.Array2D.FillRows | array2d.go:328-332 | the row-major fill of the first span and the copies of it write exactly the sorted rectangle |
| Grid.Array2D.CopySpan | array2d.go:331 | one row-major copy sets the span of row dst to that of row src and leaves every other cell |
| Grid.Empty | array2d.go:84 | the zero value Array2D[T]{}: a 0x0 row-major array |
| Grid.New | array2d.go:39-50 | a fresh buffer of exactly height*width zero elements |
| Grid.NewFilled | array2d.go:55-68 | a fresh buffer of exactly height*width elements, all equal to the value |
| Grid.FromSlice | array2d.go:78-92 | succeeds iff the slice length is height*width and then adopts the caller's buffer itself; otherwise ErrShape with the lengths and the empty array |
| Grid.WideRow | array2d.go:109-112 | the first row longer than width, or none when every row fits |
| Grid.JaggedError | array2d.go:104-112 | no error iff there are at most height rows and each fits in width; too many rows is reported first, then the first row that is too long |
| Grid.FromJagged | array2d.go:100-123 | on success, cell (y, x) is jagged[y][x] where that entry exists and zero elsewhere, in both layouts; on error, the empty array |
| Grid.RowScan | array2d.go:388-397 | Rows.Scan writes only the destination view; the view receives exactly the row, except for the column-major loop over the array's own buffer; before the first row nothing changes |
| Grid.ColScan | array2d.go:448-457 | Cols.Scan writes only the destination view; the view receives exactly the column, except for the row-major loop over the array's own buffer; before the first column nothing changes |
| Grid.ScanRowIntoOwnRow | array2d.go:395-396 | on the row-major [[1,2],[3,4]], Rows.Scan of row 0 into the view Row(1) makes the array [[1,2],[1,2]], since copy moves the whole row |
| Grid.ScanColIntoOwnRow | array2d.go:450-452 | on the same array and view, Cols.Scan of column 0 gives [1,1], not the column [1,3], and makes the array [[1,2],[1,1]], since the loop reads cell (1,0) after writing it |
| Grid.Rows.constructor | array2d.go:348-353 | a new iterator starts at index -1 with no error |
| Grid.Rows.Next | array2d.go:364-370 | the new index and the result are Cursor.Advance of the old index and the height |
| Grid.Rows.Scan | array2d.go:374-400 | the error is Cursor.Latch of the latched error and the destination; an error writes nothing; success leaves the destination buffer as RowScan says; the array changes only through a view of its own buffer |
| Grid.Rows.Err | array2d.go:403-405 | the latched error is only ever a destination error |
| Grid.Cols.constructor | array2d.go:408-413 | a new iterator starts at index -1 with no error |
| Grid.Cols.Next | array2d.go:424-430 | the new index and the result are Cursor.Advance of the old index and the width |
| Grid.Cols.Scan | array2d.go:434-460 | as Rows.Scan against the height, with ColScan |
| Grid.Cols.Err | array2d.go:463-465 | the latched error is only ever a destination error |

## Left out

- The type name in the `String` header comes from `reflect` (array2d.go:134-138). It is a parameter here.
- Grid.Array2D.String: `typeName` stands for the name of a non-interface element type. When T is an interface type (`any`, `error`, ...), the zero value at array2d.go:134 is a nil interface. `reflect.TypeOf` of it is nil, and the `.Name()` call at array2d.go:135 panics before anything is written. The model's `String` returns the header and body for every T, so it does not capture that panic.
- The printing of one element by `fmt.Fprint` (array2d.go:181) is a parameter `show: T -> string`.
- The message text built by `fmt.Errorf` is not modelled. Each error keeps its kind and the numbers the message prints.
- `ToSlices`, `ToSlicesByCol`, `Map` and `Index` appear only in array2d_test.go. Nothing in array2d.go defines them, so they are not part of this model.
- Negative heights and widths are not modelled: dimensions are `nat` here. Go's `make` panics only when `width*height` is negative. Several negative shapes are therefore accepted:
  - `New(-2, -3)` and `NewFilled(-2, -3, v)` make a buffer of 6 elements (array2d.go:47, 60);
  - `New(-1, 0)` makes an empty one;
  - `FromSlice(-2, -3, s)` succeeds when `len(s) == 6` (array2d.go:83-91).

  On such an array every bounds-checked operation fails, and the `String` header prints the negative numbers. `FromJagged` with a negative height always returns `ErrShape` (array2d.go:105-106).
- `width*height` does not overflow here, because integers are unbounded. Go's `int` is 32 or 64 bits wide, depending on the platform.
- The variadic `colMajor ...bool` is an explicit `bool` parameter.
- The build tags are not modelled.
- Go's zero value of `T` is not modelled. It is the parameter `zero`, kept by the array.
- `Rows.Scan` before the first `Next` in column-major storage reads index -1 and panics, so it is excluded by a precondition. `Cols.Scan` before the first `Next` is excluded the same way in row-major storage. In the other layout such a `Scan` copies nothing and returns no error, and the model states exactly that.
- `Next` does not look at the latched error: it keeps advancing after a failed `Scan`. The model follows the code. A state machine in which an errored iterator stops advancing would be a different design from array2d.go:364-370.
- Grid.Rows, Grid.Cols: Go's iterator keeps a pointer to the caller's `Array2D` variable (array2d.go:348-353, 357). The model keeps the array object itself in a constant field `arr`. If the caller assigns a new array to that variable after `Rows()` or `Cols()`, the Go iterator follows it; the model does not.
- Slice headers are not modelled as values. A view is a buffer reference with a range, and `FromSlice` adopts the caller's array reference.
- `FromJagged` reads the jagged input as an immutable `seq<seq<T>>`. Aliasing between the input and the new array cannot arise, because the new buffer is fresh.
- Running time is not modelled. This covers the O(log n) rounds of the doubling `fill` and the span copies of row-major `Fill`; only their results are proved.
- The render loops in `String` are split into `WriteRows` and `WriteRow`, one per Go loop, and the row-major and column-major steps of `FromJagged` and `Scan` are helper methods. `Scan`'s element loop is the generic `CopyEachInto`. It reads the buffer at `RowOffsets`/`ColOffsets`, the offsets that `getUnchecked` computes for each element. The order of writes to the buffer and to the text is the same as in the Go code.

## Findings

| source | as written | input that shows it | evidently intended | confidence | as-written member | corrected member |
|---|---|---|---|---|---|---|
| array2d.go:311-318 | the column-major branch of `Fill` loops `row1..row2` and `col1..col2` without sorting the corners, so reversed corners fill nothing and `nil` is returned | a 2x2 column-major array, `Fill(1, 1, 0, 0, v)`: no cell changes | the doc comment (array2d.go:295-296) says the corners are sorted, as the row-major branch does (array2d.go:322-327), so the whole rectangle is filled | not executed | Grid.FillMissesReversedCorners | Grid.Array2D.FillSorted |
