/**
  The error values of package array2d.

  The Go package wraps four sentinel errors (ErrOutOfBounds, ErrShape,
  ErrNilDest, ErrDestLength) with fmt.Errorf, adding the offending numbers to
  the message. Here each sentinel is a constructor and the numbers the message
  would print are its fields; the message text itself is not modelled.
 */
module Errors {

  datatype Option<+T> = None | Some(value: T)

  /** Which coordinate argument an out-of-bounds error is about. */
  datatype Coord = Row | Col | Row1 | Col1 | Row2 | Col2

  /** The three shape checks that can fail while creating an array. */
  datatype ShapeDetail =
    | SliceLength(length: nat, expected: nat)      // FromSlice: the slice length is not height*width
    | JaggedHeight(rows: nat, height: nat)         // FromJagged: too many rows
    | RowWidth(row: nat, length: nat, width: nat)  // FromJagged: one row too long

  datatype Error =
    | OutOfBounds(coord: Coord, index: int, limit: nat)
    | Shape(detail: ShapeDetail)
    | NilDest
    | DestLength(length: nat, expected: nat)
  {
    /** The errors that a Scan of a cursor can latch. */
    predicate IsDestError() {
      NilDest? || DestLength?
    }
  }
}
