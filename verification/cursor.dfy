/**
  The state machine behind the Rows and Cols cursors, as pure functions.

  A cursor over `count` lines (rows or columns) starts at index -1. Each Next
  moves one line on while there is one, and otherwise reports false and stays
  put. Scan latches the first destination error it meets and from then on
  reports that error without looking at its argument.
 */
module Cursor {
  import opened Errors

  /** Next: the new index and whether the cursor moved. */
  function Advance(index: int, count: nat): (int, bool)
  {
    if index + 1 >= count then (index, false) else (index + 1, true)
  }

  /** The index after k calls of Next on a fresh cursor. */
  function After(count: nat, k: nat): int
  {
    if k == 0 then -1 else Advance(After(count, k - 1), count).0
  }

  /** A fresh cursor visits 0, 1, ..., count-1 and then stays on the last line. */
  lemma {:induction false} AfterIndex(count: nat, k: nat)
    ensures After(count, k) == (if k <= count then k else count) - 1
  {
    if k > 0 {
      AfterIndex(count, k - 1);
    }
  }

  /** Call k+1 of Next on a fresh cursor succeeds exactly when k < count. */
  lemma AdvanceCount(count: nat, k: nat)
    ensures Advance(After(count, k), count).1 <==> k < count
  {
    AfterIndex(count, k);
  }

  /** Once Next has reported false it reports false again and the index stays. */
  lemma AdvanceExhausted(index: int, count: nat)
    requires !Advance(index, count).1
    ensures Advance(Advance(index, count).0, count) == Advance(index, count)
    ensures Advance(index, count).0 == index
  {
  }

  /**
    Scan's error: the latched one if there is one, else NilDest for a nil
    destination (dest == None), else DestLength when the destination has
    the wrong length, else none.
   */
  function Latch(latched: Option<Error>, dest: Option<nat>, expected: nat): (e: Option<Error>)
    ensures latched.Some? ==> e == latched
    ensures e.None? <==> latched.None? && dest == Some(expected)
    ensures latched.None? && dest.None? ==> e == Some(NilDest)
    ensures latched.None? && dest.Some? && dest.value != expected ==> e == Some(DestLength(dest.value, expected))
  {
    if latched.Some? then latched
    else if dest.None? then Some(NilDest)
    else if dest.value != expected then Some(DestLength(dest.value, expected))
    else None
  }

  /** The error after a run of Scans with the given destinations. */
  function LatchAll(latched: Option<Error>, dests: seq<Option<nat>>, expected: nat): Option<Error>
    decreases dests
  {
    if dests == [] then latched
    else LatchAll(Latch(latched, dests[0], expected), dests[1..], expected)
  }

  /** A latched error survives every later Scan, whatever its destination. */
  lemma {:induction false} LatchSticky(latched: Option<Error>, dests: seq<Option<nat>>, expected: nat)
    requires latched.Some?
    ensures LatchAll(latched, dests, expected) == latched
  {
    if dests != [] {
      LatchSticky(Latch(latched, dests[0], expected), dests[1..], expected);
    }
  }
}
