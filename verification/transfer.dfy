/**
  The two ways Scan moves elements into its destination, as functions on
  sequences: Go's built-in copy, which behaves as if the source were read
  in full before anything is written (memmove), and a loop that writes one
  element at a time and, when the destination is a view of the source's
  own buffer, may read an element it has already overwritten.
 */
module Transfer {
  /** All offsets lie below n. */
  predicate Within(offs: seq<nat>, n: nat)
  {
    forall c :: 0 <= c < |offs| ==> offs[c] < n
  }

  /** The elements of src at the offsets offs, in order. */
  function Gather<T>(src: seq<T>, offs: seq<nat>): (r: seq<T>)
    requires Within(offs, |src|)
  {
    seq(|offs|, c requires 0 <= c < |offs| => src[offs[c]])
  }

  /**
    Go's copy(s[lo:], r) with r no longer than the rest of s: the run of s
    starting at lo now holds r and every element outside it is kept.
   */
  function Splice<T>(s: seq<T>, lo: nat, r: seq<T>): (t: seq<T>)
    requires lo + |r| <= |s|
    ensures |t| == |s|
    ensures t[lo..lo + |r|] == r
    ensures forall i :: 0 <= i < |s| && !(lo <= i < lo + |r|) ==> t[i] == s[i]
  {
    s[..lo] + r + s[lo + |r|..]
  }

  /**
    The destination after `for c := range offs { dst[lo+c] = src[offs[c]] }`.
    When aliased, src is the destination buffer itself, so each read sees the
    writes made before it; otherwise src is a separate, unchanging buffer.
    Only the run dst[lo .. lo+|offs|) is ever written.
   */
  function CopyEach<T>(dst: seq<T>, src: seq<T>, aliased: bool, lo: nat, offs: seq<nat>): (t: seq<T>)
    requires lo + |offs| <= |dst|
    requires Within(offs, if aliased then |dst| else |src|)
    ensures |t| == |dst|
    ensures forall i :: 0 <= i < |dst| && !(lo <= i < lo + |offs|) ==> t[i] == dst[i]
    decreases |offs|
  {
    if |offs| == 0 then dst
    else
      var c := |offs| - 1;
      var before := CopyEach(dst, src, aliased, lo, offs[..c]);
      before[lo + c := (if aliased then before else src)[offs[c]]]
  }

  /** Without aliasing, the element loop has copy's effect: the run holds the gathered elements. */
  lemma {:induction false} CopyEachSeparate<T>(dst: seq<T>, src: seq<T>, lo: nat, offs: seq<nat>)
    requires lo + |offs| <= |dst| && Within(offs, |src|)
    ensures CopyEach(dst, src, false, lo, offs) == Splice(dst, lo, Gather(src, offs))
    decreases |offs|
  {
    if |offs| > 0 {
      var c := |offs| - 1;
      CopyEachSeparate(dst, src, lo, offs[..c]);
    }
  }

  /**
    With aliasing, the element loop still has copy's effect when no read
    falls on an element the loop has already written.
   */
  lemma {:induction false} CopyEachUnseen<T>(dst: seq<T>, lo: nat, offs: seq<nat>)
    requires lo + |offs| <= |dst| && Within(offs, |dst|)
    requires forall c :: 0 <= c < |offs| ==> !(lo <= offs[c] < lo + c)
    ensures CopyEach(dst, dst, true, lo, offs) == Splice(dst, lo, Gather(dst, offs))
    decreases |offs|
  {
    if |offs| > 0 {
      var c := |offs| - 1;
      CopyEachUnseen(dst, lo, offs[..c]);
      var before := CopyEach(dst, dst, true, lo, offs[..c]);
      assert before[offs[c]] == dst[offs[c]];
    }
  }
}
