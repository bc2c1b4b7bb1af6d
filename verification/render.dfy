/**
  The text that Array2D.String produces, as a specification.

  A line of items is printed as "[" + items separated by single spaces + "]".
  When a line has more than PrintThreshold items only the first and last
  EdgeItems are printed, with one "..." between them. The array is a line of
  row lines, each row line a line of element texts, and the two summaries are
  made independently of each other.
 */
module Render {
  import Layout

  /** Lines longer than this are summarised. */
  const PrintThreshold: nat := 10
  /** How many items a summarised line keeps at each end. */
  const EdgeItems: nat := 5
  /** What stands for the left-out middle of a summarised line. */
  const Ellipsis: string := "..."

  // ---------------------------------------------------------------------
  // Which items of a line are printed
  // ---------------------------------------------------------------------

  /** One printed position of a line: the item with that index, or the gap marker. */
  datatype Slot = Item(index: nat) | Gap

  /** The positions printed for a line of n items, in printing order. */
  function Visible(n: nat): (slots: seq<Slot>)
    ensures n <= PrintThreshold ==> |slots| == n
    ensures n > PrintThreshold ==> |slots| == 2 * EdgeItems + 1 && slots[EdgeItems] == Gap
    ensures forall k :: 0 <= k < |slots| && slots[k].Item? ==> slots[k].index < n
  {
    if n <= PrintThreshold then
      seq(n, (k: nat) => Item(k))
    else
      seq(2 * EdgeItems + 1, (k: nat) =>
        if k < EdgeItems then Item(k)
        else if k == EdgeItems then Gap
        else Item(n - (2 * EdgeItems + 1) + k))
  }

  /**
    Item i of a line of n items is printed exactly when the line is short or
    i is among the first or last EdgeItems.
   */
  lemma VisibleItems(n: nat, i: nat)
    requires i < n
    ensures (exists k :: 0 <= k < |Visible(n)| && Visible(n)[k] == Item(i))
            <==> n <= PrintThreshold || i < EdgeItems || n - EdgeItems <= i
  {
    var slots := Visible(n);
    if n <= PrintThreshold {
      assert slots[i] == Item(i);
    } else if i < EdgeItems {
      assert slots[i] == Item(i);
    } else if n - EdgeItems <= i {
      var k := i - n + 2 * EdgeItems + 1;
      assert slots[k] == Item(i);
    }
  }

  /** Printed items keep their order: a later position shows a later item. */
  lemma VisibleOrdered(n: nat, k1: nat, k2: nat)
    requires k1 < k2 < |Visible(n)|
    requires Visible(n)[k1].Item? && Visible(n)[k2].Item?
    ensures Visible(n)[k1].index < Visible(n)[k2].index
  {
  }

  /** A line has a gap marker exactly when it is summarised, and then only one. */
  lemma VisibleGap(n: nat, k: nat)
    requires k < |Visible(n)|
    ensures Visible(n)[k] == Gap <==> n > PrintThreshold && k == EdgeItems
  {
  }

  /**
    Where item i of a line of n items is printed, for the i a printing loop
    reaches (all of them, or on a summarised line the first and last
    EdgeItems; reaching i == EdgeItems prints the gap instead).
   */
  function Position(n: nat, i: nat): nat
  {
    if n > PrintThreshold && n - EdgeItems <= i then i - (n - 2 * EdgeItems - 1) else i
  }

  /** What is printed at the position a printing loop reaches with index i. */
  lemma PositionSlot(n: nat, i: nat)
    requires i < n
    requires n > PrintThreshold ==> i <= EdgeItems || n - EdgeItems <= i
    ensures Position(n, i) < |Visible(n)|
    ensures Visible(n)[Position(n, i)] == if n > PrintThreshold && i == EdgeItems then Gap else Item(i)
  {
  }

  // ---------------------------------------------------------------------
  // Lines of text
  // ---------------------------------------------------------------------

  /** Items separated by single spaces; built from the end so that appending is one step. */
  function JoinSpaces(items: seq<string>): string
  {
    if |items| == 0 then ""
    else if |items| == 1 then items[0]
    else JoinSpaces(items[..|items| - 1]) + " " + items[|items| - 1]
  }

  /** Writing item k after the first k items: a space first unless it is the first item. */
  lemma JoinSpacesStep(items: seq<string>, k: nat)
    requires k < |items|
    ensures JoinSpaces(items[..k + 1]) ==
            JoinSpaces(items[..k]) + (if k > 0 then " " else "") + items[k]
  {
    assert items[..k + 1][..k] == items[..k];
  }

  /** The printed texts of a line of items. */
  function Summarize(items: seq<string>): (r: seq<string>)
    ensures |r| == |Visible(|items|)|
    ensures forall k :: 0 <= k < |r| ==>
      r[k] == if Visible(|items|)[k].Gap? then Ellipsis else items[Visible(|items|)[k].index]
  {
    var slots := Visible(|items|);
    seq(|slots|, k requires 0 <= k < |slots| =>
      match slots[k]
      case Gap => Ellipsis
      case Item(i) => items[i])
  }

  /**
    Summarize in closed form: a line of at most PrintThreshold items is kept
    whole; a longer one keeps its first and last EdgeItems items with the
    ellipsis between them.
   */
  lemma SummarizeClosed(items: seq<string>)
    ensures |items| <= PrintThreshold ==> Summarize(items) == items
    ensures |items| > PrintThreshold ==>
      Summarize(items) == items[..EdgeItems] + [Ellipsis] + items[|items| - EdgeItems..]
  {
  }

  /** The text a printing loop has written for a line before it reaches index i. */
  function LinePrefix(items: seq<string>, i: nat): string
  {
    var s := Summarize(items);
    "[" + JoinSpaces(if Position(|items|, i) <= |s| then s[..Position(|items|, i)] else s)
  }

  /**
    One step of printing a line: after the item or gap reached with index i
    comes a separating space unless it is the first, then the item's text or
    the gap marker.
   */
  lemma LineStep(items: seq<string>, i: nat, next: nat)
    requires i < |items|
    requires |items| > PrintThreshold ==> i <= EdgeItems || |items| - EdgeItems <= i
    requires next == if |items| > PrintThreshold && i == EdgeItems then |items| - EdgeItems else i + 1
    ensures Position(|items|, i) < |Summarize(items)|
    ensures Position(|items|, next) == Position(|items|, i) + 1
    ensures LinePrefix(items, next) ==
      LinePrefix(items, i) + (if i > 0 then " " else "") +
      (if |items| > PrintThreshold && i == EdgeItems then Ellipsis else items[i])
  {
    var n, s, k := |items|, Summarize(items), Position(|items|, i);
    PositionSlot(n, i);
    var sep := if i > 0 then " " else "";
    var text := if n > PrintThreshold && i == EdgeItems then Ellipsis else items[i];
    assert s[k] == text;
    assert k > 0 <==> i > 0;
    JoinSpacesStep(s, k);
    calc {
      LinePrefix(items, next);
      "[" + JoinSpaces(s[..k + 1]);
      "[" + (JoinSpaces(s[..k]) + sep + text);
      { SeqAssoc3("[", JoinSpaces(s[..k]), sep, text); }
      "[" + JoinSpaces(s[..k]) + sep + text;
    }
  }

  /** LineStep for a printing loop that appends to text written before the line began. */
  lemma AppendLineStep(before: string, items: seq<string>, i: nat, next: nat, sep: string, text: string)
    requires i < |items|
    requires |items| > PrintThreshold ==> i <= EdgeItems || |items| - EdgeItems <= i
    requires next == if |items| > PrintThreshold && i == EdgeItems then |items| - EdgeItems else i + 1
    requires sep == if i > 0 then " " else ""
    requires text == if |items| > PrintThreshold && i == EdgeItems then Ellipsis else items[i]
    ensures before + LinePrefix(items, i) + sep + text == before + LinePrefix(items, next)
  {
    LineStep(items, i, next);
    SeqAssoc3(before, LinePrefix(items, i), sep, text);
  }

  /** LineEnd for a printing loop that appends to text written before the line began. */
  lemma AppendLineEnd(before: string, items: seq<string>)
    ensures before + LinePrefix(items, |items|) + "]" == before + Line(items)
  {
    LineEnd(items);
  }

  lemma SeqAssoc3(a: string, b: string, c: string, d: string)
    ensures a + (b + c + d) == a + b + c + d
    ensures a + b + c + d == a + (b + c + d)
  {
  }

  /** Once a printing loop has passed the last index, the line only lacks its closing bracket. */
  lemma LineEnd(items: seq<string>)
    ensures Position(|items|, |items|) == |Summarize(items)|
    ensures LinePrefix(items, |items|) + "]" == Line(items)
  {
    assert Summarize(items)[..Position(|items|, |items|)] == Summarize(items);
  }

  /** A bracketed, space-separated, possibly summarised line. */
  function Line(items: seq<string>): string
  {
    "[" + JoinSpaces(Summarize(items)) + "]"
  }

  /** The texts of the elements of row y, in column order. */
  function CellTexts<T>(buf: seq<T>, height: nat, width: nat, colMajor: bool, show: T -> string, y: nat)
    : (texts: seq<string>)
    requires |buf| == height * width && y < height
    ensures |texts| == width
    ensures forall x :: 0 <= x < width ==>
      texts[x] == show(buf[Layout.Offset(height, width, colMajor, y, x)])
  {
    var row := Layout.RowOf(buf, height, width, colMajor, y);
    seq(width, x requires 0 <= x < width => show(row[x]))
  }

  /** The texts of the rows, each one summarised on its own. */
  function RowTexts<T>(buf: seq<T>, height: nat, width: nat, colMajor: bool, show: T -> string)
    : (texts: seq<string>)
    requires |buf| == height * width
    ensures |texts| == height
    ensures forall y :: 0 <= y < height ==> texts[y] == Line(CellTexts(buf, height, width, colMajor, show, y))
  {
    seq(height, y requires 0 <= y < height => Line(CellTexts(buf, height, width, colMajor, show, y)))
  }

  /** texts[y] is the printed line of row y of the array stored in buf. */
  predicate IsRowLine<T>(buf: seq<T>, height: nat, width: nat, colMajor: bool, show: T -> string,
                         texts: seq<string>, y: nat)
  {
    |buf| == height * width && y < height && y < |texts| &&
    texts[y] == Line(CellTexts(buf, height, width, colMajor, show, y))
  }

  /** RowTexts holds the printed line of every row. */
  lemma RowTextsLines<T>(buf: seq<T>, height: nat, width: nat, colMajor: bool, show: T -> string)
    requires |buf| == height * width
    ensures forall y {:trigger IsRowLine(buf, height, width, colMajor, show, RowTexts(buf, height, width, colMajor, show), y)} ::
      0 <= y < height ==> IsRowLine(buf, height, width, colMajor, show, RowTexts(buf, height, width, colMajor, show), y)
  {
  }

  /** What String prints after its header. */
  function Body<T>(buf: seq<T>, height: nat, width: nat, colMajor: bool, show: T -> string): string
    requires |buf| == height * width
  {
    if height == 0 || width == 0 then "[]"
    else Line(RowTexts(buf, height, width, colMajor, show))
  }

  // ---------------------------------------------------------------------
  // Decimal numbers in the header
  // ---------------------------------------------------------------------

  function DigitChar(d: nat): char
    requires d < 10
  {
    ('0' as int + d) as char
  }

  /** The %d rendering of a non-negative int. */
  function Decimal(n: nat): (s: string)
    ensures |s| >= 1
    ensures forall i :: 0 <= i < |s| ==> '0' <= s[i] <= '9'
    ensures |s| > 1 ==> s[0] != '0'
  {
    if n < 10 then [DigitChar(n)] else Decimal(n / 10) + [DigitChar(n % 10)]
  }

  /** The number a string of decimal digits denotes. */
  function DecimalValue(s: string): nat
    requires forall i :: 0 <= i < |s| ==> '0' <= s[i] <= '9'
  {
    if s == [] then 0
    else DecimalValue(s[..|s| - 1]) * 10 + (s[|s| - 1] as int - '0' as int)
  }

  /** Decimal prints n and nothing else. */
  lemma {:induction false} DecimalRoundTrip(n: nat)
    ensures DecimalValue(Decimal(n)) == n
  {
    var s := Decimal(n);
    if n >= 10 {
      DecimalRoundTrip(n / 10);
      assert s == Decimal(n / 10) + [DigitChar(n % 10)];
      assert s[..|s| - 1] == Decimal(n / 10);
    }
  }

  /** The header String writes before the body. */
  function Header(typeName: string, height: nat, width: nat): string
  {
    "Array2d[" + typeName + "] " + Decimal(height) + "x" + Decimal(width) + " "
  }
}
