/** Where a message is drawn: its row and the column each character occupies. */
module Layout {

  /** A placed message: its text, its target row, and column -> character. */
  datatype Layout = Layout(msg: string, row: int, cols: map<int, char>)

  /**
   * The first column of a centred message of length `len` on a grid of
   * `width` columns, never left of column 0. Dafny's `/` by a positive
   * divisor rounds toward minus infinity, as Python's `//` does.
   */
  function LeftEdge(len: nat, width: nat): (left: nat)
  {
    if (width - len) / 2 > 0 then (width - len) / 2 else 0
  }

  /** The placement of `msg` on a grid of `height` rows and `width` columns. */
  function Place(msg: string, height: nat, width: nat): (l: Layout)
    ensures l.msg == msg && l.row == height / 2
    ensures forall x :: x in l.cols <==> LeftEdge(|msg|, width) <= x < LeftEdge(|msg|, width) + |msg|
    ensures forall i :: 0 <= i < |msg| ==> l.cols[LeftEdge(|msg|, width) + i] == msg[i]
  {
    var left := LeftEdge(|msg|, width);
    var span := Span(left, left + |msg|);
    Layout(msg, height / 2, map x | x in span :: msg[x - left])
  }

  /** The integers lo .. hi-1. */
  function Span(lo: int, hi: int): (s: set<int>)
    ensures forall x :: x in s <==> lo <= x < hi
    decreases hi - lo
  {
    if lo >= hi then {} else {lo} + Span(lo + 1, hi)
  }

  /** The span lo .. hi-1 holds hi - lo integers. */
  lemma {:induction false} SpanSize(lo: int, hi: int)
    requires lo <= hi
    ensures |Span(lo, hi)| == hi - lo
    decreases hi - lo
  {
    if lo < hi {
      SpanSize(lo + 1, hi);
      assert lo !in Span(lo + 1, hi);
    }
  }

  /** A map whose keys are exactly lo .. hi-1 has hi - lo entries. */
  lemma SizeOfSpanMap(m: map<int, char>, lo: int, hi: int)
    requires lo <= hi
    requires forall x :: x in m <==> lo <= x < hi
    ensures |m| == hi - lo
  {
    SpanSize(lo, hi);
    assert m.Keys == Span(lo, hi);
  }

  /** A placed message occupies one column per character. */
  lemma PlaceSize(msg: string, height: nat, width: nat)
    ensures |Place(msg, height, width).cols| == |msg|
  {
    var left := LeftEdge(|msg|, width);
    SizeOfSpanMap(Place(msg, height, width).cols, left, left + |msg|);
  }

  /**
   * On a grid at least as wide as the message, every column lies on the
   * grid and the blank margin right of it equals the left one or exceeds it by one.
   */
  lemma PlaceCentred(msg: string, height: nat, width: nat)
    requires |msg| <= width
    ensures var left := LeftEdge(|msg|, width);
            var right := width - (left + |msg|);
            left <= right <= left + 1
    ensures forall x :: x in Place(msg, height, width).cols ==> 0 <= x < width
  {
  }

  /**
   * On a grid narrower than the message, the message starts at column 0
   * and its column `width` lies off the grid.
   */
  lemma PlaceNarrow(msg: string, height: nat, width: nat)
    requires width < |msg|
    ensures LeftEdge(|msg|, width) == 0
    ensures width in Place(msg, height, width).cols
  {
  }

  /** "SYSTEM ONLINE" on an 80 x 24 grid sits on row 12, columns 33 .. 45. */
  lemma PlaceSystemOnline()
    ensures var l := Place("SYSTEM ONLINE", 24, 80);
            && l.row == 12
            && (forall x :: x in l.cols <==> 33 <= x <= 45)
            && l.cols[33] == 'S' && l.cols[45] == 'E'
  {
    var msg := "SYSTEM ONLINE";
    assert |msg| == 13 && msg[0] == 'S' && msg[12] == 'E';
    assert LeftEdge(|msg|, 80) == 33;
  }
}
