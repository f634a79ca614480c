/**
 * The sparse tape of the interpreter: a dictionary from cell position to
 * symbol whose missing entries read as the blank symbol. As with Python's
 * `defaultdict`, reading a missing cell inserts it (holding the blank), so
 * the set of keys can grow without any cell's symbol changing.
 */
module Tape {

  type Cells = map<int, char>

  /** The symbol a read at `pos` returns: the stored one, or the blank. */
  function Read(t: Cells, pos: int, blank: char): char {
    if pos in t then t[pos] else blank
  }

  /** The positions lo, lo + 1, ..., hi - 1. */
  function Interval(lo: int, hi: int): (r: set<int>)
    ensures forall i :: i in r <==> lo <= i < hi
    decreases hi - lo
  {
    if hi <= lo then {} else Interval(lo, hi - 1) + {hi - 1}
  }

  function Min(a: int, b: int): int { if a <= b then a else b }

  function Max(a: int, b: int): int { if a <= b then b else a }

  /** The dictionary after a read of the cell at `pos`. */
  function Touch(t: Cells, pos: int, blank: char): (r: Cells)
    ensures forall q :: q in r <==> q in t || q == pos
    ensures forall q :: Read(r, q, blank) == Read(t, q, blank)
  {
    if pos in t then t else t[pos := blank]
  }

  /** The dictionary after reading the cells lo, ..., hi - 1 in turn. */
  function Fill(t: Cells, lo: int, hi: int, blank: char): (r: Cells)
    ensures forall q :: q in r <==> q in t || lo <= q < hi
    ensures forall q :: Read(r, q, blank) == Read(t, q, blank)
    decreases hi - lo
  {
    if hi <= lo then t else Touch(Fill(t, lo, hi - 1, blank), hi - 1, blank)
  }

  lemma NonEmptyHasElement(s: set<int>)
    requires s != {}
    ensures exists x :: x in s
  {
    if forall x :: x !in s { assert false; }
  }

  /** The least element of a non-empty finite set of positions. */
  ghost function MinOf(s: set<int>): (m: int)
    requires s != {}
    ensures m in s && forall k :: k in s ==> m <= k
    decreases |s|
  {
    NonEmptyHasElement(s);
    var x :| x in s;
    if s == {x} then x
    else
      var rest := s - {x};
      assert |rest| < |s|;
      var y := MinOf(rest);
      assert forall k :: k in s ==> k == x || k in rest;
      if x <= y then x else y
  }

  /** The greatest element of a non-empty finite set of positions. */
  ghost function MaxOf(s: set<int>): (m: int)
    requires s != {}
    ensures m in s && forall k :: k in s ==> k <= m
    decreases |s|
  {
    NonEmptyHasElement(s);
    var x :| x in s;
    if s == {x} then x
    else
      var rest := s - {x};
      assert |rest| < |s|;
      var y := MaxOf(rest);
      assert forall k :: k in s ==> k == x || k in rest;
      if y <= x then x else y
  }

  /** What the tape display returns: the bare blank symbol for an empty
      dictionary, otherwise the shown symbols, the head's offset into them
      and the position of the first one. */
  datatype TapeString =
    | Bare(text: string)
    | Shown(text: string, headOffset: int, tapeStart: int)

  /** First shown position: the least key, or the head if it lies further left. */
  ghost function ViewStart(t: Cells, head: int): (lo: int)
    requires t != map[]
    ensures lo <= head && (lo == head || lo in t)
    ensures forall k :: k in t ==> lo <= k
  {
    Min(MinOf(t.Keys), head)
  }

  /** One past the last shown position: past the greatest key, or past the head. */
  ghost function ViewEnd(t: Cells, head: int): (hi: int)
    requires t != map[]
    ensures head < hi && (hi - 1 == head || hi - 1 in t)
    ensures forall k :: k in t ==> k < hi
  {
    Max(MaxOf(t.Keys), head) + 1
  }

  /** The symbols read at positions lo, ..., lo + n - 1. */
  function Segment(t: Cells, lo: int, n: nat, blank: char): (r: string)
    ensures |r| == n
    ensures forall q :: lo <= q < lo + n ==> r[q - lo] == Read(t, q, blank)
  {
    seq(n, i => Read(t, lo + i, blank))
  }

  /** The value the tape display computes on dictionary `t` with the head at `head`. */
  ghost function TapeStringOf(t: Cells, head: int, blank: char): (r: TapeString)
    ensures r.Bare? <==> t == map[]
  {
    if t == map[] then Bare([blank])
    else
      var lo, hi := ViewStart(t, head), ViewEnd(t, head);
      Shown(Segment(t, lo, hi - lo, blank), head - lo, lo)
  }

  /** The display of an empty dictionary is the bare blank symbol; otherwise it shows
      every cell from the leftmost of the keys and the head to the rightmost of them,
      and the head offset points at the head's symbol. */
  lemma TapeStringShape(t: Cells, head: int, blank: char)
    ensures var r := TapeStringOf(t, head, blank);
      && (r.Bare? ==> r.text == [blank])
      && (r.Shown? ==>
            && r.tapeStart <= head < r.tapeStart + |r.text|
            && r.headOffset == head - r.tapeStart
            && r.text[r.headOffset] == Read(t, head, blank)
            && (r.tapeStart == head || r.tapeStart in t)
            && (r.tapeStart + |r.text| - 1 == head || r.tapeStart + |r.text| - 1 in t)
            && (forall k :: k in t ==> r.tapeStart <= k < r.tapeStart + |r.text|)
            && (forall q :: r.tapeStart <= q < r.tapeStart + |r.text| ==> r.text[q - r.tapeStart] == Read(t, q, blank)))
  {
  }

  /** The dictionary after the tape display: every shown cell has been read. */
  ghost function AfterShow(t: Cells, head: int, blank: char): (r: Cells)
    ensures t != map[] ==> forall q :: q in r <==> ViewStart(t, head) <= q < ViewEnd(t, head)
    ensures forall q :: Read(r, q, blank) == Read(t, q, blank)
  {
    if t == map[] then t
    else
      var lo, hi := ViewStart(t, head), ViewEnd(t, head);
      assert forall k :: k in t ==> lo <= k < hi;
      Fill(t, lo, hi, blank)
  }

  /** A string holding the symbols from the leftmost of the keys and the head
      to the rightmost of them is what the display shows, and reading those
      cells leaves the dictionary the display leaves. */
  lemma ShownFromBounds(t: Cells, head: int, lo: int, hi: int, text: string, blank: char)
    requires t != map[]
    requires lo == Min(MinOf(t.Keys), head) && hi == Max(MaxOf(t.Keys), head) + 1
    requires |text| == hi - lo
    requires forall q :: lo <= q < hi ==> text[q - lo] == Read(t, q, blank)
    ensures TapeStringOf(t, head, blank) == Shown(text, head - lo, lo)
    ensures AfterShow(t, head, blank) == Fill(t, lo, hi, blank)
  {
    var segment := Segment(t, lo, hi - lo, blank);
    forall i | 0 <= i < |text| ensures text[i] == segment[i] {
      assert text[(lo + i) - lo] == Read(t, lo + i, blank);
    }
    assert text == segment;
  }

  /** The cells off, ..., off + |s| - 1 holding the symbols of `s`, and no other key. */
  function Row(s: string, off: int): (r: Cells)
    ensures forall q :: q in r <==> off <= q < off + |s|
    ensures forall blank, q :: Read(r, q, blank) == if off <= q < off + |s| then s[q - off] else blank
  {
    var cells := Interval(off, off + |s|);
    map q | q in cells :: s[q - off]
  }

  /** Reading just outside a row extends it by a blank at that end. */
  lemma TouchRow(s: string, off: int, pos: int, blank: char)
    requires off - 1 <= pos <= off + |s|
    ensures off <= pos < off + |s| ==> Touch(Row(s, off), pos, blank) == Row(s, off)
    ensures pos == off + |s| ==> Touch(Row(s, off), pos, blank) == Row(s + [blank], off)
    ensures pos == off - 1 ==> Touch(Row(s, off), pos, blank) == Row([blank] + s, off - 1)
  {
    var t := Touch(Row(s, off), pos, blank);
    if pos == off + |s| {
      var g := Row(s + [blank], off);
      assert t.Keys == g.Keys;
      forall q | q in t.Keys ensures t[q] == g[q] {
        assert Read(t, q, blank) == Read(g, q, blank);
      }
    } else if pos == off - 1 {
      var g := Row([blank] + s, off - 1);
      assert t.Keys == g.Keys;
      forall q | q in t.Keys ensures t[q] == g[q] {
        assert Read(t, q, blank) == Read(g, q, blank);
      }
    }
  }

  /** Writing inside a row is writing into its string. */
  lemma WriteRow(s: string, off: int, pos: int, sym: char)
    requires off <= pos < off + |s|
    ensures Row(s, off)[pos := sym] == Row(s[pos - off := sym], off)
  {
    var a, b := Row(s, off)[pos := sym], Row(s[pos - off := sym], off);
    assert a.Keys == b.Keys;
  }

  /** On a row that holds the head, the display starts and ends with the row. */
  lemma RowView(s: string, off: int, head: int)
    requires off <= head < off + |s|
    ensures Row(s, off) != map[]
    ensures ViewStart(Row(s, off), head) == off && ViewEnd(Row(s, off), head) == off + |s|
  {
    var t := Row(s, off);
    assert off in t && off + |s| - 1 in t;
  }

  /** On a row that holds the head, the display reads no new cell. */
  lemma ShowRowKeepsCells(s: string, off: int, head: int, blank: char)
    requires off <= head < off + |s|
    ensures AfterShow(Row(s, off), head, blank) == Row(s, off)
  {
    var t := Row(s, off);
    RowView(s, off, head);
    var a := Fill(t, off, off + |s|, blank);
    assert a.Keys == t.Keys;
    forall q | q in a.Keys ensures a[q] == t[q] {
      assert Read(a, q, blank) == Read(t, q, blank);
    }
    assert AfterShow(t, head, blank) == a;
  }

  /** The row after reading the cell at `head`, which lies inside the row or
      just beside it; beside it, the row grows by a blank at that end. */
  function Cover(s: string, off: int, head: int, blank: char): (r: (string, int))
    requires off - 1 <= head <= off + |s|
    ensures r.1 <= head < r.1 + |r.0|
    ensures off <= head < off + |s| ==> r == (s, off)
  {
    if head == off - 1 then ([blank] + s, off - 1)
    else if head == off + |s| then (s + [blank], off)
    else (s, off)
  }

  /** Reading the head's cell of a row is covering the head. */
  lemma CoverTouch(s: string, off: int, head: int, blank: char)
    requires off - 1 <= head <= off + |s|
    ensures var (c, o) := Cover(s, off, head, blank); Row(c, o) == Touch(Row(s, off), head, blank)
  {
    TouchRow(s, off, head, blank);
  }

  /** On a non-empty row with the head inside it or just beside it, the
      display shows a string, and afterwards the row covers the head. */
  lemma AfterShowRow(s: string, off: int, head: int, blank: char)
    requires off - 1 <= head <= off + |s| && s != []
    ensures TapeStringOf(Row(s, off), head, blank).Shown?
    ensures AfterShow(Row(s, off), head, blank) == Row(Cover(s, off, head, blank).0, Cover(s, off, head, blank).1)
  {
    var t := Row(s, off);
    assert off in t;
    CoverTouch(s, off, head, blank);
    var a := AfterShow(t, head, blank);
    var r := Row(Cover(s, off, head, blank).0, Cover(s, off, head, blank).1);
    assert ViewStart(t, head) == Min(off, head);
    assert ViewEnd(t, head) == Max(off + |s| - 1, head) + 1 by {
      assert off + |s| - 1 in t;
    }
    assert a.Keys == r.Keys;
    forall q | q in a.Keys ensures a[q] == r[q] {
      assert Read(a, q, blank) == Read(r, q, blank);
    }
  }
}
