/** The "move line up / down" editing commands (Mod-Alt-ArrowUp and
    Mod-Alt-ArrowDown). Each command reads the document and the main
    cursor, and either declines (returns false) or dispatches one
    transaction: a replacement of two adjacent lines by the same two lines
    in the other order, plus a new cursor. The model returns that
    transaction instead of dispatching it. */
module LineMove {
  import opened Common
  import opened TextLines

  /** The argument of `dispatch`: `changes: {from, to, insert}` and `selection: {anchor}`. */
  datatype Transaction = Transaction(from: nat, to: nat, insert: string, anchor: nat)

  /** The document once the transaction's change is applied. */
  function Applied(doc: string, t: Transaction): string
    requires t.from <= t.to <= |doc|
  {
    ApplyChange(doc, t.from, t.to, t.insert)
  }

  /** `moveLineUp`: no transaction on line 1; otherwise replace
      `[prevLine.from, currentLine.to]` by the current line, a newline and the
      previous line, and keep the cursor's column. */
  function MoveLineUp(doc: string, head: nat): (r: Option<Transaction>)
    requires head <= |doc|
    ensures r.None? <==> LineAt(doc, head).from == 0
    ensures r.Some? ==>
              var cur := LineAt(doc, head);
              && r.value.from < cur.from && r.value.to == cur.to
              && |r.value.insert| == r.value.to - r.value.from
              && r.value.anchor - r.value.from == head - cur.from
  {
    var cur := LineAt(doc, head);
    FirstLineIff(doc, head);
    if cur.number == 1 then None
    else
      PrevLine(doc, head);
      var prev := LineAt(doc, cur.from - 1);
      var newText := LineText(doc, cur) + "\n" + LineText(doc, prev);
      Some(Transaction(prev.from, cur.to, newText, prev.from + (head - cur.from)))
  }

  /** `currentLine.number === doc.lines`: the line at `pos` is the last one. */
  predicate IsLastLine(doc: string, pos: nat)
    requires pos <= |doc|
    ensures IsLastLine(doc, pos) <==> LineAt(doc, pos).to == |doc|
  {
    LastLineIff(doc, pos);
    LineAt(doc, pos).number == LineCount(doc)
  }

  /** `moveLineDown`: no transaction on the last line; otherwise replace
      `[currentLine.from, nextLine.to]` by the next line, a newline and the
      current line, and put the cursor at the same column of the moved line. */
  function MoveLineDown(doc: string, head: nat): (r: Option<Transaction>)
    requires head <= |doc|
    ensures r.None? <==> LineAt(doc, head).to == |doc|
    ensures r.Some? ==>
              var cur := LineAt(doc, head);
              && r.value.from == cur.from && r.value.to > cur.to
              && |r.value.insert| == r.value.to - r.value.from
              && r.value.anchor - (r.value.to - (cur.to - cur.from)) == head - cur.from
  {
    var cur := LineAt(doc, head);
    if IsLastLine(doc, head) then None
    else
      NextLine(doc, head);
      var next := LineAt(doc, cur.to + 1);
      var currentLineText := LineText(doc, cur);
      var nextLineText := LineText(doc, next);
      var posInLine := head - cur.from;
      Some(Transaction(cur.from, next.to, nextLineText + "\n" + currentLineText,
                       cur.from + |nextLineText| + 1 + posInLine))
  }

  /** The two whole lines `[p, c - 1]` and `[c, e]` of `doc` are adjacent. */
  predicate AdjacentLines(doc: string, p: nat, c: nat, e: nat)
  {
    && IsLineStart(doc, p) && p < c <= e && IsLineEnd(doc, e)
    && doc[c - 1] == '\n' && NoNewline(doc, p, c - 1) && NoNewline(doc, c, e)
  }

  /** The document with the adjacent lines `[p, c - 1]` and `[c, e]` swapped. */
  function Swapped(doc: string, p: nat, c: nat, e: nat): string
    requires p < c <= e <= |doc|
  {
    ApplyChange(doc, p, e, doc[c..e] + "\n" + doc[p..c - 1])
  }

  /** `d` is `doc` with `[p, c - 1]` and `[c, e]` swapped, described slice by
      slice: the second line now starts at `p` and ends at `m`, then a
      newline, then the first line up to `e`; nothing else differs. */
  predicate SwapShape(doc: string, d: string, p: nat, c: nat, e: nat)
    requires p < c <= e <= |doc|
  {
    var m := p + (e - c);
    && |d| == |doc| && d[..p] == doc[..p] && d[e..] == doc[e..]
    && d[p..m] == doc[c..e] && d[m] == '\n' && d[m + 1..e] == doc[p..c - 1]
  }

  lemma SwappedShape(doc: string, p: nat, c: nat, e: nat)
    requires p < c <= e <= |doc|
    ensures SwapShape(doc, Swapped(doc, p, c, e), p, c, e)
  {
    var x, y := doc[c..e], doc[p..c - 1];
    var d := Swapped(doc, p, c, e);
    assert d[p..e] == x + "\n" + y;
    assert d[p..p + |x|] == d[p..e][..|x|];
    assert d[p + |x| + 1..e] == d[p..e][|x| + 1..];
    assert d[p + |x|] == d[p..e][|x|];
  }

  /** In a swapped document the two lines are again whole lines free of newlines. */
  lemma ShapeLines(doc: string, d: string, p: nat, c: nat, e: nat)
    requires AdjacentLines(doc, p, c, e) && SwapShape(doc, d, p, c, e)
    ensures var m := p + (e - c);
            && IsLineStart(d, p) && IsLineEnd(d, e) && d[m] == '\n'
            && NoNewline(d, p, m) && NoNewline(d, m + 1, e)
  {
    var m := p + (e - c);
    assert IsLineStart(d, p) by {
      if p > 0 { assert d[p - 1] == d[..p][p - 1]; }
    }
    assert IsLineEnd(d, e) by {
      if e < |d| { assert d[e] == d[e..][0]; }
    }
    assert NoNewline(doc, c, e) && NoNewline(doc, p, c - 1);
    forall k | p <= k < m ensures d[k] != '\n' {
      var j := c + (k - p);
      assert d[k] == d[p..m][k - p] == doc[c..e][k - p];
      assert doc[c..e][k - p] == doc[j] && c <= j < e;
    }
    forall k | m + 1 <= k < e ensures d[k] != '\n' {
      var j := p + (k - (m + 1));
      assert d[k] == d[m + 1..e][k - (m + 1)] == doc[p..c - 1][k - (m + 1)];
      assert doc[p..c - 1][k - (m + 1)] == doc[j] && p <= j < c - 1;
    }
  }

  /** The number of the line starting at a line start `p` counts the newlines before `p`. */
  lemma NumberAtStart(doc: string, p: nat)
    requires IsLineStart(doc, p)
    ensures LineAt(doc, p).from == p && LineAt(doc, p).number == CountNewlines(doc[..p]) + 1
  {
    NewlinesBeforeIs(doc, p);
  }

  /** Two texts that agree before `p` and each have one more line ending at
      their own newline count the same newlines up to it. */
  lemma SameNumber(a: string, b: string, p: nat, ma: nat, mb: nat)
    requires p <= ma < |a| && p <= mb < |b| && a[..p] == b[..p]
    requires a[ma] == '\n' && NoNewline(a, p, ma) && b[mb] == '\n' && NoNewline(b, p, mb)
    ensures CountNewlines(a[..ma + 1]) == CountNewlines(b[..mb + 1])
  {
    LineThenNewline(a, p, ma);
    LineThenNewline(b, p, mb);
  }

  /** A newline-free stretch `[p, m)` followed by a newline adds one to the count. */
  lemma LineThenNewline(s: string, p: nat, m: nat)
    requires p <= m < |s| && s[m] == '\n' && NoNewline(s, p, m)
    ensures CountNewlines(s[..m + 1]) == CountNewlines(s[..p]) + 1
  {
    assert s[..m + 1] == s[..p] + s[p..m] + "\n";
    CountAppend(s[..p] + s[p..m], "\n");
    CountAppend(s[..p], s[p..m]);
    assert CountNewlines(s[p..m]) == 0 by {
      forall k | 0 <= k < |s[p..m]| ensures s[p..m][k] != '\n' {
        assert s[p..m][k] == s[p + k];
      }
      CountZero(s[p..m]);
    }
    assert CountNewlines("\n") == 1 by {
      assert "\n"[..0] == [];
    }
  }

  /** In a swapped document, every offset of the first line finds the old
      second line there, under the old first line's number. */
  lemma FirstLineOf(doc: string, d: string, p: nat, c: nat, e: nat, q: nat)
    requires AdjacentLines(doc, p, c, e) && SwapShape(doc, d, p, c, e)
    requires p <= q <= p + (e - c)
    ensures var l := LineAt(d, q);
            && l.from == p && l.to == p + (e - c) && l.to < |d|
            && l.number == LineAt(doc, p).number
            && LineText(d, l) == doc[c..e]
  {
    ShapeLines(doc, d, p, c, e);
    LineAtUnique(d, p, p + (e - c), q);
    NumberAtStart(doc, p);
    NumberAtStart(d, p);
    LineTextIs(d, LineAt(d, q));
  }

  /** In a swapped document, every offset of the second line finds the old
      first line there, under the old second line's number. */
  lemma SecondLineOf(doc: string, d: string, p: nat, c: nat, e: nat, q: nat)
    requires AdjacentLines(doc, p, c, e) && SwapShape(doc, d, p, c, e)
    requires p + (e - c) + 1 <= q <= e
    ensures var l := LineAt(d, q);
            && l.from == p + (e - c) + 1 && l.to == e
            && l.number == LineAt(doc, c).number
            && LineText(d, l) == doc[p..c - 1]
  {
    var m := p + (e - c);
    ShapeLines(doc, d, p, c, e);
    LineAtUnique(d, m + 1, e, q);
    SameNumber(d, doc, p, m, c - 1);
    NumberAtStart(d, m + 1);
    NumberAtStart(doc, c);
    LineTextIs(d, LineAt(d, q));
  }

  /** Two adjacent lines read as the first, a newline and the second. */
  lemma Joined(doc: string, p: nat, c: nat, e: nat)
    requires p < c <= e <= |doc| && doc[c - 1] == '\n'
    ensures doc[p..e] == doc[p..c - 1] + "\n" + doc[c..e]
  {
    assert doc[p..e] == doc[p..c - 1] + doc[c - 1..c] + doc[c..e];
  }

  /** Splicing back the text that was cut out at `[p, e)` restores the document. */
  lemma Reassemble(doc: string, d: string, p: nat, c: nat, e: nat)
    requires p < c <= e <= |doc| && SwapShape(doc, d, p, c, e)
    ensures ApplyChange(d, p, e, doc[p..e]) == doc
  {
    assert doc == doc[..p] + doc[p..e] + doc[e..];
  }

  /** The transaction of `moveLineUp` in terms of the two lines it swaps. */
  lemma MoveLineUpIs(doc: string, head: nat)
    requires head <= |doc| && MoveLineUp(doc, head).Some?
    ensures var cur := LineAt(doc, head);
            var prev := LineAt(doc, cur.from - 1);
            var t := MoveLineUp(doc, head).value;
            && cur.from > 0 && AdjacentLines(doc, prev.from, cur.from, cur.to)
            && t.from == prev.from && t.to == cur.to && t.insert == doc[cur.from..cur.to] + "\n" + doc[prev.from..cur.from - 1]
            && t.anchor == head - (cur.from - prev.from)
  {
    PrevLine(doc, head);
    var cur := LineAt(doc, head);
    LineTextIs(doc, cur);
    LineTextIs(doc, LineAt(doc, cur.from - 1));
  }

  /** The transaction of `moveLineDown` in terms of the two lines it swaps. */
  lemma MoveLineDownIs(doc: string, head: nat)
    requires head <= |doc| && MoveLineDown(doc, head).Some?
    ensures var cur := LineAt(doc, head);
            var next := LineAt(doc, cur.to + 1);
            var t := MoveLineDown(doc, head).value;
            && cur.to < |doc| && AdjacentLines(doc, cur.from, cur.to + 1, next.to)
            && t.from == cur.from && t.to == next.to && t.insert == doc[cur.to + 1..next.to] + "\n" + doc[cur.from..cur.to]
            && t.anchor == head + (next.to - cur.to)
  {
    NextLine(doc, head);
    var cur := LineAt(doc, head);
    LineTextIs(doc, cur);
    LineTextIs(doc, LineAt(doc, cur.to + 1));
  }

  /** `moveLineUp` applied is the swap of the previous and the current line. */
  lemma UpIsSwap(doc: string, head: nat)
    requires head <= |doc| && MoveLineUp(doc, head).Some?
    ensures var cur := LineAt(doc, head);
            var prev := LineAt(doc, cur.from - 1);
            Applied(doc, MoveLineUp(doc, head).value) == Swapped(doc, prev.from, cur.from, cur.to)
  {
    MoveLineUpIs(doc, head);
  }

  /** `moveLineDown` applied is the swap of the current and the next line. */
  lemma DownIsSwap(doc: string, head: nat)
    requires head <= |doc| && MoveLineDown(doc, head).Some?
    ensures var cur := LineAt(doc, head);
            var next := LineAt(doc, cur.to + 1);
            Applied(doc, MoveLineDown(doc, head).value) == Swapped(doc, cur.from, cur.to + 1, next.to)
  {
    MoveLineDownIs(doc, head);
  }

  /** In a document whose lines were just swapped, `moveLineDown` from the
      first of them swaps them back. */
  lemma DownAfterSwap(doc: string, d: string, p: nat, c: nat, e: nat, a: nat)
    requires AdjacentLines(doc, p, c, e) && SwapShape(doc, d, p, c, e)
    requires p <= a <= p + (e - c)
    ensures MoveLineDown(d, a).Some?
    ensures var u := MoveLineDown(d, a).value;
            && u.from == p && u.to == e && u.anchor == a + (c - p) && ApplyChange(d, p, e, u.insert) == doc
  {
    var m := p + (e - c);
    FirstLineOf(doc, d, p, c, e, a);
    assert LineAt(d, a).to == m && m < |d|;
    ShapeLines(doc, d, p, c, e);
    LineAtUnique(d, m + 1, e, m + 1);
    MoveLineDownIs(d, a);
    var u := MoveLineDown(d, a).value;
    assert u.insert == doc[p..e] by {
      Joined(doc, p, c, e);
    }
    Reassemble(doc, d, p, c, e);
  }

  /** In a document whose lines were just swapped, `moveLineUp` from the
      second of them swaps them back. */
  lemma UpAfterSwap(doc: string, d: string, p: nat, c: nat, e: nat, a: nat)
    requires AdjacentLines(doc, p, c, e) && SwapShape(doc, d, p, c, e)
    requires p + (e - c) + 1 <= a <= e
    ensures MoveLineUp(d, a).Some?
    ensures var u := MoveLineUp(d, a).value;
            && u.from == p && u.to == e && u.anchor == a - (e - c + 1) && ApplyChange(d, p, e, u.insert) == doc
  {
    var m := p + (e - c);
    SecondLineOf(doc, d, p, c, e, a);
    assert LineAt(d, a).from == m + 1;
    ShapeLines(doc, d, p, c, e);
    LineAtUnique(d, p, m, m);
    MoveLineUpIs(d, a);
    var u := MoveLineUp(d, a).value;
    assert u.insert == doc[p..e] by {
      Joined(doc, p, c, e);
    }
    Reassemble(doc, d, p, c, e);
  }

  /** Moving a line up and then down again, at the new cursor, restores the
      document and the cursor. */
  lemma MoveUpThenDown(doc: string, head: nat)
    requires head <= |doc| && MoveLineUp(doc, head).Some?
    ensures var t := MoveLineUp(doc, head).value;
            var d := Applied(doc, t);
            && t.anchor <= |d|
            && MoveLineDown(d, t.anchor).Some?
            && var u := MoveLineDown(d, t.anchor).value;
               u.from <= u.to <= |d| && Applied(d, u) == doc && u.anchor == head
  {
    var cur := LineAt(doc, head);
    MoveLineUpIs(doc, head);
    var p, c, e := LineAt(doc, cur.from - 1).from, cur.from, cur.to;
    var t := MoveLineUp(doc, head).value;
    var d := Applied(doc, t);
    UpIsSwap(doc, head);
    SwappedShape(doc, p, c, e);
    DownAfterSwap(doc, Swapped(doc, p, c, e), p, c, e, t.anchor);
  }

  /** Moving a line down and then up again, at the new cursor, restores the
      document and the cursor. */
  lemma MoveDownThenUp(doc: string, head: nat)
    requires head <= |doc| && MoveLineDown(doc, head).Some?
    ensures var t := MoveLineDown(doc, head).value;
            var d := Applied(doc, t);
            && t.anchor <= |d|
            && MoveLineUp(d, t.anchor).Some?
            && var u := MoveLineUp(d, t.anchor).value;
               u.from <= u.to <= |d| && Applied(d, u) == doc && u.anchor == head
  {
    var cur := LineAt(doc, head);
    MoveLineDownIs(doc, head);
    var p, c, e := cur.from, cur.to + 1, LineAt(doc, cur.to + 1).to;
    var t := MoveLineDown(doc, head).value;
    var d := Applied(doc, t);
    DownIsSwap(doc, head);
    SwappedShape(doc, p, c, e);
    UpAfterSwap(doc, Swapped(doc, p, c, e), p, c, e, t.anchor);
  }

  /** `moveLineUp` swaps the previous and the current line: the current line's
      text now starts the previous line's place, then a newline, then the
      previous line's text; the cursor sits, at its old column, on line
      `number - 1`, which holds the old current line. */
  lemma MoveLineUpSwaps(doc: string, head: nat)
    requires head <= |doc| && MoveLineUp(doc, head).Some?
    ensures var cur := LineAt(doc, head);
            var prev := LineAt(doc, cur.from - 1);
            var t := MoveLineUp(doc, head).value;
            var d := Applied(doc, t);
            var moved := LineAt(d, t.anchor);
            && d == Swapped(doc, prev.from, cur.from, cur.to)
            && moved.number == cur.number - 1
            && moved.from == prev.from
            && LineText(d, moved) == LineText(doc, cur)
            && t.anchor - moved.from == head - cur.from
  {
    var cur := LineAt(doc, head);
    MoveLineUpIs(doc, head);
    var prev := LineAt(doc, cur.from - 1);
    var p, c, e := prev.from, cur.from, cur.to;
    var t := MoveLineUp(doc, head).value;
    var d := Applied(doc, t);
    UpIsSwap(doc, head);
    SwappedShape(doc, p, c, e);
    FirstLineOf(doc, Swapped(doc, p, c, e), p, c, e, t.anchor);
    LineTextIs(doc, cur);
    assert LineAt(doc, p).number == cur.number - 1 by {
      PrevLine(doc, head);
      NumberAtStart(doc, p);
    }
  }

  /** `moveLineDown` swaps the current and the next line: the next line's text
      now starts the current line's place, then a newline, then the current
      line's text; the cursor sits, at its old column, on line `number + 1`,
      which holds the old current line. */
  lemma MoveLineDownSwaps(doc: string, head: nat)
    requires head <= |doc| && MoveLineDown(doc, head).Some?
    ensures var cur := LineAt(doc, head);
            var next := LineAt(doc, cur.to + 1);
            var t := MoveLineDown(doc, head).value;
            var d := Applied(doc, t);
            var moved := LineAt(d, t.anchor);
            && d == Swapped(doc, cur.from, cur.to + 1, next.to)
            && moved.number == cur.number + 1
            && moved.to == next.to
            && LineText(d, moved) == LineText(doc, cur)
            && t.anchor - moved.from == head - cur.from
  {
    var cur := LineAt(doc, head);
    MoveLineDownIs(doc, head);
    var next := LineAt(doc, cur.to + 1);
    var p, c, e := cur.from, cur.to + 1, next.to;
    var t := MoveLineDown(doc, head).value;
    var d := Applied(doc, t);
    DownIsSwap(doc, head);
    SwappedShape(doc, p, c, e);
    SecondLineOf(doc, Swapped(doc, p, c, e), p, c, e, t.anchor);
    LineTextIs(doc, cur);
    assert doc[p..c - 1] == doc[cur.from..cur.to];
    assert next.number == cur.number + 1 by {
      NextLine(doc, head);
    }
  }
}
