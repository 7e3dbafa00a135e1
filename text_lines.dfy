/** The line structure of an editor document, as CodeMirror's `Text`
    exposes it: a document is a string, lines are separated by '\n', and a
    line is described by its 1-based number and the offsets `from`/`to` of
    its first character and of the position just before its newline. */
module TextLines {

  /** `p` is the offset of the first character of some line. */
  predicate IsLineStart(doc: string, p: int)
  {
    0 <= p <= |doc| && (p == 0 || doc[p - 1] == '\n')
  }

  /** `p` is the offset at which some line ends (its newline, or the end of the document). */
  predicate IsLineEnd(doc: string, p: int)
  {
    0 <= p <= |doc| && (p == |doc| || doc[p] == '\n')
  }

  /** No newline among `doc[a..b]`. */
  predicate NoNewline(doc: string, a: int, b: int)
    requires 0 <= a <= b <= |doc|
  {
    forall k :: a <= k < b ==> doc[k] != '\n'
  }

  /** The start of the line holding offset `pos`. */
  function LineStart(doc: string, pos: nat): (r: nat)
    requires pos <= |doc|
    ensures r <= pos && IsLineStart(doc, r) && NoNewline(doc, r, pos)
    ensures IsLineStart(doc, pos) ==> r == pos
    decreases pos
  {
    if pos == 0 || doc[pos - 1] == '\n' then pos else LineStart(doc, pos - 1)
  }

  /** The end of the line holding offset `pos`. */
  function LineEnd(doc: string, pos: nat): (r: nat)
    requires pos <= |doc|
    ensures pos <= r && IsLineEnd(doc, r) && NoNewline(doc, pos, r)
    ensures IsLineEnd(doc, pos) ==> r == pos
    decreases |doc| - pos
  {
    if pos == |doc| || doc[pos] == '\n' then pos else LineEnd(doc, pos + 1)
  }

  /** The number of newlines in `s`. */
  function CountNewlines(s: string): nat
  {
    if s == [] then 0 else CountNewlines(s[..|s| - 1]) + (if s[|s| - 1] == '\n' then 1 else 0)
  }

  /** The number of newlines among `doc[..n]`, counted from the front. */
  function NewlinesBefore(doc: string, n: nat): nat
    requires n <= |doc|
  {
    if n == 0 then 0 else NewlinesBefore(doc, n - 1) + (if doc[n - 1] == '\n' then 1 else 0)
  }

  /** CodeMirror's `doc.lines`: one more line than there are newlines. */
  function LineCount(doc: string): nat
  {
    CountNewlines(doc) + 1
  }

  datatype Line = Line(number: nat, from: nat, to: nat)

  /** CodeMirror's `doc.lineAt(pos)`: the line whose span `[from, to]` holds `pos`;
      its number is one more than the newlines before it. */
  function LineAt(doc: string, pos: nat): (l: Line)
    requires pos <= |doc|
    ensures l.from <= pos <= l.to <= |doc|
    ensures IsLineStart(doc, l.from) && IsLineEnd(doc, l.to) && NoNewline(doc, l.from, l.to)
    ensures l.number >= 1
  {
    var from := LineStart(doc, pos);
    Line(NewlinesBefore(doc, from) + 1, from, LineEnd(doc, pos))
  }

  /** `doc.sliceString(a, b)`, built one character at a time. */
  function Slice(doc: string, a: nat, b: nat): (r: string)
    requires a <= b <= |doc|
    ensures |r| == b - a
    decreases b - a
  {
    if a == b then [] else [doc[a]] + Slice(doc, a + 1, b)
  }

  /** `line.text`, i.e. `doc.sliceString(line.from, line.to)` */
  function LineText(doc: string, l: Line): string
    requires l.from <= l.to <= |doc|
  {
    Slice(doc, l.from, l.to)
  }

  /** The text of the line that starts at `q`. */
  function TextOfLineAt(doc: string, q: nat): string
    requires q <= |doc|
  {
    LineText(doc, LineAt(doc, q))
  }

  /** The document after the change `{from, to, insert}`. */
  function ApplyChange(doc: string, from: nat, to: nat, insert: string): (r: string)
    requires from <= to <= |doc|
    ensures |r| == |doc| - (to - from) + |insert|
    ensures r[..from] == doc[..from] && r[from..from + |insert|] == insert
    ensures r[from + |insert|..] == doc[to..]
  {
    doc[..from] + insert + doc[to..]
  }

  /** The text CodeMirror stores for an inserted string: the string is split
      into lines at `\r\n`, `\r` and `\n` and the lines are joined with `\n`,
      so a document never holds '\r'. Every other character is kept. */
  function NormalizeBreaks(s: string): (r: string)
    ensures '\r' !in r
    ensures r == "" <==> s == ""
    ensures |r| <= |s|
    decreases |s|
  {
    if s == "" then ""
    else if s[0] == '\r' then "\n" + NormalizeBreaks(if |s| > 1 && s[1] == '\n' then s[2..] else s[1..])
    else [s[0]] + NormalizeBreaks(s[1..])
  }

  /** Text without '\r' is stored as it is; in particular normalising twice
      is normalising once. */
  lemma {:induction false} NormalizeWithoutReturn(s: string)
    requires '\r' !in s
    ensures NormalizeBreaks(s) == s
    decreases |s|
  {
    if s != "" {
      assert s[0] in s;
      assert forall c :: c in s[1..] ==> c in s;
      NormalizeWithoutReturn(s[1..]);
    }
  }

  /** Normalising keeps every character other than '\r' and '\n' as often as
      it occurs. */
  lemma {:induction false} NormalizeKeepsText(s: string, c: char)
    requires c != '\r' && c != '\n'
    ensures multiset(NormalizeBreaks(s))[c] == multiset(s)[c]
    decreases |s|
  {
    if s != "" {
      assert s == [s[0]] + s[1..];
      if s[0] == '\r' && |s| > 1 && s[1] == '\n' {
        assert s[1..] == [s[1]] + s[2..];
        NormalizeKeepsText(s[2..], c);
      } else {
        NormalizeKeepsText(s[1..], c);
      }
    }
  }

  /** A Windows line end and an old Mac line end both become '\n'. */
  lemma NormalizeExample()
    ensures NormalizeBreaks("a\r\nb\rc") == "a\nb\nc"
  {
    assert NormalizeBreaks("c") == "c";
    assert NormalizeBreaks("\rc") == "\nc";
    assert NormalizeBreaks("b\rc") == "b\nc";
    assert NormalizeBreaks("\r\nb\rc") == "\nb\nc";
  }

  /** A line is determined by its bounds: any span that starts a line, ends a
      line and holds no newline is the line `lineAt` returns for each offset in it. */
  lemma LineAtUnique(doc: string, a: nat, b: nat, p: nat)
    requires a <= p <= b <= |doc|
    requires IsLineStart(doc, a) && IsLineEnd(doc, b) && NoNewline(doc, a, b)
    ensures LineAt(doc, p).from == a && LineAt(doc, p).to == b
  {
    var l := LineAt(doc, p);
    assert a > 0 ==> doc[a - 1] == '\n';
    assert l.from > 0 ==> doc[l.from - 1] == '\n';
    assert b < |doc| ==> doc[b] == '\n';
    assert l.to < |doc| ==> doc[l.to] == '\n';
  }

  /** No line starts strictly inside a line. */
  lemma NoLineStartInside(doc: string, p: nat, s: nat)
    requires p <= |doc| && LineAt(doc, p).from < s <= LineAt(doc, p).to
    ensures !IsLineStart(doc, s)
  {
    assert doc[s - 1] != '\n';
  }

  /** `Slice` is the subsequence `doc[a..b]`. */
  lemma {:induction false} SliceIs(doc: string, a: nat, b: nat)
    requires a <= b <= |doc|
    ensures Slice(doc, a, b) == doc[a..b]
    decreases b - a
  {
    if a < b {
      SliceIs(doc, a + 1, b);
      assert doc[a..b] == [doc[a]] + doc[a + 1..b];
    }
  }

  /** A line's text is the document between its bounds. */
  lemma LineTextIs(doc: string, l: Line)
    requires l.from <= l.to <= |doc|
    ensures LineText(doc, l) == doc[l.from..l.to]
  {
    SliceIs(doc, l.from, l.to);
  }

  /** Counting from the front agrees with `CountNewlines` of the prefix. */
  lemma {:induction false} NewlinesBeforeIs(doc: string, n: nat)
    requires n <= |doc|
    ensures NewlinesBefore(doc, n) == CountNewlines(doc[..n])
  {
    if n > 0 {
      NewlinesBeforeIs(doc, n - 1);
      assert doc[..n][..n - 1] == doc[..n - 1];
    }
  }

  lemma {:induction false} CountAppend(a: string, b: string)
    ensures CountNewlines(a + b) == CountNewlines(a) + CountNewlines(b)
    decreases |b|
  {
    if b == [] {
      assert a + b == a;
    } else {
      assert (a + b)[..|a + b| - 1] == a + b[..|b| - 1];
      CountAppend(a, b[..|b| - 1]);
    }
  }

  lemma {:induction false} CountZero(s: string)
    ensures CountNewlines(s) == 0 <==> forall k :: 0 <= k < |s| ==> s[k] != '\n'
    decreases |s|
  {
    if s != [] {
      CountZero(s[..|s| - 1]);
      assert forall k :: 0 <= k < |s| - 1 ==> s[..|s| - 1][k] == s[k];
    }
  }

  /** `line.number === 1` holds exactly for the line that starts the document. */
  lemma FirstLineIff(doc: string, p: nat)
    requires p <= |doc|
    ensures LineAt(doc, p).number == 1 <==> LineAt(doc, p).from == 0
  {
    var f := LineAt(doc, p).from;
    if f > 0 {
      assert doc[f - 1] == '\n';
    }
  }

  /** `line.number === doc.lines` holds exactly for the line that ends the document. */
  lemma LastLineIff(doc: string, p: nat)
    requires p <= |doc|
    ensures LineAt(doc, p).number == LineCount(doc) <==> LineAt(doc, p).to == |doc|
  {
    var l := LineAt(doc, p);
    NewlinesBeforeIs(doc, l.from);
    assert doc == doc[..l.from] + doc[l.from..];
    CountAppend(doc[..l.from], doc[l.from..]);
    CountZero(doc[l.from..]);
    if l.to < |doc| {
      assert doc[l.from..][l.to - l.from] == '\n';
    } else {
      assert forall k :: 0 <= k < |doc| - l.from ==> doc[l.from..][k] == doc[l.from + k];
    }
  }

  /** The line ending just before the newline at `from - 1` is line `number - 1`,
      i.e. CodeMirror's `doc.line(number - 1)`. */
  lemma PrevLine(doc: string, p: nat)
    requires p <= |doc| && LineAt(doc, p).from > 0
    ensures LineAt(doc, LineAt(doc, p).from - 1).number == LineAt(doc, p).number - 1
    ensures LineAt(doc, LineAt(doc, p).from - 1).to == LineAt(doc, p).from - 1
  {
    var cur := LineAt(doc, p);
    var prev := LineAt(doc, cur.from - 1);
    NewlinesBeforeIs(doc, cur.from);
    NewlinesBeforeIs(doc, prev.from);
    assert IsLineEnd(doc, cur.from - 1);
    assert prev.to == cur.from - 1;
    assert doc[..cur.from] == doc[..prev.from] + doc[prev.from..prev.to] + "\n";
    CountAppend(doc[..prev.from] + doc[prev.from..prev.to], "\n");
    CountAppend(doc[..prev.from], doc[prev.from..prev.to]);
    CountZero(doc[prev.from..prev.to]);
    assert CountNewlines("\n") == 1 by {
      assert "\n"[..0] == [];
    }
  }

  /** The line starting just after the newline at `to` is line `number + 1`,
      i.e. CodeMirror's `doc.line(number + 1)`. */
  lemma NextLine(doc: string, p: nat)
    requires p <= |doc| && LineAt(doc, p).to < |doc|
    ensures LineAt(doc, LineAt(doc, p).to + 1).number == LineAt(doc, p).number + 1
    ensures LineAt(doc, LineAt(doc, p).to + 1).from == LineAt(doc, p).to + 1
  {
    var cur := LineAt(doc, p);
    var next := LineAt(doc, cur.to + 1);
    NewlinesBeforeIs(doc, cur.from);
    NewlinesBeforeIs(doc, next.from);
    assert IsLineStart(doc, cur.to + 1);
    assert next.from == cur.to + 1;
    assert doc[..next.from] == doc[..cur.from] + doc[cur.from..cur.to] + "\n";
    CountAppend(doc[..cur.from] + doc[cur.from..cur.to], "\n");
    CountAppend(doc[..cur.from], doc[cur.from..cur.to]);
    CountZero(doc[cur.from..cur.to]);
    assert CountNewlines("\n") == 1 by {
      assert "\n"[..0] == [];
    }
  }
}
