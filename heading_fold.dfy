/** Folding and unfolding markdown sections (Mod-Shift-Alt-ArrowUp and
    Mod-Shift-Alt-ArrowDown). Both commands walk the document line by line;
    at every heading line they look for the end of its section, which is the
    newline before the next heading of the same or a higher level, or the end
    of the document, and they emit the range from the end of the heading
    line to there. The model returns the emitted ranges instead of
    dispatching fold/unfold effects.

    The specification is stated over the list of lines the outer loop
    visits (`LinesFrom`), so that the properties of the ranges are
    properties of a list, and `LinesAreDocLines` ties that list back to the
    document's lines. */
module HeadingFold {
  import opened Common
  import opened TextLines

  /** The `{from, to}` of a fold or unfold effect. */
  datatype Range = Range(from: nat, to: int)

  /** The two scans: `foldAllHeading2`, and `unfoldHeadingLevel` at a level. */
  datatype Scan = FoldLevel2 | UnfoldLevel(level: nat)

  /** The length of the run of `#` that starts at `text[i]`. */
  function HashRunFrom(text: string, i: nat): nat
    requires i <= |text|
    decreases |text| - i
  {
    if i < |text| && text[i] == '#' then HashRunFrom(text, i + 1) else i
  }

  /** The length of the run of `#` that starts `text`: `text.match(/^#+/)[0].length`,
      or 0 where the pattern does not match. */
  function HashRun(text: string): nat
  {
    HashRunFrom(text, 0)
  }

  /** `/^#+ /.test(text)` */
  predicate IsAtxHeading(text: string)
  {
    1 <= HashRun(text) < |text| && text[HashRun(text)] == ' '
  }

  /** The line opens a section this scan works on. */
  predicate IsTarget(scan: Scan, text: string)
  {
    match scan
    case FoldLevel2 => StartsWith(text, "## ")
    case UnfoldLevel(level) => StartsWith(text, Repeat('#', level) + " ")
  }

  /** The line closes the section before it. */
  predicate IsStop(scan: Scan, text: string)
  {
    match scan
    case FoldLevel2 => StartsWith(text, "## ") || StartsWith(text, "# ")
    case UnfoldLevel(level) => IsAtxHeading(text) && HashRun(text) <= level
  }

  /** Where the loops look at a line: a line start, or past the document's end. */
  predicate ScanPos(doc: string, p: nat)
  {
    p <= |doc| + 1 && (p <= |doc| ==> IsLineStart(doc, p))
  }

  /** A line the loops visit, with its text. */
  datatype Visited = Visited(line: Line, text: string)

  /** The lines `for (pos = ...; pos < doc.length; pos = line.to + 1)` visits,
      each as `doc.lineAt(pos)` returns it. */
  function LinesFrom(doc: string, pos: nat): seq<Visited>
    requires ScanPos(doc, pos)
    decreases |doc| + 1 - pos
  {
    if pos >= |doc| then []
    else
      var line := LineAt(doc, pos);
      [Visited(line, LineText(doc, line))] + LinesFrom(doc, line.to + 1)
  }

  /** The inner `while (nextPos < doc.length)` loop over the lines `ls` after
      a heading: the offset just before the first closing line, or `end`,
      the document's length, when no line closes the section. */
  function SectionEnd(scan: Scan, ls: seq<Visited>, end: nat): int
  {
    if ls == [] then end
    else if IsStop(scan, ls[0].text) then ls[0].line.from - 1
    else SectionEnd(scan, ls[1..], end)
  }

  /** The ranges the outer loop emits while it visits the lines `ls`,
      appended in order to the ranges `acc` emitted before. */
  function Emit(scan: Scan, ls: seq<Visited>, end: nat, acc: seq<Range>): seq<Range>
  {
    if ls == [] then acc
    else Emit(scan, ls[1..], end,
              if IsTarget(scan, ls[0].text) then acc + [Range(ls[0].line.to, SectionEnd(scan, ls[1..], end))] else acc)
  }

  /** The ranges a scan of the whole document emits. */
  function HeadingRanges(doc: string, scan: Scan): seq<Range>
  {
    Emit(scan, LinesFrom(doc, 0), |doc|, [])
  }

  /** The lines from a line start are that line followed by the lines after it. */
  lemma LinesStep(doc: string, pos: nat)
    requires pos < |doc| && IsLineStart(doc, pos)
    ensures var line := LineAt(doc, pos);
            var ls := LinesFrom(doc, pos);
            && ScanPos(doc, line.to + 1)
            && ls != [] && ls[0] == Visited(line, LineText(doc, line))
            && ls[1..] == LinesFrom(doc, line.to + 1)
  {
    var line := LineAt(doc, pos);
    var rest := LinesFrom(doc, line.to + 1);
    assert ([Visited(line, LineText(doc, line))] + rest)[1..] == rest;
  }

  /** The inner scan for the end of the section whose heading line ends at `start - 1`. */
  method FindSectionEnd(doc: string, scan: Scan, start: nat) returns (to: int)
    requires 1 <= start && ScanPos(doc, start)
    ensures to == SectionEnd(scan, LinesFrom(doc, start), |doc|)
    ensures start - 1 <= to <= |doc|
  {
    to := |doc|;
    var nextPos := start;
    ghost var todo := LinesFrom(doc, start);
    while nextPos < |doc|
      invariant start <= nextPos && ScanPos(doc, nextPos) && todo == LinesFrom(doc, nextPos)
      invariant SectionEnd(scan, todo, |doc|) == SectionEnd(scan, LinesFrom(doc, start), |doc|)
      invariant to == |doc|
      decreases |doc| - nextPos
    {
      var nextLine := LineAt(doc, nextPos);
      var text := LineText(doc, nextLine);
      LinesStep(doc, nextPos);
      if IsStop(scan, text) {
        to := nextLine.from - 1;
        break;
      }
      nextPos := nextLine.to + 1;
      todo := todo[1..];
    }
  }

  /** `foldAllHeading2`: the fold ranges, one per line starting with "## ". */
  method FoldAllHeading2(doc: string) returns (folds: seq<Range>)
    ensures folds == HeadingRanges(doc, FoldLevel2)
  {
    folds := [];
    var pos := 0;
    ghost var todo := LinesFrom(doc, 0);
    while pos < |doc|
      invariant ScanPos(doc, pos) && todo == LinesFrom(doc, pos)
      invariant Emit(FoldLevel2, todo, |doc|, folds) == HeadingRanges(doc, FoldLevel2)
      decreases |doc| + 1 - pos
    {
      var line := LineAt(doc, pos);
      LinesStep(doc, pos);
      if StartsWith(LineText(doc, line), "## ") {
        var from := line.to;
        var to := FindSectionEnd(doc, FoldLevel2, line.to + 1);
        folds := folds + [Range(from, to)];
      }
      pos := line.to + 1;
      todo := todo[1..];
    }
  }

  /** `unfoldHeadingLevel(view, level = 2)`: the unfold ranges, one per line
      starting with `level` hashes and a space, and the cursor offset that is
      scrolled into view at the end. */
  method UnfoldHeadingLevel(doc: string, head: nat, level: nat := 2) returns (unfolds: seq<Range>, scrollTo: nat)
    requires head <= |doc|
    ensures unfolds == HeadingRanges(doc, UnfoldLevel(level))
    ensures scrollTo == head
  {
    var cursorPos := head;
    var headingPrefix := Repeat('#', level) + " ";
    unfolds := [];
    var pos := 0;
    ghost var todo := LinesFrom(doc, 0);
    while pos < |doc|
      invariant ScanPos(doc, pos) && todo == LinesFrom(doc, pos)
      invariant Emit(UnfoldLevel(level), todo, |doc|, unfolds) == HeadingRanges(doc, UnfoldLevel(level))
      decreases |doc| + 1 - pos
    {
      var line := LineAt(doc, pos);
      var text := LineText(doc, line);
      LinesStep(doc, pos);
      if StartsWith(text, headingPrefix) {
        var from := line.to;
        var to := FindSectionEnd(doc, UnfoldLevel(level), line.to + 1);
        if from <= to {
          unfolds := unfolds + [Range(from, to)];
        }
      }
      pos := line.to + 1;
      todo := todo[1..];
    }
    scrollTo := cursorPos;
  }

  /** A section never ends before the offset just before its first line,
      nor after the document's end. */
  lemma {:induction false} SectionEndAfter(doc: string, scan: Scan, start: nat)
    requires 1 <= start && ScanPos(doc, start)
    ensures start - 1 <= SectionEnd(scan, LinesFrom(doc, start), |doc|) <= |doc|
    decreases |doc| + 1 - start
  {
    if start < |doc| {
      LinesStep(doc, start);
      SectionEndAfter(doc, scan, LineAt(doc, start).to + 1);
    }
  }

  /** The `#` run found from `i` on, where everything before `i` is `#`:
      `text[..n]` is all `#`, and the character at `n`, if any, is not. */
  lemma {:induction false} HashRunFromIs(text: string, i: nat)
    requires i <= |text| && forall k :: 0 <= k < i ==> text[k] == '#'
    ensures var n := HashRunFrom(text, i);
            && i <= n <= |text| && (forall k :: 0 <= k < n ==> text[k] == '#')
            && (n < |text| ==> text[n] != '#')
    decreases |text| - i
  {
    if i < |text| && text[i] == '#' {
      HashRunFromIs(text, i + 1);
    }
  }

  /** `HashRun` is the length of the longest prefix made of `#`. */
  lemma HashRunIs(text: string)
    ensures var n := HashRun(text);
            && n <= |text| && (forall k :: 0 <= k < n ==> text[k] == '#')
            && (n < |text| ==> text[n] != '#')
  {
    HashRunFromIs(text, 0);
  }

  /** `IsAtxHeading` is the pattern `/^#+ /`: one or more `#`, then a space. */
  lemma AtxHeadingIff(text: string)
    ensures IsAtxHeading(text) <==>
            exists k :: 1 <= k < |text| && text[k] == ' ' && forall i :: 0 <= i < k ==> text[i] == '#'
  {
    HashRunIs(text);
    var n := HashRun(text);
    if exists k :: 1 <= k < |text| && text[k] == ' ' && forall i :: 0 <= i < k ==> text[i] == '#' {
      var k :| 1 <= k < |text| && text[k] == ' ' && forall i :: 0 <= i < k ==> text[i] == '#';
      assert n == k;
    }
  }

  /** A line of `level` hashes and a space starts with exactly `level` hashes. */
  lemma PrefixRun(text: string, level: nat)
    requires StartsWith(text, Repeat('#', level) + " ")
    ensures HashRun(text) == level && text[level] == ' '
  {
    var p := Repeat('#', level) + " ";
    assert p[level] == ' ' && text[level] == p[level];
    assert forall k :: 0 <= k < level ==> text[k] == p[k] == '#';
    HashRunIs(text);

  }

  /** A heading a scan works on also closes the section before it (for
      unfolding, at a level of at least 1), so no section runs past the next
      heading of its own kind. */
  lemma TargetIsStop(scan: Scan, text: string)
    requires scan.UnfoldLevel? ==> scan.level >= 1
    requires IsTarget(scan, text)
    ensures IsStop(scan, text)
  {
    if scan.UnfoldLevel? {
      PrefixRun(text, scan.level);
    }
  }

  /** At level 2 both scans test the lines alike: "## " opens a section, and
      "# " or "## " closes one. */
  lemma SameTestsAtLevel2(text: string)
    ensures IsTarget(FoldLevel2, text) <==> IsTarget(UnfoldLevel(2), text)
    ensures IsStop(FoldLevel2, text) <==> IsStop(UnfoldLevel(2), text)
  {
    assert Repeat('#', 2) + " " == "## ";
    HashRunIs(text);
    var n := HashRun(text);
    if StartsWith(text, "## ") {
      PrefixRun(text, 2);
    } else if StartsWith(text, "# ") {
      assert Repeat('#', 1) + " " == "# ";
      PrefixRun(text, 1);
    }
    if IsStop(UnfoldLevel(2), text) {
      if n == 1 {
        assert text[..2] == "# ";
      } else {
        assert text[..3] == "## ";
      }
    }
  }

  lemma {:induction false} SectionEndSameAtLevel2(ls: seq<Visited>, end: nat)
    ensures SectionEnd(FoldLevel2, ls, end) == SectionEnd(UnfoldLevel(2), ls, end)
  {
    if ls != [] {
      SameTestsAtLevel2(ls[0].text);
      SectionEndSameAtLevel2(ls[1..], end);
    }
  }

  lemma {:induction false} EmitSameAtLevel2(ls: seq<Visited>, end: nat, acc: seq<Range>)
    ensures Emit(FoldLevel2, ls, end, acc) == Emit(UnfoldLevel(2), ls, end, acc)
  {
    if ls != [] {
      SameTestsAtLevel2(ls[0].text);
      SectionEndSameAtLevel2(ls[1..], end);
      var next := if IsTarget(FoldLevel2, ls[0].text)
                  then acc + [Range(ls[0].line.to, SectionEnd(FoldLevel2, ls[1..], end))] else acc;
      EmitSameAtLevel2(ls[1..], end, next);
    }
  }

  /** Unfolding at the default level 2 acts on exactly the ranges that
      folding all level-2 headings folds. */
  lemma FoldMatchesUnfold2(doc: string)
    ensures HeadingRanges(doc, FoldLevel2) == HeadingRanges(doc, UnfoldLevel(2))
  {
    EmitSameAtLevel2(LinesFrom(doc, 0), |doc|, []);
  }

  /** A section ends just before its first closing line. */
  lemma {:induction false} SectionEndAtStop(scan: Scan, ls: seq<Visited>, end: nat, j: nat)
    requires j < |ls| && IsStop(scan, ls[j].text)
    requires forall i :: 0 <= i < j ==> !IsStop(scan, ls[i].text)
    ensures SectionEnd(scan, ls, end) == ls[j].line.from - 1
  {
    if j > 0 {
      assert !IsStop(scan, ls[0].text);
      SectionEndAtStop(scan, ls[1..], end, j - 1);
    }
  }

  /** A section with no closing line after it runs to the end of the document. */
  lemma {:induction false} SectionEndNoStop(scan: Scan, ls: seq<Visited>, end: nat)
    requires forall i :: 0 <= i < |ls| ==> !IsStop(scan, ls[i].text)
    ensures SectionEnd(scan, ls, end) == end
  {
    if ls != [] {
      assert !IsStop(scan, ls[0].text);
      SectionEndNoStop(scan, ls[1..], end);
    }
  }

  /** The ranges emitted are appended after those emitted before. */
  lemma {:induction false} EmitAcc(scan: Scan, ls: seq<Visited>, end: nat, acc: seq<Range>)
    ensures Emit(scan, ls, end, acc) == acc + Emit(scan, ls, end, [])
  {
    if ls == [] {
      assert acc + [] == acc;
    } else if IsTarget(scan, ls[0].text) {
      var x := [Range(ls[0].line.to, SectionEnd(scan, ls[1..], end))];
      EmitAcc(scan, ls[1..], end, acc + x);
      EmitAcc(scan, ls[1..], end, [] + x);
      assert [] + x == x;
      assert (acc + x) + Emit(scan, ls[1..], end, []) == acc + (x + Emit(scan, ls[1..], end, []));
    } else {
      EmitAcc(scan, ls[1..], end, acc);
    }
  }

  /** The range a visited line `ls[i]` gives when it opens a section. */
  function RangeOf(scan: Scan, ls: seq<Visited>, end: nat, i: nat): Range
    requires i < |ls|
  {
    Range(ls[i].line.to, SectionEnd(scan, ls[i + 1..], end))
  }

  lemma RangeOfTail(scan: Scan, ls: seq<Visited>, end: nat, i: nat)
    requires i + 1 < |ls|
    ensures ls[1..][i] == ls[i + 1] && RangeOf(scan, ls[1..], end, i) == RangeOf(scan, ls, end, i + 1)
  {
    assert ls[1..][i + 1..] == ls[i + 2..];
  }

  /** A range is emitted exactly when some visited line opens a section and
      the range runs from that line's end to the end of its section. */
  lemma {:induction false} EmitMembers(scan: Scan, ls: seq<Visited>, end: nat, r: Range)
    ensures r in Emit(scan, ls, end, []) <==>
            exists i :: 0 <= i < |ls| && IsTarget(scan, ls[i].text) && r == RangeOf(scan, ls, end, i)
  {
    if ls != [] {
      if IsTarget(scan, ls[0].text) {
        EmitAcc(scan, ls[1..], end, [] + [RangeOf(scan, ls, end, 0)]);
      }
      EmitMembers(scan, ls[1..], end, r);
      forall i | 0 <= i < |ls| - 1 
        ensures ls[1..][i] == ls[i + 1] && RangeOf(scan, ls[1..], end, i) == RangeOf(scan, ls, end, i + 1)
      {
        RangeOfTail(scan, ls, end, i);
      }
      if exists i :: 0 <= i < |ls| && IsTarget(scan, ls[i].text) && r == RangeOf(scan, ls, end, i) {
        var i :| 0 <= i < |ls| && IsTarget(scan, ls[i].text) && r == RangeOf(scan, ls, end, i);
        if i > 0 {
          assert IsTarget(scan, ls[1..][i - 1].text) && r == RangeOf(scan, ls[1..], end, i - 1);
        }
      }
    }
  }

  /** Every visited line is the line `lineAt` returns at its own start, a
      line start at or after `pos` and before the document's end, and is
      visited with its own text. */
  lemma {:induction false} LinesFromAreLines(doc: string, pos: nat)
    requires ScanPos(doc, pos)
    ensures var ls := LinesFrom(doc, pos);
            forall i :: 0 <= i < |ls| ==>
              && pos <= ls[i].line.from < |doc| && IsLineStart(doc, ls[i].line.from)
              && ls[i].line == LineAt(doc, ls[i].line.from)
              && ls[i].text == LineText(doc, ls[i].line)
    decreases |doc| + 1 - pos
  {
    if pos < |doc| {
      LinesStep(doc, pos);
      LinesFromAreLines(doc, LineAt(doc, pos).to + 1);
    }
  }

  /** The visited lines come in document order, each ending before the next starts. */
  lemma {:induction false} LinesFromOrdered(doc: string, pos: nat)
    requires ScanPos(doc, pos)
    ensures var ls := LinesFrom(doc, pos);
            forall i, j :: 0 <= i < j < |ls| ==> ls[i].line.to < ls[j].line.from
    decreases |doc| + 1 - pos
  {
    if pos < |doc| {
      var line := LineAt(doc, pos);
      LinesStep(doc, pos);
      LinesFromOrdered(doc, line.to + 1);
      LinesFromAreLines(doc, line.to + 1);
    }
  }

  /** No line is skipped: every line start from `pos` on, before the
      document's end, begins a visited line. */
  lemma {:induction false} LinesFromCovers(doc: string, pos: nat, q: nat)
    requires ScanPos(doc, pos) && pos <= q < |doc| && IsLineStart(doc, q)
    ensures exists i :: 0 <= i < |LinesFrom(doc, pos)| && LinesFrom(doc, pos)[i].line.from == q
    decreases q - pos
  {
    var line := LineAt(doc, pos);
    LinesStep(doc, pos);
    if q != pos {
      assert doc[q - 1] == '\n';
      LinesFromCovers(doc, line.to + 1, q);
      var i :| 0 <= i < |LinesFrom(doc, line.to + 1)| && LinesFrom(doc, line.to + 1)[i].line.from == q;
      assert LinesFrom(doc, pos)[i + 1].line.from == q;
    }
  }

  /** `LinesFromAreLines` and `LinesFromOrdered` at given indices. */
  lemma VisitedAt(doc: string, pos: nat, i: nat)
    requires ScanPos(doc, pos) && i < |LinesFrom(doc, pos)|
    ensures var l := LinesFrom(doc, pos)[i];
            && pos <= l.line.from < |doc| && IsLineStart(doc, l.line.from)
            && l.line == LineAt(doc, l.line.from) && l.text == LineText(doc, l.line)
  {
    LinesFromAreLines(doc, pos);
  }

  lemma VisitedBefore(doc: string, pos: nat, i: nat, j: nat)
    requires ScanPos(doc, pos) && i < j < |LinesFrom(doc, pos)|
    ensures LinesFrom(doc, pos)[i].line.to < LinesFrom(doc, pos)[j].line.from
  {
    LinesFromOrdered(doc, pos);
  }

  /** A section ends no later than just before any closing line after it. */
  lemma {:induction false} SectionEndBeforeStop(scan: Scan, ls: seq<Visited>, end: nat, k: nat)
    requires k < |ls| && IsStop(scan, ls[k].text)
    requires forall i :: 0 <= i < k ==> ls[i].line.from <= ls[k].line.from
    ensures SectionEnd(scan, ls, end) <= ls[k].line.from - 1
  {
    if k > 0 && !IsStop(scan, ls[0].text) {
      SectionEndBeforeStop(scan, ls[1..], end, k - 1);
    }
  }

  /** A section over lines that all start after `lo` ends between `lo` and `end`. */
  lemma {:induction false} SectionEndWithin(scan: Scan, ls: seq<Visited>, end: nat, lo: nat)
    requires lo <= end && forall i :: 0 <= i < |ls| ==> lo < ls[i].line.from <= end + 1
    ensures lo <= SectionEnd(scan, ls, end) <= end
  {
    if ls != [] && !IsStop(scan, ls[0].text) {
      SectionEndWithin(scan, ls[1..], end, lo);
    }
  }

  /** Every emitted range starts at the end of a heading line the scan works
      on and ends between there and the end of the document. */
  lemma RangesWithinDocument(doc: string, scan: Scan, r: Range)
    requires r in HeadingRanges(doc, scan)
    ensures r.from <= r.to <= |doc|
    ensures exists q :: 0 <= q < |doc| && IsLineStart(doc, q) && IsTarget(scan, TextOfLineAt(doc, q))
                        && r.from == LineAt(doc, q).to
  {
    var ls := LinesFrom(doc, 0);
    EmitMembers(scan, ls, |doc|, r);
    var i :| 0 <= i < |ls| && IsTarget(scan, ls[i].text) && r == RangeOf(scan, ls, |doc|, i);
    SectionWithin(doc, scan, i);
    VisitedAt(doc, 0, i);
    assert TextOfLineAt(doc, ls[i].line.from) == ls[i].text;
  }

  /** The section after the visited line `i` ends between that line's end and the document's end. */
  lemma SectionWithin(doc: string, scan: Scan, i: nat)
    requires i < |LinesFrom(doc, 0)|
    ensures var ls := LinesFrom(doc, 0);
            ls[i].line.to <= SectionEnd(scan, ls[i + 1..], |doc|) <= |doc|
  {
    var ls := LinesFrom(doc, 0);
    var rest := ls[i + 1..];
    forall k | 0 <= k < |rest| ensures ls[i].line.to < rest[k].line.from <= |doc| + 1 {
      assert rest[k] == ls[i + 1 + k];
      VisitedAt(doc, 0, i + 1 + k);
      VisitedBefore(doc, 0, i, i + 1 + k);
    }
    VisitedAt(doc, 0, i);
    SectionEndWithin(scan, rest, |doc|, ls[i].line.to);
  }

  /** The section a heading line opens ends before the next heading line the
      scan works on (for unfolding, at a level of at least 1): ranges that
      lines `i < j` would give do not overlap. */
  lemma SectionsDisjoint(doc: string, scan: Scan, i: nat, j: nat)
    requires scan.UnfoldLevel? ==> scan.level >= 1
    requires i < j < |LinesFrom(doc, 0)| && IsTarget(scan, LinesFrom(doc, 0)[j].text)
    ensures var ls := LinesFrom(doc, 0);
            RangeOf(scan, ls, |doc|, i).to < RangeOf(scan, ls, |doc|, j).from
  {
    var ls := LinesFrom(doc, 0);
    TargetIsStop(scan, ls[j].text);
    var rest := ls[i + 1..];
    var k := j - i - 1;
    assert rest[k] == ls[j];
    forall a | 0 <= a < k ensures rest[a].line.from <= rest[k].line.from {
      assert rest[a] == ls[i + 1 + a];
      VisitedBefore(doc, 0, i + 1 + a, j);
      VisitedAt(doc, 0, i + 1 + a);
    }
    SectionEndBeforeStop(scan, rest, |doc|, k);
    VisitedAt(doc, 0, j);
  }
}
