/** Inline image previews. For every visible range of the document the
    image plugin runs the global regular expression `/!\[([^\]]*)\]\(([^)]+)\)/g`
    over the range's text, left to right, and replaces every match by an
    image widget, except a match the cursor touches (both ends included),
    which stays as markdown. */
module ImageScan {
  import opened Common
  import opened TextLines

  /** One result of `imageRegex.exec(text)`: `match.index`,
      `match[0].length`, and the groups `match[1]` (alt) and `match[2]` (url). */
  datatype ImageMatch = ImageMatch(index: nat, length: nat, alt: string, url: string)

  /** An entry of `view.visibleRanges`. */
  datatype VisibleRange = VisibleRange(from: nat, to: nat)

  /** `Decoration.replace({widget: new ImagePreviewWidget(alt, url)}).range(from, to)` */
  datatype ImageWidget = ImageWidget(from: nat, to: nat, alt: string, src: string)

  /** The first offset at or after `i` holding `c`, or `|text|` if there is none. */
  function FindChar(text: string, i: nat, c: char): (r: nat)
    requires i <= |text|
    ensures i <= r <= |text| && (r < |text| ==> text[r] == c)
    decreases |text| - i
  {
    if i == |text| || text[i] == c then i else FindChar(text, i + 1, c)
  }

  /** The first `c` at or after `i` is the one `FindChar` finds. */
  lemma {:induction false} FindCharAt(text: string, i: nat, c: char, j: nat)
    requires i <= j < |text| && text[j] == c && forall k :: i <= k < j ==> text[k] != c
    ensures FindChar(text, i, c) == j
    decreases j - i
  {
    if i < j {
      FindCharAt(text, i + 1, c, j);
    }
  }

  /** No `c` comes before the one `FindChar` finds. */
  lemma {:induction false} FindCharFirst(text: string, i: nat, c: char)
    requires i <= |text|
    ensures forall k :: i <= k < FindChar(text, i, c) ==> text[k] != c
    decreases |text| - i
  {
    if i < |text| && text[i] != c {
      FindCharFirst(text, i + 1, c);
    }
  }

  /** `text` holds, from `i` on, `![`, then `alt`, then `](`, then `url`, then `)`,
      where `alt` has no `]` and `url` is non-empty and has no `)`. */
  predicate IsImageAt(text: string, i: nat, alt: string, url: string)
  {
    var j := i + 2 + |alt|;
    var k := j + 2 + |url|;
    && k < |text|
    && text[i] == '!' && text[i + 1] == '[' && Slice(text, i + 2, j) == alt && text[j] == ']'
    && text[j + 1] == '(' && Slice(text, j + 2, k) == url && text[k] == ')'
    && ']' !in alt && url != [] && ')' !in url
  }

  /** The regular expression tried at offset `i` alone, as the offsets of the
      `]` closing the alt text and of the `)` closing the url. `[^\]]*` can
      only stop at the first `]`, and `[^)]+` at the first `)`, so there is at
      most one match at `i`. */
  function MatchEnds(text: string, i: nat): (r: Option<(nat, nat)>)
    requires i <= |text|
    ensures r.Some? ==> i + 2 <= r.value.0 && r.value.0 + 2 < r.value.1 < |text|
  {
    if i + 2 <= |text| && text[i] == '!' && text[i + 1] == '[' then
      var j := FindChar(text, i + 2, ']');
      if j + 1 < |text| && text[j + 1] == '(' then
        var k := FindChar(text, j + 2, ')');
        if j + 2 < k < |text| then Some((j, k)) else None
      else None
    else None
  }

  /** The match at offset `i`, with its groups. */
  function MatchAt(text: string, i: nat): (r: Option<ImageMatch>)
    requires i <= |text|
    ensures r.Some? <==> MatchEnds(text, i).Some?
    ensures r.Some? ==> r.value.index == i && 5 < r.value.length && i + r.value.length <= |text|
  {
    match MatchEnds(text, i)
    case None => None
    case Some((j, k)) => Some(ImageMatch(i, k + 1 - i, Slice(text, i + 2, j), Slice(text, j + 2, k)))
  }

  /** The characters of a slice are those of the text. */
  lemma SliceAt(text: string, a: nat, b: nat)
    requires a <= b <= |text|
    ensures forall x :: 0 <= x < b - a ==> Slice(text, a, b)[x] == text[a + x]
  {
    SliceIs(text, a, b);
  }

  /** A match found at `i` is an image written out at `i`. */
  lemma MatchIsImage(text: string, i: nat)
    requires i <= |text| && MatchAt(text, i).Some?
    ensures var m := MatchAt(text, i).value;
            m.length == |m.alt| + |m.url| + 5 && IsImageAt(text, i, m.alt, m.url)
  {
    var j := FindChar(text, i + 2, ']');
    var k := FindChar(text, j + 2, ')');
    FindCharFirst(text, i + 2, ']');
    FindCharFirst(text, j + 2, ')');
    SliceAt(text, i + 2, j);
    SliceAt(text, j + 2, k);
    var m := MatchAt(text, i).value;
    assert forall x :: 0 <= x < |m.alt| ==> m.alt[x] == text[i + 2 + x] != ']';
    assert forall x :: 0 <= x < |m.url| ==> m.url[x] == text[j + 2 + x] != ')';
  }

  /** An image written out at `i` is the match found at `i`. */
  lemma ImageIsMatch(text: string, i: nat, alt: string, url: string)
    requires IsImageAt(text, i, alt, url)
    ensures MatchAt(text, i) == Some(ImageMatch(i, |alt| + |url| + 5, alt, url))
  {
    var j := i + 2 + |alt|;
    var k := j + 2 + |url|;
    SliceAt(text, i + 2, j);
    SliceAt(text, j + 2, k);
    forall x | i + 2 <= x < j ensures text[x] != ']' {
      assert alt[x - (i + 2)] in alt;
    }
    forall x | j + 2 <= x < k ensures text[x] != ')' {
      assert url[x - (j + 2)] in url;
    }
    FindCharAt(text, i + 2, ']', j);
    FindCharAt(text, j + 2, ')', k);
  }

  /** A match at `i` is exactly an image written out at `i`, and its length
      covers `![`, the alt text, `](`, the url and `)`. */
  lemma MatchAtIff(text: string, i: nat, m: ImageMatch)
    requires i <= |text|
    ensures MatchAt(text, i) == Some(m) <==>
            m.index == i && m.length == |m.alt| + |m.url| + 5 && IsImageAt(text, i, m.alt, m.url)
  {
    if MatchAt(text, i).Some? {
      MatchIsImage(text, i);
    }
    if IsImageAt(text, i, m.alt, m.url) {
      ImageIsMatch(text, i, m.alt, m.url);
    }
  }

  /** `imageRegex.exec(text)` with `lastIndex` at `from`: the leftmost match
      at or after `from`, or `null`. */
  function Exec(text: string, from: nat): (r: Option<ImageMatch>)
    requires from <= |text|
    ensures r.Some? ==> from <= r.value.index && 5 < r.value.length && r.value.index + r.value.length <= |text|
    decreases |text| - from
  {
    if MatchEnds(text, from).Some? then MatchAt(text, from)
    else if from == |text| then None
    else Exec(text, from + 1)
  }

  /** `exec` finds the leftmost match: the one it returns is a match at its
      index and there is none between `from` and there; when it returns
      `null` there is no match at or after `from`. */
  lemma {:induction false} ExecLeftmost(text: string, from: nat)
    requires from <= |text|
    ensures var r := Exec(text, from);
            && (r.Some? ==> MatchAt(text, r.value.index) == r)
            && (r.Some? ==> forall k :: from <= k < r.value.index ==> MatchEnds(text, k).None?)
            && (r.None? ==> forall k :: from <= k <= |text| ==> MatchEnds(text, k).None?)
    decreases |text| - from
  {
    if MatchEnds(text, from).None? && from < |text| {
      ExecLeftmost(text, from + 1);
    }
  }

  /** The matches `while ((match = imageRegex.exec(text)) !== null)` visits
      once `lastIndex` is `from`: a successful `exec` moves `lastIndex` to the
      end of its match. */
  function MatchesFrom(text: string, from: nat): seq<ImageMatch>
    requires from <= |text|
    decreases |text| - from
  {
    match Exec(text, from)
    case None => []
    case Some(m) => [m] + MatchesFrom(text, m.index + m.length)
  }

  /** The widgets pushed for the matches `ms` of a range starting at document
      offset `base`, after the widgets `acc`: a match gets a widget unless the
      cursor lies in `[matchStart, matchEnd]`. */
  function EmitImages(base: nat, ms: seq<ImageMatch>, cursor: nat, acc: seq<ImageWidget>): seq<ImageWidget>
  {
    if ms == [] then acc
    else
      var start := base + ms[0].index;
      var end := start + ms[0].length;
      EmitImages(base, ms[1..], cursor,
                 if start <= cursor <= end then acc else acc + [ImageWidget(start, end, ms[0].alt, ms[0].url)])
  }

  /** The visible ranges are ranges of the document. */
  predicate RangesInDoc(doc: string, ranges: seq<VisibleRange>)
  {
    forall k :: 0 <= k < |ranges| ==> ranges[k].from <= ranges[k].to <= |doc|
  }

  /** The widgets pushed for the visible ranges from `ranges[k]` on, after `acc`. */
  function EmitRanges(doc: string, ranges: seq<VisibleRange>, cursor: nat, k: nat, acc: seq<ImageWidget>): seq<ImageWidget>
    requires k <= |ranges| && RangesInDoc(doc, ranges)
    decreases |ranges| - k
  {
    if k == |ranges| then acc
    else
      var r := ranges[k];
      EmitRanges(doc, ranges, cursor, k + 1, EmitImages(r.from, MatchesFrom(Slice(doc, r.from, r.to), 0), cursor, acc))
  }

  /** All the widgets `buildDecorations` pushes. */
  function ImageWidgets(doc: string, ranges: seq<VisibleRange>, cursor: nat): seq<ImageWidget>
    requires RangesInDoc(doc, ranges)
  {
    EmitRanges(doc, ranges, cursor, 0, [])
  }

  /** One successful `exec`: the match, then the matches after it. */
  lemma MatchesStep(text: string, from: nat)
    requires from <= |text| && Exec(text, from).Some?
    ensures var m := Exec(text, from).value;
            var ms := MatchesFrom(text, from);
            && m.index + m.length <= |text|
            && ms != [] && ms[0] == m && ms[1..] == MatchesFrom(text, m.index + m.length)
  {
    var m := Exec(text, from).value;
    var rest := MatchesFrom(text, m.index + m.length);
    assert ([m] + rest)[1..] == rest;
  }

  /** The `while (exec)` loop over one range's text, which starts at document
      offset `base`, pushing onto `widgets`. */
  method ScanRange(text: string, base: nat, cursor: nat, widgets0: seq<ImageWidget>) returns (widgets: seq<ImageWidget>)
    ensures widgets == EmitImages(base, MatchesFrom(text, 0), cursor, widgets0)
  {
    widgets := widgets0;
    var lastIndex := 0;
    ghost var todo := MatchesFrom(text, 0);
    while true
      invariant lastIndex <= |text| && todo == MatchesFrom(text, lastIndex)
      invariant EmitImages(base, todo, cursor, widgets) == EmitImages(base, MatchesFrom(text, 0), cursor, widgets0)
      decreases |text| - lastIndex
    {
      var found := Exec(text, lastIndex);
      if found.None? {
        break;
      }
      var m := found.value;
      MatchesStep(text, lastIndex);
      var matchStart := base + m.index;
      var matchEnd := matchStart + m.length;
      lastIndex := m.index + m.length;
      if !(cursor >= matchStart && cursor <= matchEnd) {
        widgets := widgets + [ImageWidget(matchStart, matchEnd, m.alt, m.url)];
      }
      todo := todo[1..];
    }
  }

  /** `imagePlugin.buildDecorations`: every visible range in turn. */
  method BuildDecorations(doc: string, ranges: seq<VisibleRange>, head: nat) returns (widgets: seq<ImageWidget>)
    requires RangesInDoc(doc, ranges)
    ensures widgets == ImageWidgets(doc, ranges, head)
  {
    var cursorPos := head;
    widgets := [];
    var k := 0;
    while k < |ranges|
      invariant k <= |ranges|
      invariant EmitRanges(doc, ranges, cursorPos, k, widgets) == ImageWidgets(doc, ranges, cursorPos)
    {
      var r := ranges[k];
      var text := Slice(doc, r.from, r.to);
      widgets := ScanRange(text, r.from, cursorPos, widgets);
      k := k + 1;
    }
  }

  /** What `exec` returns from `from` on is a list of matches, found where
      they are, in increasing order and without overlap. */
  lemma {:induction false} MatchesOrdered(text: string, from: nat)
    requires from <= |text|
    ensures var ms := MatchesFrom(text, from);
            && (forall j :: 0 <= j < |ms| ==> from <= ms[j].index <= |text| && MatchAt(text, ms[j].index) == Some(ms[j]))
            && (forall j :: 0 <= j < |ms| - 1 ==> ms[j].index + ms[j].length <= ms[j + 1].index)
  {
    var ms := MatchesFrom(text, from);
    forall j | 0 <= j < |ms|
      ensures from <= ms[j].index <= |text| && MatchAt(text, ms[j].index) == Some(ms[j])
    {
      ListedIsMatch(text, from, j);
    }
    forall j | 0 <= j < |ms| - 1
      ensures ms[j].index + ms[j].length <= ms[j + 1].index
    {
      ListedInOrder(text, from, j);
    }
  }

  /** The `j`-th match listed is a match at its index, at or after `from`. */
  lemma {:induction false} ListedIsMatch(text: string, from: nat, j: nat)
    requires from <= |text| && j < |MatchesFrom(text, from)|
    ensures var m := MatchesFrom(text, from)[j];
            from <= m.index <= |text| && MatchAt(text, m.index) == Some(m)
    decreases j
  {
    ExecLeftmost(text, from);
    MatchesStep(text, from);
    if j > 0 {
      var m := Exec(text, from).value;
      ListedIsMatch(text, m.index + m.length, j - 1);
    }
  }

  /** The `j`-th match listed ends before the next one starts. */
  lemma {:induction false} ListedInOrder(text: string, from: nat, j: nat)
    requires from <= |text| && j + 1 < |MatchesFrom(text, from)|
    ensures var ms := MatchesFrom(text, from);
            ms[j].index + ms[j].length <= ms[j + 1].index
    decreases j
  {
    MatchesStep(text, from);
    var m := Exec(text, from).value;
    var e := m.index + m.length;
    if j == 0 {
      ListedIsMatch(text, e, 0);
    } else {
      ListedInOrder(text, e, j - 1);
    }
  }

  /** No match is skipped: every offset from `from` on where the pattern
      matches is the start of a listed match or lies strictly inside one. */
  lemma MatchesComplete(text: string, from: nat, p: nat)
    requires from <= p <= |text| && MatchAt(text, p).Some?
    ensures var ms := MatchesFrom(text, from);
            exists j :: 0 <= j < |ms| && ms[j].index <= p < ms[j].index + ms[j].length
  {
    var j := CoveringMatch(text, from, p);
  }

  /** The index `j` of the listed match that starts at or covers `p`. */
  lemma {:induction false} CoveringMatch(text: string, from: nat, p: nat) returns (j: nat)
    requires from <= p <= |text| && MatchAt(text, p).Some?
    ensures var ms := MatchesFrom(text, from);
            j < |ms| && ms[j].index <= p < ms[j].index + ms[j].length
    decreases |text| - from
  {
    ExecLeftmost(text, from);
    var m := Exec(text, from).value;
    MatchesStep(text, from);
    if p >= m.index + m.length {
      var i := CoveringMatch(text, m.index + m.length, p);
      var ms := MatchesFrom(text, from);
      assert ms[1..][i] == ms[i + 1];
      j := i + 1;
    } else {
      j := 0;
    }
  }

  /** `w` is the widget for the match `m` of a range starting at `base`, and
      the cursor is not in `[matchStart, matchEnd]`. */
  predicate WidgetOfMatch(base: nat, m: ImageMatch, cursor: nat, w: ImageWidget)
  {
    && w == ImageWidget(base + m.index, base + m.index + m.length, m.alt, m.url)
    && !(w.from <= cursor <= w.to)
  }

  /** The widgets pushed for the matches `ms` are those of `acc` and one per
      match the cursor does not touch. */
  lemma {:induction false} EmitImagesMembers(base: nat, ms: seq<ImageMatch>, cursor: nat, acc: seq<ImageWidget>, w: ImageWidget)
    ensures w in EmitImages(base, ms, cursor, acc) <==>
            w in acc || exists j :: 0 <= j < |ms| && WidgetOfMatch(base, ms[j], cursor, w)
  {
    if ms != [] {
      var start := base + ms[0].index;
      var end := start + ms[0].length;
      var next := if start <= cursor <= end then acc else acc + [ImageWidget(start, end, ms[0].alt, ms[0].url)];
      EmitImagesMembers(base, ms[1..], cursor, next, w);
      if exists j :: 0 <= j < |ms| && WidgetOfMatch(base, ms[j], cursor, w) {
        var j :| 0 <= j < |ms| && WidgetOfMatch(base, ms[j], cursor, w);
        if j > 0 {
          assert ms[1..][j - 1] == ms[j];
        }
      }
      if exists j :: 0 <= j < |ms[1..]| && WidgetOfMatch(base, ms[1..][j], cursor, w) {
        var j :| 0 <= j < |ms[1..]| && WidgetOfMatch(base, ms[1..][j], cursor, w);
        assert ms[1..][j] == ms[j + 1];
      }
    }
  }

  /** The matches in a visible range's text. */
  function RangeMatches(doc: string, r: VisibleRange): seq<ImageMatch>
    requires r.from <= r.to <= |doc|
  {
    MatchesFrom(Slice(doc, r.from, r.to), 0)
  }

  /** The widgets pushed for the ranges from `ranges[k]` on are those of `acc`
      and one per match, in any of those ranges, that the cursor does not touch. */
  lemma {:induction false} EmitRangesMembers(doc: string, ranges: seq<VisibleRange>, cursor: nat, k: nat,
                                             acc: seq<ImageWidget>, w: ImageWidget)
    requires k <= |ranges| && RangesInDoc(doc, ranges)
    ensures w in EmitRanges(doc, ranges, cursor, k, acc) <==>
            w in acc || exists q, j :: k <= q < |ranges| && 0 <= j < |RangeMatches(doc, ranges[q])|
                                       && WidgetOfMatch(ranges[q].from, RangeMatches(doc, ranges[q])[j], cursor, w)
    decreases |ranges| - k
  {
    if k < |ranges| {
      var r := ranges[k];
      var next := EmitImages(r.from, RangeMatches(doc, r), cursor, acc);
      EmitImagesMembers(r.from, RangeMatches(doc, r), cursor, acc, w);
      EmitRangesMembers(doc, ranges, cursor, k + 1, next, w);
    }
  }

  /** An image written out in a slice of the document is written out in the
      document at the corresponding offset. */
  lemma ImageInSlice(doc: string, a: nat, b: nat, i: nat, alt: string, url: string)
    requires a <= b <= |doc| && IsImageAt(Slice(doc, a, b), i, alt, url)
    ensures IsImageAt(doc, a + i, alt, url)
  {
    var t := Slice(doc, a, b);
    var j := i + 2 + |alt|;
    var k := j + 2 + |url|;
    SliceAt(doc, a, b);
    SliceAt(t, i + 2, j);
    SliceAt(t, j + 2, k);
    SliceAt(doc, a + i + 2, a + j);
    SliceAt(doc, a + j + 2, a + k);
    assert Slice(doc, a + i + 2, a + j) == alt;
    assert Slice(doc, a + j + 2, a + k) == url;
  }

  /** The widget for a match of a visible range covers an image written out
      in the document, from `![` to `)`. */
  lemma RangeWidgetIsImage(doc: string, r: VisibleRange, j: nat, cursor: nat, w: ImageWidget)
    requires r.from <= r.to <= |doc| && j < |RangeMatches(doc, r)|
    requires WidgetOfMatch(r.from, RangeMatches(doc, r)[j], cursor, w)
    ensures IsImageAt(doc, w.from, w.alt, w.src) && w.to == w.from + |w.alt| + |w.src| + 5
  {
    var text := Slice(doc, r.from, r.to);
    var m := MatchesFrom(text, 0)[j];
    ListedIsMatch(text, 0, j);
    MatchIsImage(text, m.index);
    ImageInSlice(doc, r.from, r.to, m.index, m.alt, m.url);
  }

  /** Every widget replaces an image written out in the document as
      `![alt](src)`, spanning exactly that text, and the cursor is not in
      its span, both ends included. */
  lemma WidgetsAreImages(doc: string, ranges: seq<VisibleRange>, cursor: nat, w: ImageWidget)
    requires RangesInDoc(doc, ranges) && w in ImageWidgets(doc, ranges, cursor)
    ensures IsImageAt(doc, w.from, w.alt, w.src) && w.to == w.from + |w.alt| + |w.src| + 5
    ensures !(w.from <= cursor <= w.to)
  {
    EmitRangesMembers(doc, ranges, cursor, 0, [], w);
    var q, j :| 0 <= q < |ranges| && 0 <= j < |RangeMatches(doc, ranges[q])|
                && WidgetOfMatch(ranges[q].from, RangeMatches(doc, ranges[q])[j], cursor, w);
    RangeWidgetIsImage(doc, ranges[q], j, cursor, w);
  }
}
