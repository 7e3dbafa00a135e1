/** The recent-files list kept in `history.json`: opening a file puts it at
    the front of the list, drops older entries for the same path and keeps at
    most 30 entries, except for two kinds of file name that are never
    recorded. The JSON file is an abstract stored value; the clock reading is
    a parameter. */
module RecentFiles {
  import opened Common

  datatype Entry = Entry(filePath: string, openedAt: string, title: string)

  /** The list is cut to this many entries. */
  const MaxEntries: nat := 30

  /** `[a-zA-Z_\-]` */
  predicate IsNameChar(c: char)
  {
    ('a' <= c <= 'z') || ('A' <= c <= 'Z') || c == '_' || c == '-'
  }

  predicate AllDigits(s: string)
  {
    forall i :: 0 <= i < |s| ==> IsDigit(s[i])
  }

  predicate AllNameChars(s: string)
  {
    forall i :: 0 <= i < |s| ==> IsNameChar(s[i])
  }

  /** `/\d{8}\.md$/.test(p)`: the string ends with eight digits and `.md`
      (the pattern is anchored only at the end). */
  predicate IsDateName(p: string)
  {
    |p| >= 11 && EndsWith(p, ".md") && AllDigits(p[|p| - 11..|p| - 3])
  }

  /** `body` is a non-empty run of name characters followed by exactly `n` digits. */
  predicate NameThenDigits(body: string, n: nat)
  {
    n < |body| && AllNameChars(body[..|body| - n]) && AllDigits(body[|body| - n..])
  }

  /** `/^([a-zA-Z_\-]+)(\d{2,3})\.md$/.test(p)`: the WHOLE string is a
      non-empty run of name characters, two or three digits and `.md`. */
  predicate IsNumberedName(p: string)
  {
    EndsWith(p, ".md") && (NameThenDigits(p[..|p| - 3], 2) || NameThenDigits(p[..|p| - 3], 3))
  }

  /** The two names `addToHistory` refuses to record. */
  predicate Excluded(p: string)
  {
    IsDateName(p) || IsNumberedName(p)
  }

  /** `history.filter(entry => entry.filePath !== filePath)` */
  function Without(history: seq<Entry>, filePath: string): (r: seq<Entry>)
    ensures |r| <= |history|
    ensures forall e :: e in r <==> e in history && e.filePath != filePath
  {
    if history == [] then []
    else if history[0].filePath != filePath then [history[0]] + Without(history[1..], filePath)
    else Without(history[1..], filePath)
  }

  /** `[newEntry, ...filtered].slice(0, 30)` */
  function Updated(history: seq<Entry>, filePath: string, openedAt: string, title: string): seq<Entry>
  {
    var l := [Entry(filePath, openedAt, title)] + Without(history, filePath);
    l[..if |l| < MaxEntries then |l| else MaxEntries]
  }

  /** What `history.json` holds: nothing yet, text that does not parse, or a list. */
  datatype StoredFile = Missing | Unparsable | Saved(entries: seq<Entry>)

  /** `loadHistory`: a missing or unparsable file reads as the empty list. */
  function Load(f: StoredFile): seq<Entry>
  {
    if f.Saved? then f.entries else []
  }

  /** `addToHistory(filePath, title = '')` as a change of the stored file,
      opened at the clock reading `openedAt`. */
  function AddToHistory(f: StoredFile, filePath: string, openedAt: string, title: string := ""): (r: StoredFile)
    ensures Excluded(filePath) ==> r == f
    ensures !Excluded(filePath) ==> r.Saved?
  {
    if IsDateName(filePath) then f
    else if IsNumberedName(filePath) then f
    else Saved(Updated(Load(f), filePath, openedAt, title))
  }

  /** Filtering distributes over concatenation, so it keeps the order of the
      entries it keeps. */
  lemma {:induction false} WithoutAppend(a: seq<Entry>, b: seq<Entry>, filePath: string)
    ensures Without(a + b, filePath) == Without(a, filePath) + Without(b, filePath)
    decreases |a|
  {
    if a == [] {
      assert a + b == b;
    } else {
      assert (a + b)[1..] == a[1..] + b;
      WithoutAppend(a[1..], b, filePath);
    }
  }

  /** Filtering a list that holds no entry for the path changes nothing. */
  lemma {:induction false} WithoutAbsent(h: seq<Entry>, filePath: string)
    requires forall i :: 0 <= i < |h| ==> h[i].filePath != filePath
    ensures Without(h, filePath) == h
    decreases |h|
  {
    if h != [] {
      WithoutAbsent(h[1..], filePath);
      assert [h[0]] + h[1..] == h;
    }
  }

  /** Filtering by one path twice is filtering once. */
  lemma WithoutIdempotent(h: seq<Entry>, filePath: string)
    ensures Without(Without(h, filePath), filePath) == Without(h, filePath)
  {
    var w := Without(h, filePath);
    forall i | 0 <= i < |w| ensures w[i].filePath != filePath {
      assert w[i] in w;
    }
    WithoutAbsent(w, filePath);
  }

  /** A recorded file is at the front of the new list, is the only entry for
      its path, and is followed by the older entries for other paths in their
      old order; the list never exceeds 30 entries. */
  lemma AddedEntry(f: StoredFile, filePath: string, openedAt: string, title: string)
    requires !Excluded(filePath)
    ensures var r := AddToHistory(f, filePath, openedAt, title).entries;
            var w := Without(Load(f), filePath);
            && 1 <= |r| <= MaxEntries
            && r[0] == Entry(filePath, openedAt, title)
            && (forall i :: 0 <= i < |r| && r[i].filePath == filePath ==> i == 0)
            && r[1..] == w[..if |w| < MaxEntries - 1 then |w| else MaxEntries - 1]
  {
    var r := AddToHistory(f, filePath, openedAt, title).entries;
    var w := Without(Load(f), filePath);
    var k := if |w| < MaxEntries - 1 then |w| else MaxEntries - 1;
    UpdatedIs(Load(f), filePath, openedAt, title);
    assert r == [Entry(filePath, openedAt, title)] + w[..k];
    forall i | 1 <= i < |r| ensures r[i].filePath != filePath {
      assert r[i] == w[i - 1];
      assert w[i - 1] in w;
    }
  }

  /** The list `Updated` builds: the new entry, then the older entries for
      other paths, cut so that at most 30 entries remain. */
  lemma UpdatedIs(h: seq<Entry>, filePath: string, openedAt: string, title: string)
    ensures var w := Without(h, filePath);
            Updated(h, filePath, openedAt, title)
            == [Entry(filePath, openedAt, title)] + w[..if |w| < MaxEntries - 1 then |w| else MaxEntries - 1]
  {
    var w := Without(h, filePath);
    var k := if |w| < MaxEntries - 1 then |w| else MaxEntries - 1;
    var l := [Entry(filePath, openedAt, title)] + w;
    assert l[..k + 1] == [Entry(filePath, openedAt, title)] + w[..k];
  }

  /** Reopening a file that was just recorded only refreshes its entry: the
      result is the same as recording the second opening alone. */
  lemma ReopenReplaces(f: StoredFile, filePath: string, t1: string, title1: string, t2: string, title2: string)
    requires !Excluded(filePath)
    ensures AddToHistory(AddToHistory(f, filePath, t1, title1), filePath, t2, title2)
            == AddToHistory(f, filePath, t2, title2)
  {
    var w := Without(Load(f), filePath);
    var k := if |w| < MaxEntries - 1 then |w| else MaxEntries - 1;
    var once := AddToHistory(f, filePath, t1, title1).entries;
    UpdatedIs(Load(f), filePath, t1, title1);
    UpdatedIs(Load(f), filePath, t2, title2);
    UpdatedIs(once, filePath, t2, title2);
    assert Without(once, filePath) == w[..k] by {
      WithoutAppend([Entry(filePath, t1, title1)], w[..k], filePath);
      assert Without([Entry(filePath, t1, title1)], filePath) == [] by {
        assert [Entry(filePath, t1, title1)][1..] == [];
      }
      forall i | 0 <= i < k ensures w[..k][i].filePath != filePath {
        assert w[..k][i] == w[i] && w[i] in w;
      }
      WithoutAbsent(w[..k], filePath);
    }
    assert w[..k][..k] == w[..k];
  }

  /** The title defaults to the empty string. */
  lemma DefaultTitle(f: StoredFile, filePath: string, openedAt: string)
    requires !Excluded(filePath)
    ensures AddToHistory(f, filePath, openedAt).entries[0].title == ""
  {
  }

  /** The numbered-name test is anchored at both ends and applied to the whole
      argument, so it never matches a string holding a directory separator. */
  lemma NumberedNameHasNoSlash(p: string)
    requires IsNumberedName(p)
    ensures '/' !in p
  {
    var body := p[..|p| - 3];
    var n := if NameThenDigits(body, 2) then 2 else 3;
    assert NameThenDigits(body, n);
    forall i | 0 <= i < |p| ensures p[i] != '/' {
      if i < |body| - n {
        assert p[i] == body[..|body| - n][i];
        assert IsNameChar(body[..|body| - n][i]);
      } else if i < |body| {
        assert p[i] == body[|body| - n..][i - (|body| - n)];
        assert IsDigit(body[|body| - n..][i - (|body| - n)]);
      } else {
        assert p[i] == p[|p| - 3..][i - (|p| - 3)];
        assert p[|p| - 3..] == ".md";
      }
    }
  }

  /** The bare name `memo12.md` is not recorded. */
  lemma BareNumberedExcluded()
    ensures Excluded("memo12.md")
  {
    var p := "memo12.md";
    var body := "memo12";
    assert p[..|p| - 3] == body;
    assert p[|p| - 3..] == ".md";
    assert body[..|body| - 2] == "memo" && body[|body| - 2..] == "12";
    assert AllNameChars("memo") && AllDigits("12");
  }

  /** The same file under its full path is recorded. */
  lemma FullPathRecorded()
    ensures !Excluded("/notes/memo12.md")
  {
    var full := "/notes/memo12.md";
    NotNumbered(full);
    assert full[|full| - 11..|full| - 3][2] == 'm';
  }

  /** A dated name is not recorded, whatever directory it is in. */
  lemma DatedNameExcluded()
    ensures Excluded("/notes/20250101.md")
  {
    var q := "/notes/20250101.md";
    assert q[|q| - 3..] == ".md";
    assert q[|q| - 11..|q| - 3] == "20250101";
  }

  lemma NotNumbered(p: string)
    requires '/' in p
    ensures !IsNumberedName(p)
  {
    if IsNumberedName(p) {
      NumberedNameHasNoSlash(p);
    }
  }
}
