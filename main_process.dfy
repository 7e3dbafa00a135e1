/** The main process's own logic: the window title shown for a file, the
    content and the default name of a save, the decision taken when a window
    is closed, and the set of open windows. Dialogs and the file system are
    outside: what a dialog answers is a parameter, and a write to disk is
    returned as a value. */
module MainProcess {
  import opened Common

  // ----- Window title (the `update-title` handler) -----

  const DefaultTitle := "Bext Editor"

  /** `p` with its trailing '/' characters removed. */
  function DropTrailingSlashes(p: string): (r: string)
    ensures StartsWith(p, r) && (r == [] || r[|r| - 1] != '/')
    ensures forall i :: |r| <= i < |p| ==> p[i] == '/'
  {
    if p != [] && p[|p| - 1] == '/' then DropTrailingSlashes(p[..|p| - 1]) else p
  }

  /** The characters of `p` after its last '/'. */
  function LastSegment(p: string): (r: string)
    ensures '/' !in r && EndsWith(p, r)
    ensures |r| < |p| ==> p[|p| - |r| - 1] == '/'
  {
    if p == [] || p[|p| - 1] == '/' then [] else LastSegment(p[..|p| - 1]) + [p[|p| - 1]]
  }

  /** Node's POSIX `path.basename(p)`: the last segment once trailing
      separators are dropped. */
  function Basename(p: string): string
  {
    LastSegment(DropTrailingSlashes(p))
  }

  /** The title of the `update-title` handler for the message `{filePath, isDirty}`. */
  function WindowTitle(filePath: Option<string>, isDirty: bool): string
  {
    var title := if Truthy(filePath) then Basename(filePath.value) else DefaultTitle;
    if isDirty then "*" + title else title
  }

  /** A basename is the file name after the directory: it holds no '/', and
      the name of `dir/name` is `name`. */
  lemma BasenameOfJoin(dir: string, name: string)
    requires name != [] && '/' !in name
    ensures Basename(dir + "/" + name) == name
  {
    var p := dir + "/" + name;
    assert DropTrailingSlashes(p) == p;
    LastSegmentOfJoin(dir, name);
  }

  lemma {:induction false} LastSegmentOfJoin(dir: string, name: string)
    requires '/' !in name
    ensures LastSegment(dir + "/" + name) == name
    decreases |name|
  {
    var p := dir + "/" + name;
    if name != [] {
      var init := name[..|name| - 1];
      assert p[..|p| - 1] == dir + "/" + init;
      assert forall c :: c in init ==> c in name;
      LastSegmentOfJoin(dir, init);
      assert name == init + [p[|p| - 1]];
    }
  }

  /** Trailing separators do not change the basename. */
  lemma BasenameTrailingSlash(p: string)
    ensures Basename(p + "/") == Basename(p)
  {
    var q := p + "/";
    assert q[|q| - 1] == '/' && q[..|q| - 1] == p;
    assert DropTrailingSlashes(q) == DropTrailingSlashes(p);
  }

  /** The dirty marker is a leading '*' in front of the clean title, and the
      title never holds a '/'. */
  lemma TitleShape(filePath: Option<string>, isDirty: bool)
    ensures WindowTitle(filePath, true) == "*" + WindowTitle(filePath, false)
    ensures '/' !in WindowTitle(filePath, isDirty)
    ensures !Truthy(filePath) ==> WindowTitle(filePath, isDirty) == (if isDirty then "*Bext Editor" else "Bext Editor")
  {
    var t := WindowTitle(filePath, false);
    assert '/' !in t;
  }

  /** A file saved as `dir/name` and left clean is shown as `name`; once edited,
      as `*name`. */
  lemma TitleOfFile(dir: string, name: string)
    requires name != [] && '/' !in name
    ensures WindowTitle(Some(dir + "/" + name), false) == name
    ensures WindowTitle(Some(dir + "/" + name), true) == "*" + name
  {
    BasenameOfJoin(dir, name);
  }

  // ----- Saved content -----

  const ZeroWidthSpace: char := '\U{200B}'

  /** `content.replace(/\u200B/g, '')` */
  function StripZeroWidth(s: string): (r: string)
    ensures ZeroWidthSpace !in r
    ensures multiset(r) == multiset(s)[ZeroWidthSpace := 0]
  {
    if s == [] then []
    else
      var rest := StripZeroWidth(s[1..]);
      assert s == [s[0]] + s[1..];
      if s[0] == ZeroWidthSpace then rest else [s[0]] + rest
  }

  /** Stripping works piece by piece, so the order of the kept characters is the
      order they had. */
  lemma {:induction false} StripAppend(a: string, b: string)
    ensures StripZeroWidth(a + b) == StripZeroWidth(a) + StripZeroWidth(b)
    decreases |a|
  {
    if a != [] {
      assert (a + b)[1..] == a[1..] + b;
      StripAppend(a[1..], b);
    } else {
      assert a + b == b;
    }
  }

  /** Content without a zero-width space is saved as it is. */
  lemma {:induction false} StripNothing(s: string)
    requires ZeroWidthSpace !in s
    ensures StripZeroWidth(s) == s
  {
    if s != [] {
      assert s[0] in s;
      assert forall c :: c in s[1..] ==> c in s;
      StripNothing(s[1..]);
    }
  }

  /** Stripping twice is stripping once. */
  lemma StripIdempotent(s: string)
    ensures StripZeroWidth(StripZeroWidth(s)) == StripZeroWidth(s)
  {
    StripNothing(StripZeroWidth(s));
  }

  // ----- Default save name -----

  /** `content.split('\n')[0]` */
  function FirstLine(s: string): (r: string)
    ensures '\n' !in r && StartsWith(s, r)
    ensures |r| < |s| ==> s[|r|] == '\n'
  {
    if s == [] || s[0] == '\n' then []
    else
      var rest := FirstLine(s[1..]);
      assert s[..|rest| + 1] == [s[0]] + s[1..][..|rest|];
      [s[0]] + rest
  }

  /** The characters `String.prototype.trim` removes: ECMAScript's WhiteSpace
      (tab, vertical tab, form feed, space, no-break space, the byte order mark
      and the space separators of Unicode) and its LineTerminators. */
  predicate IsJsWhitespace(c: char)
  {
    c == '\t' || c == '\U{000B}' || c == '\U{000C}' || c == ' ' || c == '\U{00A0}' || c == '\U{FEFF}'
    || c == '\U{1680}' || ('\U{2000}' <= c <= '\U{200A}') || c == '\U{202F}' || c == '\U{205F}' || c == '\U{3000}'
    || c == '\n' || c == '\r' || c == '\U{2028}' || c == '\U{2029}'
  }

  predicate AllWhitespace(s: string)
  {
    forall i :: 0 <= i < |s| ==> IsJsWhitespace(s[i])
  }

  /** `s` without its leading whitespace. */
  function TrimStart(s: string): (r: string)
    ensures EndsWith(s, r) && AllWhitespace(s[..|s| - |r|])
    ensures r == [] || !IsJsWhitespace(r[0])
  {
    if s != [] && IsJsWhitespace(s[0]) then
      var r := TrimStart(s[1..]);
      assert s[..|s| - |r|] == [s[0]] + s[1..][..|s[1..]| - |r|];
      r
    else s
  }

  /** `s` without its trailing whitespace. */
  function TrimEnd(s: string): (r: string)
    ensures StartsWith(s, r) && AllWhitespace(s[|r|..])
    ensures r == [] || !IsJsWhitespace(r[|r| - 1])
  {
    if s != [] && IsJsWhitespace(s[|s| - 1]) then
      var r := TrimEnd(s[..|s| - 1]);
      assert s[|r|..] == s[..|s| - 1][|r|..] + [s[|s| - 1]];
      r
    else s
  }

  /** `s.trim()` */
  function Trim(s: string): string
  {
    TrimEnd(TrimStart(s))
  }

  /** The trimmed text is `s` without any whitespace on either side: it is a
      piece `s[a..b]` with only whitespace around, and it is empty exactly when
      `s` is all whitespace. */
  lemma TrimIs(s: string)
    ensures var t := Trim(s);
            exists a: nat, b: nat :: a <= b <= |s| && t == s[a..b] && AllWhitespace(s[..a]) && AllWhitespace(s[b..])
    ensures var t := Trim(s); t == [] || (!IsJsWhitespace(t[0]) && !IsJsWhitespace(t[|t| - 1]))
    ensures Trim(s) == [] <==> AllWhitespace(s)
  {
    var u := TrimStart(s);
    var t := TrimEnd(u);
    var a := |s| - |u|;
    var b := a + |t|;
    assert u == s[a..];
    assert t == s[a..b];
    assert s[b..] == u[|t|..];
    if t == [] && !AllWhitespace(s) {
      var i :| 0 <= i < |s| && !IsJsWhitespace(s[i]);
    }
    if t != [] {
      assert t[0] == u[0];
    }
  }

  /** The characters stripped from a default name: `/ \ ? % * : | " < >`. */
  predicate IsForbidden(c: char)
  {
    c == '/' || c == '\\' || c == '?' || c == '%' || c == '*' || c == ':' || c == '|' || c == '"' || c == '<' || c == '>'
  }

  /** `s.replace(/[/\\?%*:|"<>]/g, '')` */
  function RemoveForbidden(s: string): (r: string)
    ensures forall i :: 0 <= i < |r| ==> !IsForbidden(r[i])
    ensures forall c :: !IsForbidden(c) ==> multiset(r)[c] == multiset(s)[c]
    ensures forall c :: IsForbidden(c) ==> multiset(r)[c] == 0
  {
    if s == [] then []
    else
      var rest := RemoveForbidden(s[1..]);
      assert s == [s[0]] + s[1..];
      if IsForbidden(s[0]) then rest else [s[0]] + rest
  }

  /** The `defaultPath` offered by the save dialog for a file without a path. */
  function DefaultSaveName(content: string): string
  {
    var firstLine := Trim(FirstLine(content));
    if firstLine != "" then RemoveForbidden(firstLine) + ".md" else ""
  }

  /** No name is suggested exactly when the first line is blank; otherwise the
      name is the first line, trimmed and without forbidden characters, then
      ".md", and it holds no newline and no forbidden character before ".md". */
  lemma DefaultSaveNameIs(content: string)
    ensures DefaultSaveName(content) == "" <==> AllWhitespace(FirstLine(content))
    ensures var n := DefaultSaveName(content);
            n != "" ==> EndsWith(n, ".md") && n[..|n| - 3] == RemoveForbidden(Trim(FirstLine(content)))
                        && (forall i :: 0 <= i < |n| - 3 ==> !IsForbidden(n[i]) && n[i] != '\n')
  {
    var first := FirstLine(content);
    TrimIs(first);
    var t := Trim(first);
    var stem := RemoveForbidden(t);
    if t != "" {
      var n := stem + ".md";
      assert n[..|n| - 3] == stem;
      assert n[|n| - 3..] == ".md";
      forall i | 0 <= i < |n| - 3
        ensures !IsForbidden(n[i]) && n[i] != '\n'
      {
        assert n[i] == stem[i];
        assert stem[i] in multiset(stem);
      }
    }
  }

  // ----- handleFileSave -----

  /** What the save dialog answers. */
  datatype SaveDialog = Canceled | Chosen(path: string)

  /** `fs.writeFileSync(path, content)` */
  datatype FileWrite = FileWrite(path: string, content: string)

  /** The effects and the answer of one `handleFileSave`: the name the dialog
      offered (when it was shown), the write, the path given to
      `addRecentDocument`, and the returned path (`undefined` as `None`). */
  datatype SaveOutcome = SaveOutcome(dialogDefault: Option<string>, written: Option<FileWrite>,
                                     recentDocument: Option<string>, returned: Option<string>)

  /** `handleFileSave(event, {filePath, content})`, with the dialog's answer as a parameter. */
  function HandleFileSave(filePath: Option<string>, content: string, dialog: SaveDialog): (o: SaveOutcome)
    ensures o.returned.Some? <==> o.written.Some?
    ensures o.written.Some? ==> o.returned == Some(o.written.value.path) && o.written.value.content == StripZeroWidth(content)
  {
    if Truthy(filePath) then
      var contentToSave := StripZeroWidth(content);
      SaveOutcome(None, Some(FileWrite(filePath.value, contentToSave)), filePath, filePath)
    else
      var defaultName := DefaultSaveName(content);
      match dialog
      case Canceled => SaveOutcome(Some(defaultName), None, None, None)
      case Chosen(newFilePath) =>
        var contentToSave := StripZeroWidth(content);
        SaveOutcome(Some(defaultName), Some(FileWrite(newFilePath, contentToSave)), None, Some(newFilePath))
  }

  /** A file with a path is written there without asking, and that path is
      returned and recorded as recent; a file without one goes through the
      dialog, which suggests the default name, and a cancelled dialog writes
      nothing and returns `undefined`. */
  lemma SaveCases(filePath: Option<string>, content: string, dialog: SaveDialog)
    ensures var o := HandleFileSave(filePath, content, dialog);
            Truthy(filePath) ==> o.dialogDefault.None? && o.written.Some? && o.written.value.path == filePath.value
                                 && o.returned == filePath && o.recentDocument == filePath
    ensures var o := HandleFileSave(filePath, content, dialog);
            !Truthy(filePath) ==> o.dialogDefault == Some(DefaultSaveName(content)) && o.recentDocument.None?
                                  && (o.returned.None? <==> dialog.Canceled?)
                                  && (dialog.Chosen? ==> o.returned == Some(dialog.path))
    ensures var o := HandleFileSave(filePath, content, dialog);
            o.written.Some? ==> ZeroWidthSpace !in o.written.value.content
  {
  }

  // ----- Close decision -----

  /** What the `close` handler does with the window. */
  datatype CloseAction = Destroy | SaveThenDestroy | KeepOpen

  /** The decision of the `is-dirty-<id>` handler: a clean window is destroyed;
      for a dirty one the message box's answer decides (0 Save, 1 Don't Save,
      anything else leaves the window open). */
  function CloseDecision(isDirty: bool, choice: int): (a: CloseAction)
    ensures a == Destroy <==> !isDirty || choice == 1
    ensures a == SaveThenDestroy <==> isDirty && choice == 0
    ensures a == KeepOpen <==> isDirty && choice != 0 && choice != 1
  {
    if isDirty then
      if choice == 0 then SaveThenDestroy
      else if choice == 1 then Destroy
      else KeepOpen
    else Destroy
  }

  // ----- The `windows` set -----

  /** The open windows, identified by their ids. */
  class WindowRegistry {
    var windows: set<nat>
    /** The id the next `BrowserWindow` receives. */
    var nextId: nat

    /** Every window in the set was created earlier. */
    predicate Valid()
      reads this
    {
      forall w :: w in windows ==> w < nextId
    }

    /** `const windows = new Set()` */
    constructor ()
      ensures windows == {} && Valid()
    {
      windows := {};
      nextId := 1;
    }

    /** `createWindow()`: a new window is added to the set. */
    method CreateWindow() returns (win: nat)
      requires Valid()
      modifies this
      ensures Valid()
      ensures win !in old(windows) && windows == old(windows) + {win}
    {
      win := nextId;
      nextId := nextId + 1;
      windows := windows + {win};
    }

    /** The window's `closed` handler: the window leaves the set. */
    method Closed(win: nat)
      requires Valid()
      modifies this
      ensures Valid()
      ensures windows == old(windows) - {win}
    {
      windows := windows - {win};
    }

    /** The `activate` handler: a window is created only when none is open. */
    method Activate() returns (created: Option<nat>)
      requires Valid()
      modifies this
      ensures Valid() && windows != {}
      ensures created.Some? <==> old(windows) == {}
      ensures created.Some? ==> windows == {created.value}
      ensures created.None? ==> windows == old(windows)
    {
      if windows == {} {
        var win := CreateWindow();
        created := Some(win);
      } else {
        created := None;
      }
    }
  }
}
