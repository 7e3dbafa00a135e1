# Bext Editor in Dafny

Bext Editor is a markdown editor for the desktop, built on Electron and CodeMirror. This project models the editor's own logic and proves properties of it. It covers both processes:

- **Renderer process:**
  - the dirty flag and the current path of the open file;
  - moving a line up or down;
  - folding and unfolding heading sections;
  - inline image previews;
  - task-list check boxes.
- **Main process:**
  - the window title;
  - what a save writes and the name it suggests;
  - what happens when a window is closed;
  - the set of open windows.
- **Two helper classes:**
  - the back/forward navigation history;
  - the recent-files list.

A document is a string. A line is CodeMirror's `{number, from, to}`. `lineAt` is a function on the string. Lemmas prove that `line(number - 1)` and `line(number + 1)` are the lines just before and just after.

The editor's state is modelled in two ways:

- **Classes:**
  - `EditorSession.Editor`, the renderer's module-level variables;
  - `NavigationHistory.NavigationHistory`;
  - `MainProcess.WindowRegistry`, the `windows` set.
- **Loops:** the loops of the source are methods with invariants. They are proved equal to specification functions, and the properties are proved about those functions.

Anything the source gets from outside is an argument instead:

- dialogs, message boxes and the clock;
- CodeMirror's syntax tree and its visible ranges.

Effects also come back as values:

- a `dispatch` becomes the transaction or ranges a function returns;
- a file write becomes a `FileWrite` value;
- a title message becomes a `TitleRequest` appended to a list.

`moveLineUp` and `moveLineDown` appear twice in the source, in `lib/keybindings.js:10-73` and in `renderer.js:155-200`. The two copies compute the same change and cursor, so one model covers both.

Modules:

| module | file | models |
|---|---|---|
| `Common` | common.dfy | `Option` (null/undefined), truthiness of a path, `startsWith`/`endsWith`, `\d`, `repeat` |
| `TextLines` | text_lines.dfy | `doc.lineAt`, `doc.lines`, `sliceString`, applying a change; `doc.line(number - 1)` and `doc.line(number + 1)` as the lines at the neighbouring offsets, with their numbers proved |
| `NavigationHistory` | navigation_history.dfy | `lib/NavigationHistory.js` |
| `RecentFiles` | recent_files.dfy | `addToHistory` in `history.js` |
| `LineMove` | line_move.dfy | `moveLineUp`, `moveLineDown` |
| `HeadingFold` | heading_fold.dfy | `foldAllHeading2`, `unfoldHeadingLevel` |
| `ImageScan` | image_scan.dfy | `imagePlugin.buildDecorations` |
| `Checklist` | checklist.dfy | `checklistPlugin.buildDecorations`, the check box's click |
| `EditorSession` | editor_session.dfy | `updateTitle`, `setDirtyState`, the update listener, `onLoadFile`, `onTriggerSaveFile`, `onBeforeClose` |
| `MainProcess` | main_process.dfy | the `update-title` handler, `handleFileSave`, the close decision, the `windows` set |
| `SaveAndClose` | save_and_close.dfy | a save and a window close across both processes |

## Model

| member | source | states |
|---|---|---|
| NavigationHistory.NavigationHistory.constructor | lib/NavigationHistory.js:2-5 | a new history has both stacks empty |
| NavigationHistory.NavigationHistory.Visit | lib/NavigationHistory.js:8-11 | the entry is pushed on the back stack and the forward stack is emptied |
| NavigationHistory.NavigationHistory.Back | lib/NavigationHistory.js:14-18 | on an empty back stack: null and no change; otherwise: the popped top, with the current entry pushed on the forward stack |
| NavigationHistory.NavigationHistory.Forward | lib/NavigationHistory.js:21-25 | the mirror image of `back` |
| NavigationHistory.VisitStep | lib/NavigationHistory.js:8-11 | `visit` as a function on the two stacks: the entry is pushed and the forward stack is emptied. The class's `Visit` is proved equal to it, and `ForwardAfterVisit`/`BackAfterVisit` are proved about it |
| NavigationHistory.BackStep | lib/NavigationHistory.js:14-18 | `back` as a function on the two stacks. The class's `Back` is proved equal to it; `BackThenForward` and `StepsKeepSize` are proved about it |
| NavigationHistory.ForwardStep | lib/NavigationHistory.js:21-25 | `forward` as a function on the two stacks. The class's `Forward` is proved equal to it; `ForwardThenBack` and `StepsKeepSize` are proved about it |
| NavigationHistory.BackThenForward | lib/NavigationHistory.js:14-25 | going forward from the entry `back` returned returns the entry the caller was on and restores both stacks |
| NavigationHistory.ForwardThenBack | lib/NavigationHistory.js:14-25 | going back from the entry `forward` returned restores everything likewise |
| NavigationHistory.StepsKeepSize | lib/NavigationHistory.js:15-17 | `back`/`forward` return null exactly when their stack is empty, and then change nothing; otherwise the total number of stacked entries is kept |
| NavigationHistory.ForwardAfterVisit | lib/NavigationHistory.js:8-11 | right after a visit, `forward` returns null and changes nothing |
| NavigationHistory.BackAfterVisit | lib/NavigationHistory.js:8-18 | right after a visit, `back` returns the visited entry |
| RecentFiles.Without | history.js:40 | filtering keeps exactly the entries for other paths and never lengthens the list |
| RecentFiles.Excluded | history.js:35-37 | a path is refused when it ends in eight digits and `.md`, or when the whole string is name characters, two or three digits and `.md`. `AddToHistory` leaves the store unchanged exactly for these paths |
| RecentFiles.Updated | history.js:38-42 | the new entry, then the filtered list, cut to 30 entries. `UpdatedIs` and `AddedEntry` say what it holds |
| RecentFiles.Load | history.js:16-26 | a missing or unparsable file reads as the empty list, and a stored list as itself |
| RecentFiles.AddToHistory | history.js:33-44 | an excluded name leaves the stored file as it was; any other name gives a stored list |
| RecentFiles.WithoutAppend | history.js:40 | filtering distributes over concatenation, so the kept entries stay in order |
| RecentFiles.WithoutAbsent | history.js:40 | filtering a list without entries for the path changes nothing |
| RecentFiles.WithoutIdempotent | history.js:40 | filtering twice is filtering once |
| RecentFiles.UpdatedIs | history.js:40-42 | the new list is the new entry followed by the first 29 kept entries |
| RecentFiles.AddedEntry | history.js:38-43 | the recorded entry comes first and is the only one for its path; the rest are the older entries for other paths, in order, cut to 29; at most 30 entries |
| RecentFiles.ReopenReplaces | history.js:38-43 | recording a path again gives the same list as recording only the second opening |
| RecentFiles.DefaultTitle | history.js:33 | the title defaults to the empty string |
| RecentFiles.NumberedNameHasNoSlash | history.js:37 | the second pattern is anchored at both ends, so it never matches a string holding '/' |
| RecentFiles.BareNumberedExcluded | history.js:37 | `memo12.md` is not recorded |
| RecentFiles.FullPathRecorded | history.js:35-37 | `/notes/memo12.md` is recorded |
| RecentFiles.DatedNameExcluded | history.js:35 | `/notes/20250101.md` is not recorded |
| RecentFiles.NotNumbered | history.js:37 | no string holding '/' matches the second pattern |
| Common.Repeat | lib/keybindings.js:139 | `"#".repeat(level)` is `level` characters, all '#' |
| TextLines.LineStart | lib/keybindings.js:12 | the start of the line holding an offset: at or before it, at a line start, with no newline in between |
| TextLines.LineEnd | lib/keybindings.js:12 | the end of the line holding an offset, likewise |
| TextLines.LineAt | lib/keybindings.js:12 | `lineAt(pos)` spans `pos`, starts and ends a line, holds no newline, and has a number of at least 1 |
| TextLines.Slice | lib/keybindings.js:22 | `sliceString(a, b)` has length `b - a` |
| TextLines.ApplyChange | renderer.js:234-236 | a change keeps the text before `from`, puts `insert` there and keeps the text after `to` |
| TextLines.NormalizeBreaks | renderer.js:234-236 | the text the editor stores for inserted content: `\r\n` and `\r` become `\n`, so it holds no `\r`; it is empty exactly when the content is, and never longer |
| TextLines.NormalizeWithoutReturn | renderer.js:234-236 | content without `\r` is stored as it is, so normalising twice is normalising once |
| TextLines.NormalizeKeepsText | renderer.js:234-236 | every character other than `\r` and `\n` is kept as often as it occurs |
| TextLines.NormalizeExample | renderer.js:234-236 | `"a\r\nb\rc"` is stored as `"a\nb\nc"` |
| TextLines.LineAtUnique | lib/keybindings.js:12 | a span that starts a line, ends a line and holds no newline is the line `lineAt` returns at each of its offsets |
| TextLines.NoLineStartInside | lib/keybindings.js:12 | no line starts strictly inside a line |
| TextLines.SliceIs | lib/keybindings.js:22 | `sliceString(a, b)` is the text between `a` and `b` |
| TextLines.LineTextIs | lib/keybindings.js:22 | a line's text is the document between its bounds |
| TextLines.NewlinesBeforeIs | lib/keybindings.js:19 | counting newlines from the front agrees with counting in the prefix |
| TextLines.CountAppend | lib/keybindings.js:47 | newline counts add up over concatenation |
| TextLines.CountZero | lib/keybindings.js:47 | a text counts no newline exactly when it holds none |
| TextLines.FirstLineIff | lib/keybindings.js:15 | `currentLine.number === 1` exactly when the line starts the document |
| TextLines.LastLineIff | lib/keybindings.js:47 | `currentLine.number === doc.lines` exactly when the line ends the document |
| TextLines.PrevLine | lib/keybindings.js:19 | `doc.line(number - 1)` is the line ending just before the current line's start |
| TextLines.NextLine | lib/keybindings.js:51 | `doc.line(number + 1)` is the line starting just after the current line's end |
| LineMove.MoveLineUp | lib/keybindings.js:10-35 | no change exactly on line 1; otherwise the replaced span ends at the current line's end, starts before it and is as long as the inserted text, and the cursor keeps its column |
| LineMove.IsLastLine | lib/keybindings.js:47 | the line is the last one exactly when it ends the document |
| LineMove.MoveLineDown | lib/keybindings.js:42-73 | no change exactly on the last line; otherwise the replaced span starts at the current line and is as long as the inserted text, and the cursor keeps its column in the moved line |
| LineMove.SwappedShape | lib/keybindings.js:22-29 | swapping two lines keeps the document's length and the text outside them, and puts the second line, a newline and the first line between |
| LineMove.ShapeLines | lib/keybindings.js:22-29 | after a swap the two lines are again whole lines without newlines |
| LineMove.NumberAtStart | lib/keybindings.js:19 | a line's number counts the newlines before its start |
| LineMove.SameNumber | lib/keybindings.js:19 | texts that agree before a line count the same newlines up to its end |
| LineMove.LineThenNewline | lib/keybindings.js:19 | a line and its newline add one to the newline count |
| LineMove.FirstLineOf | lib/keybindings.js:22-31 | after a swap, every offset of the first line finds the old second line, under the old first line's number |
| LineMove.SecondLineOf | lib/keybindings.js:57-69 | after a swap, every offset of the second line finds the old first line, under the old second line's number |
| LineMove.Joined | lib/keybindings.js:22 | two adjacent lines read as the first, a newline and the second |
| LineMove.Reassemble | lib/keybindings.js:22-29 | putting back the text that was cut out restores the document |
| LineMove.MoveLineUpIs | lib/keybindings.js:19-29 | the transaction replaces the previous and the current line by the current line, a newline and the previous line |
| LineMove.MoveLineDownIs | lib/keybindings.js:51-68 | the transaction replaces the current and the next line by the next line, a newline and the current line |
| LineMove.UpIsSwap | lib/keybindings.js:19-29 | `moveLineUp` applied is the swap of the previous and the current line |
| LineMove.DownIsSwap | lib/keybindings.js:51-68 | `moveLineDown` applied is the swap of the current and the next line |
| LineMove.DownAfterSwap | lib/keybindings.js:42-73 | after a swap, `moveLineDown` from the first of the two lines restores the document |
| LineMove.UpAfterSwap | lib/keybindings.js:10-35 | after a swap, `moveLineUp` from the second of the two lines restores the document |
| LineMove.MoveUpThenDown | lib/keybindings.js:10-73 | moving a line up and then down at the new cursor restores the document and the cursor |
| LineMove.MoveDownThenUp | lib/keybindings.js:10-73 | moving a line down and then up at the new cursor restores the document and the cursor |
| LineMove.MoveLineUpSwaps | lib/keybindings.js:19-31 | after `moveLineUp` the cursor is on line `number - 1`, at the previous line's start, on the old current line's text, at the old column |
| LineMove.MoveLineDownSwaps | lib/keybindings.js:51-69 | after `moveLineDown` the cursor is on line `number + 1`, which holds the old current line's text, at the old column |
| HeadingFold.LinesStep | lib/keybindings.js:98-122 | the lines visited from a line start are that line, then the lines after it |
| HeadingFold.FindSectionEnd | lib/keybindings.js:106-116 | the inner loop finds the offset just before the first closing line, or the document's length, and never ends before the heading line's end |
| HeadingFold.FoldAllHeading2 | lib/keybindings.js:93-126 | the loop dispatches exactly the ranges of the specification `HeadingRanges`, in order |
| HeadingFold.UnfoldHeadingLevel | lib/keybindings.js:133-176 | the loop dispatches exactly the ranges of `HeadingRanges` at the level, and scrolls to the original cursor |
| HeadingFold.IsTarget | lib/keybindings.js:139-146 | the line opens a section: it starts with `level` hashes and a space (`## ` at line 102 for the fold). `PrefixRun` and `TargetIsStop` are proved about it |
| HeadingFold.IsStop | lib/keybindings.js:154 | the line closes a section: a `#` heading of at most `level` hashes (`## ` or `# ` at line 111 for the fold). `SectionEndAtStop` and `SectionEndBeforeStop` are proved about it |
| HeadingFold.SectionEnd | lib/keybindings.js:106-116 | what the inner loop computes: the offset just before the first closing line, or the document's length. `FindSectionEnd` is proved equal to it, and `SectionEndAfter`/`SectionEndAtStop`/`SectionEndNoStop` are proved about it |
| HeadingFold.HeadingRanges | lib/keybindings.js:93-176 | the ranges a whole scan dispatches. Both loops are proved equal to it; `EmitMembers`, `RangesWithinDocument` and `SectionsDisjoint` say which ranges they are |
| HeadingFold.SectionEndAfter | lib/keybindings.js:106-116 | a section ends between the offset before its first line and the document's end, so `from <= to` always holds |
| HeadingFold.HashRunFromIs | lib/keybindings.js:154 | the `#` run from an offset is all '#' and is not followed by '#' |
| HeadingFold.HashRunIs | lib/keybindings.js:154 | `text.match(/^#+/)[0].length` is the longest prefix made of '#' |
| HeadingFold.AtxHeadingIff | lib/keybindings.js:154 | `/^#+ /` matches exactly one or more '#' followed by a space |
| HeadingFold.PrefixRun | lib/keybindings.js:139-146 | a line starting with `level` hashes and a space has a `#` run of exactly `level` |
| HeadingFold.TargetIsStop | lib/keybindings.js:146-154 | a heading a scan works on also closes the section before it, for levels of at least 1 |
| HeadingFold.SameTestsAtLevel2 | lib/keybindings.js:102-154 | at level 2 both scans open and close sections on the same lines |
| HeadingFold.SectionEndSameAtLevel2 | lib/keybindings.js:108-159 | at level 2 both scans end every section at the same offset |
| HeadingFold.EmitSameAtLevel2 | lib/keybindings.js:98-167 | at level 2 both scans emit the same ranges |
| HeadingFold.FoldMatchesUnfold2 | lib/keybindings.js:93-176 | unfolding at the default level 2 acts on exactly the ranges that `foldAllHeading2` folds |
| HeadingFold.SectionEndAtStop | lib/keybindings.js:111-113 | a section ends just before its first closing line |
| HeadingFold.SectionEndNoStop | lib/keybindings.js:106 | a section with no closing line after it runs to the document's end |
| HeadingFold.EmitAcc | lib/keybindings.js:119 | ranges are dispatched after the ones dispatched before |
| HeadingFold.RangeOfTail | lib/keybindings.js:103-116 | the range of a line does not depend on the lines before it |
| HeadingFold.EmitMembers | lib/keybindings.js:102-120 | a range is dispatched exactly when a visited line opens a section, and it runs from that line's end to its section's end |
| HeadingFold.LinesFromAreLines | lib/keybindings.js:98-122 | every visited line is what `lineAt` returns at a line start, with its own text |
| HeadingFold.LinesFromOrdered | lib/keybindings.js:122 | visited lines come in document order without overlap |
| HeadingFold.LinesFromCovers | lib/keybindings.js:98-122 | no line is skipped: every line start before the document's end is visited |
| HeadingFold.VisitedAt | lib/keybindings.js:99 | a visited line, taken by index, is a line of the document with its own text |
| HeadingFold.VisitedBefore | lib/keybindings.js:122 | of two visited lines, the earlier one ends before the later one starts |
| HeadingFold.SectionEndBeforeStop | lib/keybindings.js:108-116 | a section ends no later than just before any closing line after it |
| HeadingFold.SectionEndWithin | lib/keybindings.js:108-116 | a section over lines after an offset ends between that offset and the document's end |
| HeadingFold.RangesWithinDocument | lib/keybindings.js:102-163 | every range starts at the end of a heading line the scan works on and ends between there and the document's end |
| HeadingFold.SectionWithin | lib/keybindings.js:103-116 | the range of a visited line runs from its end to no further than the document's end |
| HeadingFold.SectionsDisjoint | lib/keybindings.js:102-163 | the section a heading opens ends before any later heading's range starts, so heading ranges never overlap |
| ImageScan.FindChar | renderer.js:425 | the first occurrence of a character at or after an offset, or the text's length |
| ImageScan.FindCharAt | renderer.js:425 | the first occurrence is the one `FindChar` finds |
| ImageScan.FindCharFirst | renderer.js:425 | no occurrence comes before the one found |
| ImageScan.MatchEnds | renderer.js:425 | a match at an offset closes its alt text before its url, and its url is non-empty |
| ImageScan.MatchAt | renderer.js:425-437 | a match exists exactly when its ends are found; it lies at its offset, is longer than 5 and lies within the text |
| ImageScan.SliceAt | renderer.js:432 | the characters of a visible range's text are those of the document |
| ImageScan.MatchIsImage | renderer.js:425-442 | a match is `![alt](url)` written out, with no `]` in alt and a non-empty url without `)` |
| ImageScan.ImageIsMatch | renderer.js:425 | every `![alt](url)` of that form is the match at its offset |
| ImageScan.MatchAtIff | renderer.js:425 | both directions together |
| ImageScan.Exec | renderer.js:435 | `exec` returns null or a match at or after `lastIndex` that lies within the text |
| ImageScan.ExecLeftmost | renderer.js:435 | `exec` returns the leftmost match, and returns null only when there is none |
| ImageScan.MatchesStep | renderer.js:435-437 | after a match, the scan continues at the end of that match |
| ImageScan.ScanRange | renderer.js:434-447 | the `while (exec)` loop pushes exactly the widgets of the specification `EmitImages` over the range's matches |
| ImageScan.EmitImages | renderer.js:436-446 | the widgets pushed for one range's matches, skipping those the cursor touches. `ScanRange` is proved equal to it; `EmitImagesMembers` says what it holds |
| ImageScan.ImageWidgets | renderer.js:423-451 | all the widgets pushed over the visible ranges. `BuildDecorations` is proved equal to it; `EmitRangesMembers` and `WidgetsAreImages` say what it holds |
| ImageScan.BuildDecorations | renderer.js:423-451 | the loop over the visible ranges pushes exactly the widgets of `ImageWidgets` |
| ImageScan.MatchesOrdered | renderer.js:435-437 | every reported match is a match at its index, and the matches are in increasing order without overlap |
| ImageScan.ListedIsMatch | renderer.js:435-437 | the `j`-th reported match is a match at its index |
| ImageScan.ListedInOrder | renderer.js:435-437 | the `j`-th reported match ends before the next one starts |
| ImageScan.MatchesComplete | renderer.js:435 | no match is skipped: every offset where the pattern matches starts or lies inside a reported match |
| ImageScan.CoveringMatch | renderer.js:435 | the same, with the index of the covering match |
| ImageScan.EmitImagesMembers | renderer.js:436-446 | a widget is pushed exactly for each match the cursor does not touch, `[matchStart, matchEnd]` both included |
| ImageScan.EmitRangesMembers | renderer.js:429-448 | likewise over all visible ranges, with `matchStart = range.from + index` |
| ImageScan.ImageInSlice | renderer.js:429-436 | an image in a range's text is an image in the document at the shifted offset |
| ImageScan.RangeWidgetIsImage | renderer.js:436-446 | the widget of a range's match covers exactly that image in the document |
| ImageScan.WidgetsAreImages | renderer.js:423-451 | every widget covers exactly an `![alt](src)` written out in the document, and the cursor is outside it |
| Checklist.ToggleText | renderer.js:315 | the inserted marker has three characters and is checked exactly when the widget was not |
| Checklist.BuildDecorations | renderer.js:344-382 | the walk pushes exactly the widgets of the specification `Widgets`, in order |
| Checklist.Skipped | renderer.js:359-362 | a marker is skipped while `selection.from` lies in `[node.from, node.to]`; `WidgetsMembers` shows that skipped markers get no widget |
| Checklist.Widgets | renderer.js:344-382 | the widgets the walk pushes, in order. `BuildDecorations` is proved equal to it; `WidgetsMembers` says exactly which widgets it holds |
| Checklist.Click | renderer.js:311-322 | the document after a click: the marker replaced by the toggled marker. `ClickFlips` proves that the checked state flips |
| Checklist.WidgetsMembers | renderer.js:358-376 | a widget is made exactly for each marker the selection does not start in, with `checked` telling whether its text contains `[x]` or `[X]` |
| Checklist.WidgetSource | renderer.js:358-376 | every widget comes from a marker, skipped by no selection rule |
| Checklist.WidgetPresent | renderer.js:358-376 | every marker the selection does not start in has its widget |
| Checklist.ClickFlips | renderer.js:311-322 | after a click, the marker's checked state is the opposite of the old one |
| EditorSession.Editor.constructor | renderer.js:22-23 | no path, clean, empty document, and one title message for that state |
| EditorSession.Editor.UpdateTitle | renderer.js:27-32 | sends the current path and dirty flag |
| EditorSession.Editor.SetDirtyState | renderer.js:35-39 | sets the flag; sends a title message only when the flag changes |
| EditorSession.Editor.Dispatch | renderer.js:42-46 | applies the change with its inserted text normalised, so a document without `\r` keeps none; a change that alters the document marks the file dirty |
| EditorSession.Editor.OnLoadFile | renderer.js:230-240 | takes over the path, replaces the whole document by the content with its line breaks normalised, leaves the file clean, and sends the exact sequence of title messages |
| EditorSession.Editor.OnTriggerSaveFile | renderer.js:243-258 | sends the current path and document; a truthy answer becomes the path, cleans the file, sends one title message more when the file was dirty and then one more, and `fileSaved` is reported; a falsy one changes nothing |
| EditorSession.Editor.OnBeforeClose | renderer.js:260-262 | answers the dirty flag |
| EditorSession.EditThenSave | renderer.js:243-258 | after an edit and a save, the file is dirty exactly when the save returned nothing |
| MainProcess.DropTrailingSlashes | main.js:126 | the path without its trailing '/' characters |
| MainProcess.LastSegment | main.js:126 | the text after the last '/' |
| MainProcess.BasenameOfJoin | main.js:126 | the basename of `dir/name` is `name` |
| MainProcess.LastSegmentOfJoin | main.js:126 | the last segment of `dir/name` is `name` |
| MainProcess.Basename | main.js:126 | `path.basename`: `BasenameOfJoin` and `BasenameTrailingSlash` show it is the name after the last directory |
| MainProcess.WindowTitle | main.js:124-130 | the title for `{filePath, isDirty}`. `TitleShape` and `TitleOfFile` say what it is |
| MainProcess.BasenameTrailingSlash | main.js:126 | a trailing '/' does not change the basename |
| MainProcess.TitleShape | main.js:124-131 | the dirty title is '*' and the clean title; a title never holds '/'; without a path it is "Bext Editor" |
| MainProcess.TitleOfFile | main.js:124-131 | a clean file saved as `dir/name` is shown as `name`, a dirty one as `*name` |
| MainProcess.StripZeroWidth | main.js:89 | the saved content holds no U+200B, and the same number of every other character |
| MainProcess.StripAppend | main.js:89 | stripping works piece by piece, so kept characters stay in order |
| MainProcess.StripNothing | main.js:89 | content without U+200B is saved as it is |
| MainProcess.StripIdempotent | main.js:89 | stripping twice is stripping once |
| MainProcess.FirstLine | main.js:94 | `split('\n')[0]` is the prefix before the first newline |
| MainProcess.TrimStart | main.js:94 | leading whitespace removed: a suffix with only whitespace before it, starting with a non-space |
| MainProcess.TrimEnd | main.js:94 | trailing whitespace removed, likewise |
| MainProcess.Trim | main.js:94 | `trim()`: `TrimIs` characterises it |
| MainProcess.TrimIs | main.js:94 | `trim()` is a piece of the text with only whitespace around it, has no whitespace at either end, and is empty exactly for a blank text |
| MainProcess.RemoveForbidden | main.js:98 | no `/ \ ? % * : \| " < >` is left, and every other character is kept as often as it occurred |
| MainProcess.DefaultSaveName | main.js:94-99 | the name the save dialog suggests. `DefaultSaveNameIs` says what it is |
| MainProcess.DefaultSaveNameIs | main.js:94-99 | no name exactly when the first line is blank; otherwise the trimmed line without forbidden characters, then ".md" |
| MainProcess.HandleFileSave | main.js:85-117 | a path is returned exactly when something was written; it is the path written to, and the content written is the input with U+200B removed |
| MainProcess.SaveCases | main.js:88-115 | with a path: written there, returned and recorded as recent, without a dialog; without one: the dialog suggests the default name, and a cancelled dialog returns undefined; no U+200B is ever written |
| MainProcess.CloseDecision | main.js:26-46 | destroy exactly when clean or "Don't Save"; save first exactly when dirty and "Save"; keep open exactly when dirty and anything else |
| MainProcess.WindowRegistry.constructor | main.js:5 | no window is open |
| MainProcess.WindowRegistry.CreateWindow | main.js:7-56 | adds a window that was not in the set |
| MainProcess.WindowRegistry.Closed | main.js:50-52 | removes the window |
| MainProcess.WindowRegistry.Activate | main.js:260-264 | creates a window exactly when none is open; afterwards at least one is open |
| SaveAndClose.SaveRoundTrip | main.js:85-117 | a save succeeds exactly when the file has a path or the dialog chose a non-empty one; then the renderer takes the written path and is clean, and the stripped document was written |
| SaveAndClose.CloseWindow | main.js:20-52 | the window is destroyed exactly when clean, or "Don't Save", or "Save" followed by a save that succeeds; dirty changes are never dropped unless the user chose "Don't Save" or they were written |
| SaveAndClose.LoadThenSave | renderer.js:230-258 | a file opened and saved at once is written with its line breaks turned into `\n` and U+200B removed, so no `\r` is written and the file is clean afterwards |

## Left out

- preload.js: it only forwards IPC calls and has no logic of its own.
- Electron and Node facilities are outside the model:
  - `BrowserWindow`, `dialog`, `Menu`, `nativeImage`, the menu template (main.js:137-234);
  - `app.addRecentDocument`, which is recorded as a value only;
  - asynchronous IPC: each exchange is modelled as its messages in order, so a document edited while a save is in flight is not modelled.
- File I/O:
  - `fs.readFileSync`/`writeFileSync`/`existsSync` in main.js and history.js;
  - `openFileInNewWindow` and the `open-file` handler (main.js:59-82, 266-287).
- The history file:
  - JSON parsing and printing in history.js are left out;
  - `loadHistory` reads a stored value; a missing or unparsable file reads as the empty list (history.js:16-26);
  - `saveHistory` is left out.
- `new Date().toISOString()` (history.js:39) is the parameter `openedAt`.
- CodeMirror and lezer internals:
  - editor setup and keymaps;
  - `syntaxTree` and its `TaskMarker` nodes, given as ranges in walk order;
  - `view.visibleRanges`, given as a list of ranges;
  - fold state, `foldCode`/`unfoldCode` and `smartToggleFold`;
  - DOM building in `toDOM`;
  - the effect `scrollIntoView`, modelled as the offset scrolled to.
- EditorSession.Editor.Dispatch: `update.docChanged` is modelled as "the change removes or inserts something". CodeMirror's change-set internals are not part of this model. Line breaks in inserted text are normalised as CodeMirror does by default (`NormalizeBreaks`); the editor sets no other line separator.
- The link click handler (renderer.js:265-283) and the file-navigation channels of preload.js: their code is not part of this model.
- `onTriggerSaveFile`'s `if (!editorView) return` (renderer.js:244): the editor always exists once the renderer has started.
- The `file-saved-<id>` listener that a close registers before asking for a save (main.js:37-39) is not modelled beyond that one close. If the save is cancelled, the listener stays registered.
- MainProcess.WindowRegistry: windows are identified by increasing ids. Electron's window objects and their other events are not modelled.
- MainProcess.HandleFileSave: a write that throws is not modelled.
- MainProcess.Basename: models Node's POSIX `path.basename`. The Windows variant is not modelled.
- Strings are sequences of Unicode scalar values. CodeMirror and JavaScript count UTF-16 code units instead. Once a character outside the Basic Multilingual Plane appears, the offsets after it differ in number from the source's, though they still correspond one to one. This covers cursor positions, line bounds, syntax-tree node bounds, `nextLineText.length`, and a regex match's `index` and `length`. Lone surrogates are not modelled.
- The `alt` and `url` parts of an image pattern can span a line break, as they do in JavaScript. The model then gives a widget for a text such as `"![a\nb](c)"`. CodeMirror does not allow a plugin's replacing decoration to cover a line break. What the editor does in that case is not modelled.
