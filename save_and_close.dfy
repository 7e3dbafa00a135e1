/** The two processes together: a save asked for by the renderer and
    answered by `handleFileSave`, and the closing of a window, where the main
    process asks the renderer whether its file is dirty and then destroys the
    window, asks for a save first, or keeps it open. */
module SaveAndClose {
  import opened Common
  import opened EditorSession
  import opened TextLines
  import opened MainProcess

  /** `trigger-save-file` handled by the renderer, whose `saveFile` call is
      answered by `handleFileSave` with the dialog's answer `dialog`. */
  method SaveRoundTrip(e: Editor, dialog: SaveDialog) returns (o: SaveOutcome, fileSaved: bool)
    modifies e
    ensures o == HandleFileSave(old(e.currentFilePath), old(e.doc), dialog)
    ensures fileSaved <==> Truthy(old(e.currentFilePath)) || (dialog.Chosen? && dialog.path != "")
    ensures fileSaved ==> o.written.Some? && e.currentFilePath == Some(o.written.value.path) && !e.isDirty
                          && o.written.value.content == StripZeroWidth(old(e.doc))
    ensures !fileSaved ==> e.currentFilePath == old(e.currentFilePath) && e.isDirty == old(e.isDirty)
    ensures e.doc == old(e.doc)
    ensures old(e.TitleInSync()) ==> e.TitleInSync()
  {
    o := HandleFileSave(e.currentFilePath, e.doc, dialog);
    SaveCases(e.currentFilePath, e.doc, dialog);
    var request;
    request, fileSaved := e.OnTriggerSaveFile(o.returned);
  }

  /** A file opened and saved straight away: what is written is the file's
      content with its line breaks turned into '\n' and U+200B removed, so a
      file with `\r\n` line ends is written back with `\n` ones. */
  method LoadThenSave(e: Editor, filePath: string, content: string, dialog: SaveDialog)
    returns (o: SaveOutcome, fileSaved: bool)
    modifies e
    ensures o.written.Some? ==> o.written.value.content == StripZeroWidth(NormalizeBreaks(content))
                                && '\r' !in o.written.value.content
    ensures fileSaved <==> filePath != "" || (dialog.Chosen? && dialog.path != "")
    ensures !e.isDirty
  {
    e.OnLoadFile(filePath, content);
    o, fileSaved := SaveRoundTrip(e, dialog);
    if o.written.Some? {
      var w := o.written.value.content;
      assert multiset(w)['\r'] == multiset(e.doc)['\r'];
    }
  }

  /** A click on the window's close button: `before-close`, the renderer's
      `is-dirty` answer, the close decision for the message box's `choice`, the
      save it may ask for, and the `closed` event once the window is destroyed. */
  method CloseWindow(e: Editor, reg: WindowRegistry, win: nat, choice: int, dialog: SaveDialog)
    returns (destroyed: bool, written: Option<FileWrite>)
    requires reg.Valid()
    modifies e, reg
    ensures reg.Valid()
    ensures destroyed <==> !old(e.isDirty) || choice == 1
                           || (choice == 0 && (Truthy(old(e.currentFilePath)) || (dialog.Chosen? && dialog.path != "")))
    ensures reg.windows == if destroyed then old(reg.windows) - {win} else old(reg.windows)
    ensures written.Some? ==> written.value.content == StripZeroWidth(old(e.doc))
    ensures destroyed && old(e.isDirty) ==> choice == 1 || written.Some?
    ensures !old(e.isDirty) || choice != 0 ==> written.None?
  {
    var dirty := e.OnBeforeClose();
    var action := CloseDecision(dirty, choice);
    written := None;
    if action == SaveThenDestroy {
      var o, saved := SaveRoundTrip(e, dialog);
      written := o.written;
      destroyed := saved;
    } else {
      destroyed := action == Destroy;
    }
    if destroyed {
      reg.Closed(win);
    }
  }
}
