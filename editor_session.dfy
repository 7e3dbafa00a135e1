/** The renderer's file state: the path of the open file, the dirty flag,
    the editor's document, and the `updateTitle` messages sent to the main
    process so that it can show the window title. Each handler of the
    renderer is a method; what the other process answers is a parameter. */
module EditorSession {
  import opened Common
  import opened TextLines

  /** The argument of `window.electronAPI.updateTitle({filePath, isDirty})`. */
  datatype TitleRequest = TitleRequest(filePath: Option<string>, isDirty: bool)

  /** The argument of `window.electronAPI.saveFile({filePath, content})`. */
  datatype SaveRequest = SaveRequest(filePath: Option<string>, content: string)

  /** `update.docChanged` for a transaction with the single change
      `{from, to, insert}`: a change that removes nothing and inserts nothing
      leaves the change set empty. */
  predicate ChangesDocument(from: nat, to: nat, insert: string)
  {
    from < to || insert != ""
  }

  class Editor {
    var currentFilePath: Option<string>
    var isDirty: bool
    var doc: string
    /** The `updateTitle` messages sent so far, oldest first. */
    var titleRequests: seq<TitleRequest>

    /** The last title message sent describes the current path and dirty flag,
        so the title the main process shows is up to date. */
    predicate TitleInSync()
      reads this
    {
      titleRequests != [] && titleRequests[|titleRequests| - 1] == TitleRequest(currentFilePath, isDirty)
    }

    /** The module's initial values, `initializeEditor()` on an empty
        document, then the first `updateTitle()`. */
    constructor ()
      ensures currentFilePath == None && !isDirty && doc == ""
      ensures titleRequests == [TitleRequest(None, false)]
      ensures TitleInSync()
    {
      currentFilePath := None;
      isDirty := false;
      doc := "";
      titleRequests := [TitleRequest(None, false)];
    }

    /** `updateTitle()` */
    method UpdateTitle()
      modifies this
      ensures titleRequests == old(titleRequests) + [TitleRequest(currentFilePath, isDirty)]
      ensures currentFilePath == old(currentFilePath) && isDirty == old(isDirty) && doc == old(doc)
      ensures TitleInSync()
    {
      titleRequests := titleRequests + [TitleRequest(currentFilePath, isDirty)];
    }

    /** `setDirtyState(dirty)`: nothing happens, and no title message is
        sent, when the flag already has that value. */
    method SetDirtyState(dirty: bool)
      modifies this
      ensures isDirty == dirty
      ensures titleRequests == if old(isDirty) == dirty then old(titleRequests)
                               else old(titleRequests) + [TitleRequest(currentFilePath, dirty)]
      ensures currentFilePath == old(currentFilePath) && doc == old(doc)
      ensures old(TitleInSync()) ==> TitleInSync()
    {
      if isDirty == dirty {
        return;
      }
      isDirty := dirty;
      UpdateTitle();
    }

    /** `editorView.dispatch({changes: {from, to, insert}})`, followed by the
        update listener, which marks the file dirty when the document changed.
        CodeMirror stores `insert` with its line breaks normalised, so a
        document that holds no '\r' never comes to hold one. */
    method Dispatch(from: nat, to: nat, insert: string)
      requires from <= to <= |doc|
      modifies this
      ensures doc == ApplyChange(old(doc), from, to, NormalizeBreaks(insert))
      ensures '\r' !in old(doc) ==> '\r' !in doc
      ensures isDirty == (old(isDirty) || ChangesDocument(from, to, insert))
      ensures titleRequests == if old(isDirty) || !ChangesDocument(from, to, insert) then old(titleRequests)
                               else old(titleRequests) + [TitleRequest(currentFilePath, true)]
      ensures currentFilePath == old(currentFilePath)
      ensures old(TitleInSync()) ==> TitleInSync()
    {
      doc := ApplyChange(doc, from, to, NormalizeBreaks(insert));
      if ChangesDocument(from, to, insert) {
        SetDirtyState(true);
      }
    }

    /** `onLoadFile({filePath, content})`: the path is taken over, the whole
        document is replaced (which, through the update listener, may first
        mark the file dirty), the file is marked clean and the title is sent.
        The document holds `content` with every line break turned into '\n'. */
    method OnLoadFile(filePath: string, content: string)
      modifies this
      ensures currentFilePath == Some(filePath) && doc == NormalizeBreaks(content) && !isDirty
      ensures var changes := ChangesDocument(0, |old(doc)|, content);
              var p := Some(filePath);
              titleRequests == old(titleRequests)
                               + (if changes && !old(isDirty) then [TitleRequest(p, true)] else [])
                               + (if changes || old(isDirty) then [TitleRequest(p, false)] else [])
                               + [TitleRequest(p, false)]
      ensures TitleInSync()
    {
      currentFilePath := Some(filePath);
      Dispatch(0, |doc|, content);
      SetDirtyState(false);
      UpdateTitle();
    }

    /** `onTriggerSaveFile`: the current path and document are sent to the main
        process, which answers `returned`; a truthy answer becomes the path,
        marks the file clean, sends the title and reports `fileSaved`. */
    method OnTriggerSaveFile(returned: Option<string>) returns (request: SaveRequest, fileSaved: bool)
      modifies this
      ensures request == SaveRequest(old(currentFilePath), old(doc))
      ensures fileSaved == Truthy(returned)
      ensures Truthy(returned) ==> currentFilePath == returned && !isDirty && TitleInSync()
      ensures Truthy(returned) ==> titleRequests == old(titleRequests)
                                   + (if old(isDirty) then [TitleRequest(returned, false)] else [])
                                   + [TitleRequest(returned, false)]
      ensures !Truthy(returned) ==> currentFilePath == old(currentFilePath) && isDirty == old(isDirty)
                                    && titleRequests == old(titleRequests)
      ensures doc == old(doc)
      ensures old(TitleInSync()) ==> TitleInSync()
    {
      request := SaveRequest(currentFilePath, doc);
      if Truthy(returned) {
        currentFilePath := returned;
        SetDirtyState(false);
        UpdateTitle();
        fileSaved := true;
      } else {
        fileSaved := false;
      }
    }

    /** `onBeforeClose`: the answer `sendIsDirty(id, isDirty)`. */
    method OnBeforeClose() returns (dirty: bool)
      ensures dirty == isDirty
    {
      dirty := isDirty;
    }
  }

  /** Any change that alters the document marks the file dirty, and nothing
      but a load or a successful save marks it clean again. */
  method EditThenSave(e: Editor, from: nat, to: nat, insert: string, returned: Option<string>)
    returns (request: SaveRequest)
    requires from <= to <= |e.doc| && ChangesDocument(from, to, insert) && e.TitleInSync()
    modifies e
    ensures request.content == ApplyChange(old(e.doc), from, to, NormalizeBreaks(insert))
    ensures e.isDirty <==> !Truthy(returned)
    ensures e.TitleInSync()
  {
    e.Dispatch(from, to, insert);
    assert e.isDirty;
    var saved;
    request, saved := e.OnTriggerSaveFile(returned);
  }
}
