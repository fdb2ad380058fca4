/** The file list component (frontend/src/components/Files.jsx): like the
    page, but it opens images by in-app navigation and "open all" opens
    every file on its own. */
module FilesComponent {
  import opened FileModel
  import opened RecordLists
  import opened Browser
  import FilesPage

  const NotSupported := "File type not supported for preview"

  /** `openFile`: an image navigates to its page `/files/{id}`, a PDF or
      document opens its url in a new tab, and any other type raises an
      alert. */
  function OpenFile(file: FileRecord): (a: Action)
    ensures !(a.WindowOpen? && a.location.FilePage?)
    ensures a == Navigate(FilePage(file.id)) <==> file.fileType == "image"
    ensures a == WindowOpen(External(file.url), Some("_blank")) <==> file.fileType == "pdf" || file.fileType == "doc"
    ensures a.Alert? <==> file.fileType != "image" && file.fileType != "pdf" && file.fileType != "doc"
    ensures a.Alert? ==> a.text == NotSupported
  {
    if file.fileType == "image" then Navigate(FilePage(file.id))
    else if file.fileType == "pdf" || file.fileType == "doc" then WindowOpen(External(file.url), Some("_blank"))
    else Alert(NotSupported)
  }

  /** The action "open all" takes for one file: an image opens its page
      in a new tab, a PDF or document its url in a new tab, any other type
      an alert. */
  function OpenAllAction(file: FileRecord): (a: Action)
    ensures !a.Navigate?
    ensures a.WindowOpen? ==> a.target == Some("_blank")
    ensures a == WindowOpen(FilePage(file.id), Some("_blank")) <==> file.fileType == "image"
    ensures a == WindowOpen(External(file.url), Some("_blank")) <==> file.fileType == "pdf" || file.fileType == "doc"
    ensures a.Alert? <==> file.fileType != "image" && file.fileType != "pdf" && file.fileType != "doc"
  {
    if file.fileType == "image" then WindowOpen(FilePage(file.id), Some("_blank"))
    else if file.fileType == "pdf" || file.fileType == "doc" then WindowOpen(External(file.url), Some("_blank"))
    else Alert(NotSupported)
  }

  /** "Open all" treats a file as `openFile` does, except that an image
      is opened in a new tab instead of by navigation. It agrees with the
      page's `openFile` except in the recorded target of an image: the page
      leaves it out and "open all" writes "_blank". The targets are recorded
      as written; `window.open` without one also opens a new window, so the
      two do the same thing. */
  lemma OpenAllAgreesWithOpenFile(file: FileRecord)
    ensures file.fileType != "image" ==> OpenAllAction(file) == OpenFile(file) == FilesPage.OpenFile(file)
    ensures file.fileType == "image" ==>
      OpenFile(file) == Navigate(OpenAllAction(file).location) &&
      FilesPage.OpenFile(file) == WindowOpen(OpenAllAction(file).location, None)
  {
  }

  /** The component's state: the listed files. */
  class Files {
    var files: seq<FileRecord>

    constructor ()
      ensures files == []
    {
      files := [];
    }

    /** `fetchFiles` completing: the registry's list replaces the
        component's list; a failed fetch leaves it as it was. */
    method ReceiveFiles(response: Option<seq<FileRecord>>)
      modifies this
      ensures files == if response.Some? then response.value else old(files)
    {
      if response.Some? {
        files := response.value;
      }
    }

    /** `removeFile`: once the registry confirms the delete, the list keeps
        exactly the entries with another id, in order; a failed delete
        leaves it as it was. */
    method RemoveFile(fileId: Id, deleted: bool)
      modifies this
      ensures deleted ==> files == Without(old(files), fileId)
      ensures deleted ==> !HasId(files, fileId) && forall f :: f in old(files) && f.id != fileId ==> f in files
      ensures !deleted ==> files == old(files)
    {
      if deleted {
        files := Without(files, fileId);
      }
    }

    /** `openAllFiles`: one action per listed file, in list order. */
    method OpenAllFiles() returns (actions: seq<Action>)
      ensures |actions| == |files|
      ensures forall i :: 0 <= i < |files| ==> actions[i] == OpenAllAction(files[i])
      ensures forall i :: 0 <= i < |files| ==> (actions[i].Alert? <==> FilesPage.OpenFile(files[i]).Alert?)
    {
      actions := [];
      var i := 0;
      while i < |files|
        invariant 0 <= i <= |files|
        invariant |actions| == i
        invariant forall k :: 0 <= k < i ==> actions[k] == OpenAllAction(files[k])
      {
        var file := files[i];
        var action;
        if file.fileType == "image" {
          action := WindowOpen(FilePage(file.id), Some("_blank"));
        } else if file.fileType == "pdf" || file.fileType == "doc" {
          action := WindowOpen(External(file.url), Some("_blank"));
        } else {
          action := Alert(NotSupported);
        }
        actions := actions + [action];
        i := i + 1;
      }
    }
  }
}
