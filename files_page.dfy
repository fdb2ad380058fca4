/** The file list page (frontend/src/pages/Files.jsx): the list fetched
    from the registry, opening one file, deleting one, and opening all of
    them in the viewer. */
module FilesPage {
  import opened FileModel
  import opened RecordLists
  import opened Browser
  import MultiFileViewer

  const NotSupported := "File type not supported for preview"

  /** `openFile`: an image opens its page `/files/{id}` (`window.open`
      with no target, recorded as written as `None`; a missing target
      opens a new window just like "_blank"), a PDF or document opens its
      url in a new tab, and any other type raises an alert. */
  function OpenFile(file: FileRecord): (a: Action)
    ensures !a.Navigate?
    ensures a == WindowOpen(FilePage(file.id), None) <==> file.fileType == "image"
    ensures a == WindowOpen(External(file.url), Some("_blank")) <==> file.fileType == "pdf" || file.fileType == "doc"
    ensures a.Alert? <==> file.fileType != "image" && file.fileType != "pdf" && file.fileType != "doc"
    ensures a.Alert? ==> a.text == NotSupported
  {
    if file.fileType == "image" then WindowOpen(FilePage(file.id), None)
    else if file.fileType == "pdf" || file.fileType == "doc" then WindowOpen(External(file.url), Some("_blank"))
    else Alert(NotSupported)
  }

  /** The page's state: the listed files, and the local storage it shares
      with the viewer. */
  class Files {
    var files: seq<FileRecord>
    const storage: LocalStorage

    constructor (storage: LocalStorage)
      ensures files == [] && this.storage == storage
    {
      files := [];
      this.storage := storage;
    }

    /** The mount effect: the stored list is removed. The fetch that
        follows arrives through `ReceiveFiles`. */
    method Mount()
      modifies storage
      ensures storage.files == None
    {
      storage.files := None;
    }

    /** `fetchFiles` completing: the registry's list replaces the page's
        list; a failed fetch leaves it as it was. */
    method ReceiveFiles(response: Option<seq<FileRecord>>)
      modifies this
      ensures files == if response.Some? then response.value else old(files)
    {
      if response.Some? {
        files := response.value;
      }
    }

    /** `removeFile`: once the registry confirms the delete, the list keeps
        exactly the entries with another id, in order; a failed delete
        leaves it as it was. */
    method RemoveFile(fileId: Id, deleted: bool)
      modifies this
      ensures deleted ==> files == Without(old(files), fileId)
      ensures deleted ==> !HasId(files, fileId) && forall f :: f in old(files) && f.id != fileId ==> f in files
      ensures !deleted ==> files == old(files)
    {
      if deleted {
        files := Without(files, fileId);
      }
    }

    /** `openAllFiles`: the whole list is stored for the viewer, which is
        opened in a new tab. */
    method OpenAllFiles() returns (a: Action)
      modifies storage
      ensures storage.files == Some(files)
      ensures a == WindowOpen(ViewerPage, Some("_blank"))
    {
      storage.files := Some(files);
      a := WindowOpen(ViewerPage, Some("_blank"));
    }
  }

  /** Opening all files of a non-empty list starts the viewer with that list
      as its tabs and the first file open. This assumes that `/viewer` shows
      the multi-file viewer; the route wiring is not part of this model. */
  method OpenAllThenView(page: Files) returns (viewer: MultiFileViewer.Viewer)
    requires page.files != []
    modifies page.storage
    ensures viewer.files == page.files && viewer.activeFiles == [page.files[0]]
  {
    var a := page.OpenAllFiles();
    viewer := new MultiFileViewer.Viewer(page.storage);
  }
}
