/** The multi-file viewer (frontend/src/pages/MultiFileViewer.jsx): a row
    of tabs, one per file, and at most three of them open side by side. */
module MultiFileViewer {
  import opened FileModel
  import opened RecordLists
  import Browser

  /** How many files are shown at once. */
  const MaxActive := 3

  /** What one open pane shows. */
  datatype View =
    | Image(src: string, alt: string)
    | Frame(src: string, title: string)
    | Unsupported(text: string)

  /** `renderFileViewer`: images as images, PDFs embedded without their
      toolbar, every other type as a notice. */
  function RenderFileViewer(f: FileRecord): (v: View)
    ensures v.Image? <==> f.fileType == "image"
    ensures v.Frame? <==> f.fileType == "pdf"
    ensures v.Unsupported? <==> f.fileType != "image" && f.fileType != "pdf"
    ensures v.Image? ==> v.src == f.url && v.alt == f.name
    ensures v.Frame? ==> v.src == f.url + "#toolbar=0" && v.title == f.name
    ensures v.Unsupported? ==> v.text == "Unsupported file type"
  {
    if f.fileType == "image" then Image(f.url, f.name)
    else if f.fileType == "pdf" then Frame(f.url + "#toolbar=0", f.name)
    else Unsupported("Unsupported file type")
  }

  /** The viewer's state: the tabs (`files`), the open panes
      (`activeFiles`), whether the window has been closed, and the local
      storage it reads from and writes to. */
  class Viewer {
    var files: seq<FileRecord>
    var activeFiles: seq<FileRecord>
    var closed: bool
    const storage: Browser.LocalStorage

    /** At most three panes, no id open twice, and every pane is one of
        the tabs. */
    ghost predicate Valid()
      reads this
    {
      |activeFiles| <= MaxActive &&
      DistinctIds(activeFiles) &&
      forall f :: f in activeFiles ==> f in files
    }

    /** The first render followed by the mount effect: a stored non-empty
        list becomes the tabs, with its first file open; a missing or empty
        list leaves the viewer empty. */
    constructor (storage: Browser.LocalStorage)
      ensures this.storage == storage && !closed && Valid()
      ensures storage.files.Some? && storage.files.value != [] ==>
        files == storage.files.value && activeFiles == [storage.files.value[0]]
      ensures !(storage.files.Some? && storage.files.value != []) ==>
        files == [] && activeFiles == []
    {
      this.storage := storage;
      closed := false;
      var urlFiles := storage.files;
      if urlFiles.Some? && |urlFiles.value| > 0 {
        files := urlFiles.value;
        activeFiles := [urlFiles.value[0]];
      } else {
        files := [];
        activeFiles := [];
      }
    }

    /** `openFile`, called for one of the tabs. A file whose id is already
        open changes nothing; otherwise it is appended while fewer than
        three are open, and replaces the third pane when three are. */
    method OpenFile(file: FileRecord)
      requires Valid() && file in files
      modifies this
      ensures Valid()
      ensures files == old(files) && closed == old(closed)
      ensures HasId(old(activeFiles), file.id) ==> activeFiles == old(activeFiles)
      ensures !HasId(old(activeFiles), file.id) && |old(activeFiles)| < MaxActive ==>
        activeFiles == old(activeFiles) + [file]
      ensures !HasId(old(activeFiles), file.id) && |old(activeFiles)| == MaxActive ==>
        activeFiles == old(activeFiles)[..2] + [file]
      ensures HasId(activeFiles, file.id)
    {
      var open := exists i :: 0 <= i < |activeFiles| && activeFiles[i].id == file.id;
      if !open {
        if |activeFiles| < MaxActive {
          activeFiles := activeFiles + [file];
        } else {
          activeFiles := [activeFiles[0], activeFiles[1], file];
        }
      }
      assert activeFiles[|activeFiles| - 1] == file || open;
    }

    /** `closeFile`: the file leaves the panes and the tabs, the remaining
        tabs are stored, and when no pane is left the last tab is opened,
        or the window closes if there is none. */
    method CloseFile(fileToClose: FileRecord)
      requires Valid()
      modifies this, storage
      ensures Valid()
      ensures files == Without(old(files), fileToClose.id)
      ensures storage.files == Some(files)
      ensures Without(old(activeFiles), fileToClose.id) != [] ==>
        activeFiles == Without(old(activeFiles), fileToClose.id)
      ensures Without(old(activeFiles), fileToClose.id) == [] && files != [] ==>
        activeFiles == [files[|files| - 1]]
      ensures Without(old(activeFiles), fileToClose.id) == [] && files == [] ==>
        activeFiles == []
      ensures closed <==> old(closed) || (Without(old(activeFiles), fileToClose.id) == [] && files == [])
      ensures !HasId(files, fileToClose.id) && !HasId(activeFiles, fileToClose.id)
      ensures activeFiles == [] <==> files == []
    {
      var newActiveFiles := Without(activeFiles, fileToClose.id);
      WithoutKeepsDistinct(activeFiles, fileToClose.id);
      activeFiles := newActiveFiles;
      var newFiles := Without(files, fileToClose.id);
      files := newFiles;
      storage.files := Some(newFiles);
      if |newActiveFiles| == 0 && |newFiles| > 0 {
        activeFiles := [newFiles[|newFiles| - 1]];
      }
      if |newActiveFiles| == 0 && |newFiles| == 0 {
        closed := true;
      }
      assert newActiveFiles != [] ==> newActiveFiles[0] in files;
    }
  }
}
