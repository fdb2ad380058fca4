/** What the frontend pages share with the browser: the `files` entry of
    local storage, which the file list writes and the viewer reads, and the
    navigation actions that the pages ask the browser to perform. */
module Browser {
  import opened FileModel

  /** The `files` key of local storage. JSON encoding is the identity here:
      the list that is stored is the list that is read back. */
  class LocalStorage {
    var files: Option<seq<FileRecord>>

    constructor ()
      ensures files == None
    {
      files := None;
    }
  }

  /** Where an action leads: the single-file page `/files/{id}`, the
      viewer page `/viewer`, or a url outside the application. */
  datatype Location = FilePage(id: Id) | ViewerPage | External(url: string)

  /** `window.open(location, target)`, `navigate(location)` and
      `window.alert(text)`. */
  datatype Action =
    | WindowOpen(location: Location, target: Option<string>)
    | Navigate(location: Location)
    | Alert(text: string)
}
