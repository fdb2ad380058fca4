# File catalogue: registry service and frontend state, modelled in Dafny

The system is a small file catalogue. A backend keeps one kind of record, a
`File` (name, url, type, and an `_id` the store assigns). Its handlers create
records in batches, fetch one by id, list them all newest first, and delete by
id. A frontend does four things:

- It uploads files to an external object store and registers their
  descriptors with the backend.
- It lists the registered files and opens or deletes them.
- It can show up to three files side by side in a multi-file viewer.

This project models those pieces and proves what they promise. There is one
module per source file, plus two shared modules:

| module | file | models |
|---|---|---|
| `FileModel` | `file_model.dfy` | the `File` record, the descriptors clients send, and the schema's required-field check |
| `RecordLists` | `record_lists.dfy` | lists of records and removal by id (`filter(f => f._id !== id)`), shared by the viewer and both file lists |
| `FileController` | `file_controller.dfy` | the four handlers, as a `Registry` class over a map store and a fresh-id counter; each handler yields the response writes it makes |
| `Browser` | `browser.dfy` | the `files` entry of local storage, which the pages and the viewer share, and the navigation actions (`window.open`, `navigate`, `alert`) |
| `MultiFileViewer` | `multi_file_viewer.dfy` | the viewer as a `Viewer` class over its tabs and open panes |
| `FileUploadModal` | `file_upload_modal.dfy` | extension extraction and classification, plus the drop queue and the upload as an `UploadModal` class |
| `FilesPage` | `files_page.dfy` | the file list page (`pages/Files.jsx`) |
| `FilesComponent` | `files_component.dfy` | the file list component (`components/Files.jsx`) |

## How the model reads the code

- **Record ids.** The store's ids are modelled as naturals drawn from a
  counter, `Registry.nextId`. Each element of an upload batch takes the next
  id when its document is constructed, whether or not its save succeeds. So a
  larger id means a newer record, and "descending `_id`" means newest first.
  The code itself only promises descending `_id`.
- **Required fields.** A required string field is satisfied by a present,
  non-empty string; this is the store's rule for `required` strings. The type
  field is free text, not an enumeration.
- **Batch uploads.** `uploadFile` starts every element's save at once. The
  model takes the saves in input order. Every save is attempted, and
  `refused` names the positions the store rejects. The reply is 200 with the
  saved records only if every save goes through. Otherwise it is 500, and the
  saves that did go through stay in the store, so no batch is rolled back.
- **Fetch failures.** `failure` parameters stand for a store call that throws.
  In `getAFile` and `getAllFiles` the error is handed on with `next(error)`,
  modelled as `Reply.forwarded`.
- **Missing ids in `getAFile`.** The handler writes the 404, does not return,
  and then attempts a second write, a 200 with the `null` lookup result. The
  model records both writes (see Findings).
- **"Open all" in the component.** `openAllFiles` in `components/Files.jsx`
  does not use the rule of its own `openFile` for images. It opens
  `/files/{id}` with `window.open(..., '_blank')` instead of navigating. The
  model keeps the two rules apart (`OpenAllAction`, `OpenFile`) and proves
  how they relate.
- **Starting state.** A `Registry` starts with an empty store and the
  counter at zero. The code has no such step; this is the model's own
  starting point.
- **The viewer route.** `OpenAllThenView` assumes that `/viewer` shows
  `MultiFileViewer`. The route wiring is not part of this model.
- **Window targets.** `window.open(url)` without a target opens a new
  window, like `'_blank'`. The actions record the target as written, so
  `None` and `Some("_blank")` differ in the record but not in effect.
- **Viewer `OpenFile`.** `OpenFile` requires the file to be one of the tabs.
  The only caller is a tab's click handler.

## Model

| member | source | states |
|---|---|---|
| `FileModel.Validate` | backend/models/file.js:3-7 | a descriptor yields a document exactly when name, url and type are all present and non-empty; the document carries the given id and exactly the descriptor's three fields |
| `FileModel.Describe` | backend/models/file.js:3-7 | the three declared fields of a record conform to the schema exactly when the record is well formed |
| `FileModel.ValidateDescribe` | backend/models/file.js:3-7 | validating a record's own fields gives back that record when it is well formed, and nothing otherwise |
| `FileModel.AnyTypeAccepted` | backend/models/file.js:6 | any non-empty type string is accepted, so the type is not an enumeration |
| `RecordLists.Without` | frontend/src/pages/MultiFileViewer.jsx:34-37 | removal by id keeps exactly the entries with another id, never lengthens the list, and leaves no entry with that id |
| `RecordLists.WithoutConcat` | frontend/src/pages/Files.jsx:49 | removal distributes over concatenation, so the kept entries stay in their original order |
| `RecordLists.WithoutUnchanged` | frontend/src/components/Files.jsx:49 | removal changes the list if and only if the id is present |
| `RecordLists.WithoutIdempotent` | frontend/src/components/Files.jsx:49 | removing an id twice is the same as removing it once |
| `RecordLists.WithoutKeepsDistinct` | frontend/src/pages/MultiFileViewer.jsx:34 | removal keeps a list free of duplicate ids |
| `FileController.Saved` | backend/controllers/fileController.js:11-24 | the saved documents are in input order with strictly increasing ids; each is the validated descriptor at its position; all descriptors are saved if and only if every save goes through, and then element k has id base + k |
| `FileController.InsertedEntries` | backend/controllers/fileController.js:11-20 | the batch adds an entry under id base + i exactly for the positions i whose save goes through, holding that descriptor's document |
| `FileController.BatchStep` | backend/controllers/fileController.js:12-19 | one more descriptor extends the saved list and the added entries by its own document if its save goes through, and by nothing otherwise |
| `FileController.SavedAreInserted` | backend/controllers/fileController.js:18-24 | the records the reply lists are exactly the entries the batch adds to the store |
| `FileController.AllSavedInOrder` | backend/controllers/fileController.js:22-24 | a batch whose every save goes through lists one record per descriptor, in input order, with that descriptor's name, url and type |
| `FileController.Lookup` | backend/controllers/fileController.js:33 | the lookup finds a document exactly when the id is stored, and then it is the stored record |
| `FileController.GetAFile` | backend/controllers/fileController.js:31-43 | as written: a thrown lookup is forwarded with no write; otherwise the last write is 200 with the lookup result, and it is preceded by the 404 exactly when the id is missing |
| `FileController.MissingFileWritesTwice` | backend/controllers/fileController.js:35-39 | on a missing id the handler as written writes the 404 and then a 200 with a null body, unlike the intended handler |
| `FileController.GetAFileIntended` | backend/controllers/fileController.js:35-39 | corrected: exactly one write, which is the 404 when the id is missing and a 200 with the record when it is present |
| `FileController.IntendedAgreesWhenFound` | backend/controllers/fileController.js:39 | the corrected handler differs from the written one only on missing ids |
| `FileController.DescendingCover` | backend/controllers/fileController.js:56 | a listing by strictly descending id of a store holding ids 0 to n-1 is exactly n-1, ..., 1, 0 |
| `FileController.Registry.UploadFile` | backend/controllers/fileController.js:3-29 | a non-array body answers 400 "Invalid file data" and saves nothing; otherwise every descriptor takes the next id, the store gains exactly the saved documents, existing records are untouched, and the reply is 200 with the saved records or 500 "Internal server error" |
| `FileController.Registry.SaveEach` | backend/controllers/fileController.js:11-20 | each descriptor in input order takes the next id; the store gains exactly the documents that pass the schema and are not refused, and nothing else changes |
| `FileController.Registry.GetAllFiles` | backend/controllers/fileController.js:54-61 | the reply lists stored records only, each under its own id, by strictly descending id, and every stored record appears; a failing query is forwarded |
| `FileController.Registry.DeleteAFile` | backend/controllers/fileController.js:45-52 | the reply is 200 "File deleted successfully" whether or not the id existed; afterwards the id is absent and every other record is unchanged; a store error answers 500 and removes nothing |
| `FileController.DeleteTwice` | backend/controllers/fileController.js:47-48 | deleting the same id twice gives the same reply both times and the same store as deleting once |
| `FileController.GetAfterUpload` | backend/controllers/fileController.js:13-18 | a record saved by an upload is found by its id, with the uploaded name, url and type |
| `FileController.ListedNewestFirst` | backend/controllers/fileController.js:56 | three records uploaded into an empty registry are listed third, second, first |
| `MultiFileViewer.RenderFileViewer` | frontend/src/pages/MultiFileViewer.jsx:50-58 | an image type shows the url as an image; a pdf type embeds the url followed by "#toolbar=0"; every other type shows "Unsupported file type" |
| `MultiFileViewer.Viewer.constructor` | frontend/src/pages/MultiFileViewer.jsx:9-15 | a stored non-empty list becomes the tabs with only its first file open; a missing or empty list leaves both lists empty |
| `MultiFileViewer.Viewer.OpenFile` | frontend/src/pages/MultiFileViewer.jsx:17-26 | a file whose id is open changes nothing; otherwise it is appended while fewer than three are open, and replaces the third pane when three are; at most three panes and no duplicate ids afterwards |
| `MultiFileViewer.Viewer.CloseFile` | frontend/src/pages/MultiFileViewer.jsx:32-48 | the id leaves both lists, which keep their order; the new tab list is stored; with no pane left the last tab is opened, or the window closes when no tab is left either |
| `FileUploadModal.LowerCase` | frontend/src/components/FileUploadModal.jsx:41 | lower-casing keeps the length, leaves no upper-case letter, and maps each character on its own |
| `FileUploadModal.LowerCaseIdempotent` | frontend/src/components/FileUploadModal.jsx:41 | lower-casing twice is lower-casing once |
| `FileUploadModal.AfterLastDot` | frontend/src/components/FileUploadModal.jsx:41 | the result is the dot-free suffix of the name that is preceded by a dot, or the whole name when it has no dot |
| `FileUploadModal.AfterLastDotAt` | frontend/src/components/FileUploadModal.jsx:41 | when the last dot is at position p, the extension is everything after p |
| `FileUploadModal.Extension` | frontend/src/components/FileUploadModal.jsx:41 | the extension holds no dot and is no longer than the name |
| `FileUploadModal.ExtensionOf` | frontend/src/components/FileUploadModal.jsx:41 | a name base + "." + ext with a dot-free ext has extension ext, lower-cased |
| `FileUploadModal.ExtensionWithoutDot` | frontend/src/components/FileUploadModal.jsx:41 | a name without a dot is its own extension, lower-cased |
| `FileUploadModal.AfterLastDotLowerCase` | frontend/src/components/FileUploadModal.jsx:41 | lower-casing commutes with taking the part after the last dot |
| `FileUploadModal.ExtensionIgnoresCase` | frontend/src/components/FileUploadModal.jsx:41 | the extension does not depend on the case of the name |
| `FileUploadModal.GetFileType` | frontend/src/components/FileUploadModal.jsx:89-103 | exactly one of image, pdf, doc and other; image if and only if jpg/jpeg/png, pdf if and only if pdf, doc if and only if doc/docx, other for every other string |
| `FileUploadModal.ClassifyIgnoresCase` | frontend/src/components/FileUploadModal.jsx:41-42 | a file's type depends on its name only up to case |
| `FileUploadModal.NotQueued` | frontend/src/components/FileUploadModal.jsx:25 | the files kept from a drop are exactly the accepted files whose name is not in the queue as it was before the drop |
| `FileUploadModal.NotQueuedConcat` | frontend/src/components/FileUploadModal.jsx:25 | the kept files stay in drop order |
| `FileUploadModal.NotQueuedDistinct` | frontend/src/components/FileUploadModal.jsx:25 | filtering a drop keeps its names distinct |
| `FileUploadModal.DropKeepsNamesDistinct` | frontend/src/components/FileUploadModal.jsx:25-26 | a drop of distinctly named files onto a queue with distinct names leaves no name queued twice |
| `FileUploadModal.SpliceStart` | frontend/src/components/FileUploadModal.jsx:108 | splice starts at the index when it lies in the list, counts a negative index from the end, starts at the end for an index past it, and starts at 0 for an index below minus the length |
| `FileUploadModal.DescriptorOf` | frontend/src/components/FileUploadModal.jsx:44-48 | the descriptor carries the file's name, its url, and the type `getFileType` gives its lower-cased extension; the registry's schema accepts it exactly when name and url are non-empty |
| `FileUploadModal.UploadModal.constructor` | frontend/src/components/FileUploadModal.jsx:16-17 | the dialog starts with an empty queue, not uploading |
| `FileUploadModal.UploadModal.OnDrop` | frontend/src/components/FileUploadModal.jsx:20-27 | any rejected file alerts and leaves the queue unchanged; otherwise the unqueued accepted files are appended in drop order and the existing entries are untouched |
| `FileUploadModal.UploadModal.RemoveFile` | frontend/src/components/FileUploadModal.jsx:105-110 | `splice(index, 1)` on a copy: for an index inside the queue exactly that entry is removed and the others keep their order; a negative index counts from the end; an index past the end changes nothing |
| `FileUploadModal.UploadModal.CloseModal` | frontend/src/components/FileUploadModal.jsx:112-115 | the queue is emptied and the parent's show flag is flipped, which closes the dialog; the uploading flag is untouched |
| `FileUploadModal.UploadModal.UploadFiles` | frontend/src/components/FileUploadModal.jsx:35-61 | the body is posted only when every file uploaded, and then holds one descriptor per queued file, in queue order; success empties the queue and hides the dialog; any failure leaves the queue; uploading is false after either outcome |
| `FilesPage.OpenFile` | frontend/src/pages/Files.jsx:33-44 | an image opens /files/{id}; a pdf or doc opens its url in a new tab; any other type alerts "File type not supported for preview" |
| `FilesPage.Files.constructor` | frontend/src/pages/Files.jsx:12 | the page starts with an empty list |
| `FilesPage.Files.Mount` | frontend/src/pages/Files.jsx:24-27 | mounting removes the stored list |
| `FilesPage.Files.ReceiveFiles` | frontend/src/pages/Files.jsx:15-22 | a fetched list replaces the page's list; a failed fetch leaves it unchanged |
| `FilesPage.Files.RemoveFile` | frontend/src/pages/Files.jsx:46-53 | after a confirmed delete the list keeps exactly the entries with another id, in order; a failed delete leaves it unchanged |
| `FilesPage.Files.OpenAllFiles` | frontend/src/pages/Files.jsx:55-58 | the whole list is stored, and the viewer is opened in a new tab |
| `FilesPage.OpenAllThenView` | frontend/src/pages/Files.jsx:55-58 | opening all files of a non-empty list starts the viewer with that list as its tabs and its first file open, assuming `/viewer` shows the viewer |
| `FilesComponent.OpenFile` | frontend/src/components/Files.jsx:33-44 | an image navigates to /files/{id}; a pdf or doc opens its url in a new tab; any other type alerts |
| `FilesComponent.OpenAllAction` | frontend/src/components/Files.jsx:57-66 | for one file, an image opens /files/{id} in a new tab, a pdf or doc opens its url in a new tab, and any other type alerts; it never navigates |
| `FilesComponent.OpenAllAgreesWithOpenFile` | frontend/src/components/Files.jsx:37-66 | "open all" acts like openFile except that an image opens in a new tab instead of by navigation; it is the page's openFile with the target written out as "_blank" |
| `FilesComponent.Files.constructor` | frontend/src/components/Files.jsx:11 | the component starts with an empty list |
| `FilesComponent.Files.ReceiveFiles` | frontend/src/components/Files.jsx:16-23 | a fetched list replaces the component's list; a failed fetch leaves it unchanged |
| `FilesComponent.Files.RemoveFile` | frontend/src/components/Files.jsx:46-53 | after a confirmed delete the list keeps exactly the entries with another id, in order; a failed delete leaves it unchanged |
| `FilesComponent.Files.OpenAllFiles` | frontend/src/components/Files.jsx:55-68 | exactly one action per file, in list order, each the "open all" action for that file, and an alert exactly where the page's openFile alerts |

## Left out

- Object storage: the upload to object storage (`uploadFileToFirebase`,
  frontend/src/components/FileUploadModal.jsx:63-87) is the `storage`
  parameter of `UploadFiles`. It gives a url or fails. Its progress
  percentage is floating-point logging and is not modelled. So are the
  uploads of other files in a batch that continue after one fails.
- HTTP: requests to the registry (`axios`) become parameters (`postOk`,
  `deleted`, `response`). The Express response object and routing become the
  returned writes. What Express does with a forwarded error is not modelled.
  Neither is its refusal of a second write once a response has been sent:
  in `getAFile` on a missing id, that refused 200 write throws, and the
  `catch` hands the error to `next(error)`. `GetAFile` records the attempted
  write instead, and its `forwarded` flag does not record that error.
- Store: the document store is an abstract map. Ids are a counter, not the
  store's own id format. A store that casts non-string field values to
  strings is not modelled: a field is either a string or absent. An array
  element that is not an object fails its own save, like a non-conforming
  descriptor.
- Concurrency: the concurrent saves and uploads (`Promise.all`) are taken
  one after another in input order. This keeps the order of the results.
- File picker: which dropped files the picker rejects by MIME type is library
  behaviour. The accepted and rejected lists are inputs to `OnDrop`. The
  picker's accept list has no document types, so a `.doc` or `.docx` file
  is normally rejected before `getFileType` sees it. `GetFileType` still
  classifies `doc` and `docx`, as the code does.
- `onUploadComplete`: after a successful upload the parent fetches the list
  again. That fetch is `ReceiveFiles` on the page or the component.
- Local storage: the JSON encoding of the stored list is the identity.
- `LowerCase`: lower-cases ASCII letters only, not the full Unicode case
  mapping of `toLowerCase`.
- Logging, display and interaction: console logging, alert wording outside
  the actions, `event.stopPropagation`, rendering, styling, animation, and
  the `activeFiles.includes(file)` tab highlighting (object identity in the
  display).
- `pages/File.jsx`, `backend/index.js`, `backend/routes/file.js` and
  `App.jsx` are not part of this model. They are downloads, bootstrap and
  route wiring.

## Findings

| source | as written | input that shows it | evidently intended | confidence | as-written member | corrected member |
|---|---|---|---|---|---|---|
| backend/controllers/fileController.js:35-39 | the 404 branch has no `return`, so the handler goes on to write a 200 with the `null` lookup result after the 404 | any id with no record, for example a freshly deleted one | a missing id ends the request with the 404 alone | high; not executed | `FileController.MissingFileWritesTwice` | `FileController.GetAFileIntended` |
