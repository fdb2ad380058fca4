/** The upload dialog (frontend/src/components/FileUploadModal.jsx): a
    queue of dropped files, the classification of a file by its extension,
    and the upload that turns the queue into descriptors for the
    registry. */
module FileUploadModal {
  import opened FileModel

  /** A file the browser hands over, known by its name. */
  datatype DroppedFile = DroppedFile(name: string)

  predicate IsUpper(c: char)
  {
    'A' <= c <= 'Z'
  }

  /** Lower-casing of one character, for the ASCII letters. */
  function LowerChar(c: char): (r: char)
    ensures !IsUpper(r)
    ensures IsUpper(c) ==> r as int == c as int + 32
    ensures !IsUpper(c) ==> r == c
  {
    if IsUpper(c) then (c as int + 32) as char else c
  }

  /** `toLowerCase()`: the same string with no upper-case letter left. */
  function LowerCase(s: string): (r: string)
    ensures |r| == |s|
    ensures forall i :: 0 <= i < |r| ==> !IsUpper(r[i])
    ensures forall i :: 0 <= i < |r| ==> r[i] == LowerChar(s[i])
  {
    seq(|s|, i requires 0 <= i < |s| => LowerChar(s[i]))
  }

  /** Lower-casing twice is lower-casing once. */
  lemma LowerCaseIdempotent(s: string)
    ensures LowerCase(LowerCase(s)) == LowerCase(s)
  {
  }

  /** `name.split('.').pop()`: the part of the name after its last dot, or
      the whole name when it has none. */
  function AfterLastDot(name: string): (r: string)
    ensures '.' !in r
    ensures |r| <= |name|
    ensures forall i :: 0 <= i < |r| ==> r[i] == name[|name| - |r| + i]
    ensures forall k :: |name| - |r| <= k < |name| ==> name[k] != '.'
    ensures |r| < |name| ==> name[|name| - |r| - 1] == '.'
    decreases |name|
  {
    if name == [] then []
    else if name[|name| - 1] == '.' then []
    else
      var front := name[..|name| - 1];
      var r := AfterLastDot(front);
      assert front[|front| - |r|..] + [name[|name| - 1]] == name[|name| - |r| - 1..];
      r + [name[|name| - 1]]
  }

  /** The extension that classifies a file: the part after the last dot,
      lower-cased. */
  function Extension(name: string): (ext: string)
    ensures '.' !in ext
    ensures |ext| <= |name|
  {
    LowerCase(AfterLastDot(name))
  }

  /** When the last dot of a name is at position `p`, the part after it is
      everything from `p + 1` on. */
  lemma AfterLastDotAt(name: string, p: nat)
    requires p < |name| && name[p] == '.'
    requires forall k :: p < k < |name| ==> name[k] != '.'
    ensures AfterLastDot(name) == name[p + 1..]
  {
    var r := AfterLastDot(name);
    assert |r| == |name| - p - 1;
  }

  /** A name made of a base, a dot and a dot-free extension has that
      extension, lower-cased. */
  lemma ExtensionOf(base: string, ext: string)
    requires '.' !in ext
    ensures Extension(base + "." + ext) == LowerCase(ext)
  {
    var name := base + "." + ext;
    assert name[|base|] == '.';
    assert forall k :: |base| < k < |name| ==> name[k] == ext[k - |base| - 1];
    AfterLastDotAt(name, |base|);
    assert name[|base| + 1..] == ext;
  }

  /** A name without a dot is its own extension, lower-cased. */
  lemma ExtensionWithoutDot(name: string)
    requires '.' !in name
    ensures Extension(name) == LowerCase(name)
  {
  }

  /** Lower-casing commutes with taking the part after the last dot. */
  lemma {:induction false} AfterLastDotLowerCase(name: string)
    ensures AfterLastDot(LowerCase(name)) == LowerCase(AfterLastDot(name))
    decreases |name|
  {
    if name != [] {
      var front := name[..|name| - 1];
      assert LowerCase(name)[..|name| - 1] == LowerCase(front);
      AfterLastDotLowerCase(front);
      if name[|name| - 1] != '.' {
        assert LowerCase(AfterLastDot(front) + [name[|name| - 1]]) == LowerCase(AfterLastDot(front)) + [LowerChar(name[|name| - 1])];
      }
    }
  }

  /** The extension does not depend on the case of the name. */
  lemma ExtensionIgnoresCase(name: string)
    ensures Extension(LowerCase(name)) == Extension(name)
  {
    AfterLastDotLowerCase(name);
    LowerCaseIdempotent(AfterLastDot(name));
  }

  const ImageExtensions: seq<string> := ["jpg", "jpeg", "png"]
  const PdfExtensions: seq<string> := ["pdf"]
  const DocExtensions: seq<string> := ["doc", "docx"]

  /** `getFileType`: exactly one of four categories, chosen by the
      extension. */
  function GetFileType(ext: string): (t: string)
    ensures t == "image" || t == "pdf" || t == "doc" || t == "other"
    ensures t == "image" <==> ext in ImageExtensions
    ensures t == "pdf" <==> ext in PdfExtensions
    ensures t == "doc" <==> ext in DocExtensions
    ensures t == "other" <==> ext !in ImageExtensions && ext !in PdfExtensions && ext !in DocExtensions
  {
    if ext in ImageExtensions then "image"
    else if ext in PdfExtensions then "pdf"
    else if ext in DocExtensions then "doc"
    else "other"
  }

  /** The type a dropped file is given depends on its name only up to
      case. */
  lemma ClassifyIgnoresCase(name: string)
    ensures GetFileType(Extension(LowerCase(name))) == GetFileType(Extension(name))
  {
    ExtensionIgnoresCase(name);
  }

  /** Some queued file has the name. */
  predicate Queued(queue: seq<DroppedFile>, name: string)
  {
    exists i :: 0 <= i < |queue| && queue[i].name == name
  }

  /** No two queued files share a name. */
  predicate DistinctNames(queue: seq<DroppedFile>)
  {
    forall i, j :: 0 <= i < j < |queue| ==> queue[i].name != queue[j].name
  }

  /** The accepted files whose names are not yet queued, in drop order. */
  function NotQueued(accepted: seq<DroppedFile>, queue: seq<DroppedFile>): (r: seq<DroppedFile>)
    ensures |r| <= |accepted|
    ensures forall f :: f in r <==> f in accepted && !Queued(queue, f.name)
    decreases |accepted|
  {
    if accepted == [] then []
    else if Queued(queue, accepted[0].name) then NotQueued(accepted[1..], queue)
    else [accepted[0]] + NotQueued(accepted[1..], queue)
  }

  /** The kept files keep their drop order: filtering distributes over
      concatenation. */
  lemma {:induction false} NotQueuedConcat(a: seq<DroppedFile>, b: seq<DroppedFile>, queue: seq<DroppedFile>)
    ensures NotQueued(a + b, queue) == NotQueued(a, queue) + NotQueued(b, queue)
    decreases |a|
  {
    if a == [] {
      assert a + b == b;
    } else {
      assert (a + b)[1..] == a[1..] + b;
      NotQueuedConcat(a[1..], b, queue);
    }
  }

  /** A drop of files with distinct names onto a queue with distinct
      names leaves no name queued twice. */
  lemma {:induction false} DropKeepsNamesDistinct(accepted: seq<DroppedFile>, queue: seq<DroppedFile>)
    requires DistinctNames(queue) && DistinctNames(accepted)
    ensures DistinctNames(queue + NotQueued(accepted, queue))
  {
    var added := NotQueued(accepted, queue);
    var all := queue + added;
    assert DistinctNames(added) by {
      NotQueuedDistinct(accepted, queue);
    }
    forall i, j | 0 <= i < j < |all| ensures all[i].name != all[j].name {
      if j >= |queue| {
        assert all[j] == added[j - |queue|];
        assert all[j] in added;
        if i < |queue| {
          assert all[i] == queue[i];
          assert !Queued(queue, all[j].name);
        } else {
          assert all[i] == added[i - |queue|];
        }
      }
    }
  }

  /** Filtering keeps the names of a drop distinct. */
  lemma {:induction false} NotQueuedDistinct(accepted: seq<DroppedFile>, queue: seq<DroppedFile>)
    requires DistinctNames(accepted)
    ensures DistinctNames(NotQueued(accepted, queue))
    decreases |accepted|
  {
    if accepted != [] {
      var rest := accepted[1..];
      DistinctNamesRest(accepted);
      NotQueuedDistinct(rest, queue);
      if !Queued(queue, accepted[0].name) {
        ConsDistinct(accepted[0], NotQueued(rest, queue), rest);
      }
    }
  }

  /** The files after the first of a drop with distinct names have
      distinct names, none of them the first one's. */
  lemma DistinctNamesRest(accepted: seq<DroppedFile>)
    requires accepted != [] && DistinctNames(accepted)
    ensures DistinctNames(accepted[1..])
    ensures forall f :: f in accepted[1..] ==> f.name != accepted[0].name
  {
    var rest := accepted[1..];
    forall i, j | 0 <= i < j < |rest| ensures rest[i].name != rest[j].name {
      assert rest[i] == accepted[i + 1] && rest[j] == accepted[j + 1];
    }
    forall f | f in rest ensures f.name != accepted[0].name {
      var m :| 0 <= m < |rest| && rest[m] == f;
      assert rest[m] == accepted[m + 1];
    }
  }

  /** Putting a file in front of distinctly named files drawn from a list
      that lacks its name keeps the names distinct. */
  lemma ConsDistinct(head: DroppedFile, tail: seq<DroppedFile>, source: seq<DroppedFile>)
    requires DistinctNames(tail)
    requires forall f :: f in tail ==> f in source
    requires forall f :: f in source ==> f.name != head.name
    ensures DistinctNames([head] + tail)
  {
    var r := [head] + tail;
    forall i, j | 0 <= i < j < |r| ensures r[i].name != r[j].name {
      assert r[j] == tail[j - 1];
      assert r[j] in tail;
      if i > 0 {
        assert r[i] == tail[i - 1];
      }
    }
  }

  /** Where `splice(index, 1)` starts: a negative index counts from the
      end, and the result is clamped to the list. */
  function SpliceStart(length: nat, index: int): (k: nat)
    ensures k <= length
    ensures 0 <= index <= length ==> k == index
    ensures index > length ==> k == length
    ensures index < 0 && length + index >= 0 ==> k == length + index
    ensures index < 0 && length + index < 0 ==> k == 0
  {
    if index < 0 then (if length + index < 0 then 0 else length + index)
    else if index > length then length
    else index
  }

  /** The descriptor the upload builds for a file stored at `url`. */
  function DescriptorOf(f: DroppedFile, url: string): (d: Descriptor)
    ensures d.name == Some(f.name) && d.url == Some(url)
    ensures d.fileType == Some(GetFileType(Extension(f.name)))
    ensures Conforms(d) <==> f.name != [] && url != []
  {
    var t := GetFileType(Extension(f.name));
    assert t != [];
    Descriptor(Some(f.name), Some(url), Some(t))
  }

  /** The dialog's state: the queue, the uploading flag, and the parent's
      `showModal` flag, which the dialog flips through `toggleModal`. */
  class UploadModal {
    var files: seq<DroppedFile>
    var uploading: bool
    var shown: bool

    constructor (shown: bool)
      ensures files == [] && !uploading && this.shown == shown
    {
      files := [];
      uploading := false;
      this.shown := shown;
    }

    /** `onDrop`. Any rejected file aborts the drop with an alert.
        Otherwise the accepted files whose names are not in the queue as it
        was before the drop are appended, in drop order. */
    method OnDrop(accepted: seq<DroppedFile>, rejected: seq<DroppedFile>) returns (alerted: bool)
      modifies this
      ensures alerted <==> rejected != []
      ensures alerted ==> files == old(files)
      ensures !alerted ==> files == old(files) + NotQueued(accepted, old(files))
      ensures uploading == old(uploading) && shown == old(shown)
    {
      if |rejected| > 0 {
        alerted := true;
        return;
      }
      alerted := false;
      var newFiles := NotQueued(accepted, files);
      files := files + newFiles;
    }

    /** `removeFile`: `splice(index, 1)` on a copy of the queue. */
    method RemoveFile(index: int)
      modifies this
      ensures var k := SpliceStart(|old(files)|, index);
        files == if k < |old(files)| then old(files)[..k] + old(files)[k + 1..] else old(files)
      ensures 0 <= index < |old(files)| ==>
        |files| == |old(files)| - 1 &&
        (forall j :: 0 <= j < index ==> files[j] == old(files)[j]) &&
        (forall j :: index <= j < |files| ==> files[j] == old(files)[j + 1])
      ensures uploading == old(uploading) && shown == old(shown)
    {
      var updatedFiles := files;
      var k := SpliceStart(|updatedFiles|, index);
      if k < |updatedFiles| {
        updatedFiles := updatedFiles[..k] + updatedFiles[k + 1..];
      }
      files := updatedFiles;
    }

    /** `closeModal`: hides the dialog and empties the queue. */
    method CloseModal()
      modifies this
      ensures files == [] && shown == !old(shown) && uploading == old(uploading)
    {
      shown := !shown;
      files := [];
    }

    /** `uploadFiles`. `storage` is the object storage: the url it gives a
        file, or `None` when that upload fails. `postOk` says whether the
        registry accepts the POST. The descriptors are built in queue order
        and posted only when every upload succeeded; `sent` is the body
        that was posted. On success the queue is emptied and the dialog
        hidden; on any failure the queue stays as it was. */
    method UploadFiles(storage: DroppedFile -> Option<string>, postOk: bool) returns (sent: Option<seq<Descriptor>>, done: bool)
      modifies this
      ensures !uploading
      ensures sent.Some? <==> forall i :: 0 <= i < |old(files)| ==> storage(old(files)[i]).Some?
      ensures sent.Some? ==>
        |sent.value| == |old(files)| &&
        forall i :: 0 <= i < |old(files)| ==> sent.value[i] == DescriptorOf(old(files)[i], storage(old(files)[i]).value)
      ensures done <==> sent.Some? && postOk
      ensures done ==> files == [] && shown == !old(shown)
      ensures !done ==> files == old(files) && shown == old(shown)
    {
      uploading := true;
      var queue := files;
      var fileData: seq<Descriptor> := [];
      var ok := true;
      var i := 0;
      while i < |queue|
        invariant 0 <= i <= |queue|
        invariant files == queue == old(files) && shown == old(shown)
        invariant ok <==> forall k :: 0 <= k < i ==> storage(queue[k]).Some?
        invariant ok ==> |fileData| == i
        invariant ok ==> forall k :: 0 <= k < i ==> fileData[k] == DescriptorOf(queue[k], storage(queue[k]).value)
      {
        var url := storage(queue[i]);
        if url.Some? && ok {
          fileData := fileData + [DescriptorOf(queue[i], url.value)];
        } else {
          ok := false;
        }
        i := i + 1;
      }
      if !ok {
        sent, done := None, false;
        uploading := false;
        return;
      }
      sent := Some(fileData);
      if postOk {
        uploading := false;
        files := [];
        shown := !shown;
        done := true;
      } else {
        uploading := false;
        done := false;
      }
    }
  }
}
