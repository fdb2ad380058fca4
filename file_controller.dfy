/** The registry's request handlers (backend/controllers/fileController.js)
    over an abstract document store: a map from ids to records and the
    counter that hands out fresh ids. Each handler yields the response
    writes it makes, in order, instead of writing to an HTTP response. */
module FileController {
  import opened FileModel
  import opened RecordLists

  /** The JSON body of one response write. */
  datatype Body =
    | Message(text: string)
    | Uploaded(text: string, files: seq<FileRecord>)
    | Document(doc: Option<FileRecord>)
    | Documents(docs: seq<FileRecord>)

  /** One `res.status(status).json(body)`. */
  datatype Write = Write(status: nat, body: Body)

  /** What a handler did: the writes it made, and whether it handed an
      error to the framework with `next(error)`. */
  datatype Reply = Reply(writes: seq<Write>, forwarded: bool)

  /** `req.body.files`: an array of descriptors, or anything else. */
  datatype Payload = Array(items: seq<Descriptor>) | NotArray

  const InvalidFileData := Write(400, Message("Invalid file data"))
  const InternalError := Write(500, Message("Internal server error"))
  const NotFound := Write(404, Message("File Not Found!"))
  const UploadedText := "Files uploaded successfully"
  const DeletedText := "File deleted successfully"

  /** Whether the save of the descriptor at position `i` goes through: the
      document passes the schema and the store does not refuse the insert
      (`refused` holds the positions the store refuses). */
  predicate Saves(d: Descriptor, i: nat, refused: set<nat>)
  {
    Conforms(d) && i !in refused
  }

  /** Every save of the batch goes through. */
  predicate AllSave(items: seq<Descriptor>, refused: set<nat>)
  {
    forall i :: 0 <= i < |items| ==> Saves(items[i], i, refused)
  }

  /** The documents a batch saves, in input order; the descriptor at
      position `i` is given the id `base + i`. */
  function Saved(items: seq<Descriptor>, refused: set<nat>, base: Id): (r: seq<FileRecord>)
    ensures |r| <= |items|
    ensures forall k :: 0 <= k < |r| ==>
      base <= r[k].id < base + |items| &&
      Saves(items[r[k].id - base], r[k].id - base, refused) &&
      Validate(items[r[k].id - base], r[k].id) == Some(r[k])
    ensures forall j, k :: 0 <= j < k < |r| ==> r[j].id < r[k].id
    ensures |r| == |items| <==> AllSave(items, refused)
    ensures |r| == |items| ==> forall k :: 0 <= k < |r| ==> r[k].id == base + k
    decreases |items|
  {
    if items == [] then []
    else
      var i := |items| - 1;
      var prefix := Saved(items[..i], refused, base);
      assert forall k :: 0 <= k < i ==> items[..i][k] == items[k];
      if Saves(items[i], i, refused) then prefix + [Validate(items[i], base + i).value] else prefix
  }

  /** The entries a batch adds to the store, keyed by id; `InsertedEntries`
      states which they are. */
  function Inserted(items: seq<Descriptor>, refused: set<nat>, base: Id): map<Id, FileRecord>
    decreases |items|
  {
    if items == [] then map[]
    else
      var i := |items| - 1;
      var prefix := Inserted(items[..i], refused, base);
      if Saves(items[i], i, refused) then prefix[base + i := Validate(items[i], base + i).value] else prefix
  }

  /** A batch adds an entry under `base + i` exactly for the positions `i`
      whose save goes through, and that entry is the document built from
      the descriptor at `i`. */
  lemma {:induction false} InsertedEntries(items: seq<Descriptor>, refused: set<nat>, base: Id)
    ensures forall id :: id in Inserted(items, refused, base) <==>
      base <= id < base + |items| && Saves(items[id - base], id - base, refused)
    ensures forall id :: id in Inserted(items, refused, base) ==>
      Validate(items[id - base], id) == Some(Inserted(items, refused, base)[id])
    decreases |items|
  {
    if items != [] {
      var i := |items| - 1;
      var front := items[..i];
      InsertedEntries(front, refused, base);
      var prefix := Inserted(front, refused, base);
      var m := Inserted(items, refused, base);
      forall id | base <= id < base + i
        ensures (id in m <==> id in prefix) && (id in m ==> m[id] == prefix[id])
        ensures front[id - base] == items[id - base]
      {
      }
    }
  }

  /** The saved documents that the response lists are exactly the entries
      the batch adds to the store. */
  lemma SavedAreInserted(items: seq<Descriptor>, refused: set<nat>, base: Id)
    ensures var r := Saved(items, refused, base);
      var m := Inserted(items, refused, base);
      (forall k :: 0 <= k < |r| ==> r[k].id in m && m[r[k].id] == r[k]) &&
      (forall id :: id in m ==> m[id] in r)
    decreases |items|
  {
    if items != [] {
      var i := |items| - 1;
      assert items[..i] + [items[i]] == items;
      SavedAreInserted(items[..i], refused, base);
      InsertedEntries(items, refused, base);
    }
  }

  /** A batch whose every save goes through answers with one record per
      descriptor, in input order, each carrying that descriptor's fields. */
  lemma AllSavedInOrder(items: seq<Descriptor>, refused: set<nat>, base: Id)
    requires AllSave(items, refused)
    ensures var r := Saved(items, refused, base);
      |r| == |items| &&
      forall k :: 0 <= k < |r| ==> r[k].id == base + k && Describe(r[k]) == items[k]
  {
  }

  /** The result of looking up one id: the JSON document, or `null`. */
  function Lookup(store: map<Id, FileRecord>, id: Id): (doc: Option<FileRecord>)
    ensures doc.Some? <==> id in store
    ensures doc.Some? ==> doc.value == store[id]
  {
    if id in store then Some(store[id]) else None
  }

  /** `getAFile` as written. `failure` stands for `findById` throwing
      (a malformed id or an unreachable store), which goes to `next`.
      After the 404 the handler does not return, so it goes on to write a
      200 with the `null` lookup result as well. */
  function GetAFile(store: map<Id, FileRecord>, id: Id, failure: bool): (reply: Reply)
    ensures reply.forwarded <==> failure
    ensures failure ==> reply.writes == []
    ensures !failure ==> |reply.writes| > 0 && reply.writes[|reply.writes| - 1] == Write(200, Document(Lookup(store, id)))
    ensures !failure ==> (reply.writes[0] == NotFound <==> id !in store)
    ensures !failure && id in store ==> reply.writes == [Write(200, Document(Some(store[id])))]
  {
    if failure then Reply([], true)
    else
      var notFound := if id !in store then [NotFound] else [];
      Reply(notFound + [Write(200, Document(Lookup(store, id)))], false)
  }

  /** On a missing id the handler as written writes twice, the second time
      a 200 with a `null` body, which the intended handler never does. */
  lemma MissingFileWritesTwice(store: map<Id, FileRecord>, id: Id)
    requires id !in store
    ensures GetAFile(store, id, false).writes == [NotFound, Write(200, Document(None))]
    ensures GetAFile(store, id, false) != GetAFileIntended(store, id, false)
  {
  }

  /** `getAFile` with the evident intent: a missing id ends the request
      with the 404 alone. */
  function GetAFileIntended(store: map<Id, FileRecord>, id: Id, failure: bool): (reply: Reply)
    ensures reply.forwarded <==> failure
    ensures failure ==> reply.writes == []
    ensures !failure ==> |reply.writes| == 1
    ensures !failure ==> (reply.writes[0].status == 404 <==> id !in store)
    ensures !failure && id !in store ==> reply.writes[0] == NotFound
    ensures !failure && id in store ==> reply.writes[0] == Write(200, Document(Some(store[id])))
  {
    if failure then Reply([], true)
    else if id !in store then Reply([NotFound], false)
    else Reply([Write(200, Document(Some(store[id])))], false)
  }

  /** The intended handler agrees with the written one whenever the id is
      present or the lookup fails. */
  lemma IntendedAgreesWhenFound(store: map<Id, FileRecord>, id: Id, failure: bool)
    requires failure || id in store
    ensures GetAFileIntended(store, id, failure) == GetAFile(store, id, failure)
  {
  }

  /** Ids strictly decrease along the list: newest first. */
  predicate StrictlyDescending(docs: seq<FileRecord>)
  {
    forall j, k :: 0 <= j < k < |docs| ==> docs[j].id > docs[k].id
  }

  /** A newest-first listing of a store whose ids are exactly 0 .. n-1 is
      n-1, ..., 1, 0. */
  lemma {:induction false} DescendingCover(docs: seq<FileRecord>, n: nat)
    requires StrictlyDescending(docs)
    requires forall k :: 0 <= k < |docs| ==> docs[k].id < n
    requires forall v :: 0 <= v < n ==> HasId(docs, v)
    ensures |docs| == n
    ensures forall k :: 0 <= k < |docs| ==> docs[k].id == n - 1 - k
  {
    var j := 0;
    while j < |docs|
      invariant j <= |docs|
      invariant forall k :: 0 <= k < j ==> docs[k].id == n - 1 - k
    {
      assert docs[j].id < n;
      assert j > 0 ==> docs[j].id < docs[j - 1].id;
      assert docs[j].id <= n - 1 - j;
      assert HasId(docs, n - 1 - j);
      var m :| 0 <= m < |docs| && docs[m].id == n - 1 - j;
      assert forall k :: 0 <= k < j ==> docs[k].id != n - 1 - j;
      assert j <= m;
      assert docs[j].id >= docs[m].id;
      j := j + 1;
    }
    assert |docs| > 0 ==> docs[|docs| - 1].id == n - |docs|;
    assert n > 0 ==> HasId(docs, 0);
  }

  /** One more descriptor extends the batch by its own document, if its
      save goes through, and by nothing else. `doc` is the document built
      for it. */
  lemma BatchStep(items: seq<Descriptor>, refused: set<nat>, base: Id, i: nat, doc: Option<FileRecord>)
    requires i < |items| && doc == Validate(items[i], base + i)
    ensures Saves(items[i], i, refused) <==> doc.Some? && i !in refused
    ensures doc.Some? && i !in refused ==>
      Inserted(items[..i + 1], refused, base) == Inserted(items[..i], refused, base)[base + i := doc.value] &&
      Saved(items[..i + 1], refused, base) == Saved(items[..i], refused, base) + [doc.value]
    ensures !(doc.Some? && i !in refused) ==>
      Inserted(items[..i + 1], refused, base) == Inserted(items[..i], refused, base) &&
      Saved(items[..i + 1], refused, base) == Saved(items[..i], refused, base)
    ensures AllSave(items[..i + 1], refused) <==> AllSave(items[..i], refused) && doc.Some? && i !in refused
  {
    var p := items[..i + 1];
    assert p[..i] == items[..i];
    assert p[i] == items[i];
    assert forall k :: 0 <= k < i ==> p[k] == items[..i][k];
  }

  /** Adding one entry to the right operand of a map union adds it to the
      union. */
  lemma UnionUpdate(a: map<Id, FileRecord>, b: map<Id, FileRecord>, k: Id, v: FileRecord)
    ensures (a + b)[k := v] == a + b[k := v]
  {
  }

  /** Adding a batch's entries to a store whose ids all lie below `base`
      keeps every old record, and every entry sits under its own id below
      `base + |items|` and passes the schema. */
  lemma BatchExtends(store: map<Id, FileRecord>, items: seq<Descriptor>, refused: set<nat>, base: Id)
    requires forall id :: id in store ==> id < base && store[id].id == id && WellFormed(store[id])
    ensures var after := store + Inserted(items, refused, base);
      (forall id :: id in store ==> id in after && after[id] == store[id]) &&
      (forall id :: id in after ==> id < base + |items| && after[id].id == id && WellFormed(after[id]))
  {
    var m := Inserted(items, refused, base);
    InsertedEntries(items, refused, base);
    forall id | id in store + m
      ensures id < base + |items| && (store + m)[id].id == id && WellFormed((store + m)[id])
    {
      if id in m {
        assert Validate(items[id - base], id) == Some(m[id]);
      }
    }
  }

  /** Appending a record keeps every id the list had and adds the
      record's own. */
  lemma HasIdAppend(docs: seq<FileRecord>, r: FileRecord)
    ensures forall id :: HasId(docs + [r], id) <==> HasId(docs, id) || id == r.id
  {
    var all := docs + [r];
    assert all[|docs|] == r;
    forall id | HasId(docs, id) ensures HasId(all, id) {
      var m :| 0 <= m < |docs| && docs[m].id == id;
      assert all[m] == docs[m];
    }
    forall id | HasId(all, id) && id != r.id ensures HasId(docs, id) {
      var m :| 0 <= m < |all| && all[m].id == id;
      assert m < |docs| && docs[m] == all[m];
    }
  }

  /** The store and its id counter. */
  class Registry {
    var store: map<Id, FileRecord>
    var nextId: Id

    /** Every stored record sits under its own id, below the counter, and
        passes the schema. */
    ghost predicate Valid()
      reads this
    {
      forall id :: id in store ==> id < nextId && store[id].id == id && WellFormed(store[id])
    }

    constructor ()
      ensures Valid() && store == map[] && nextId == 0
    {
      store := map[];
      nextId := 0;
    }

    /** `uploadFile`. Every element of the array gets a document, and its
        save is started; the concurrent saves are taken in input order.
        The reply is 200 with the saved records only if every save goes
        through; otherwise it is 500, and the saves that did go through
        stay in the store. */
    method UploadFile(payload: Payload, refused: set<nat>) returns (writes: seq<Write>)
      requires Valid()
      modifies this
      ensures Valid()
      ensures payload.NotArray? ==> writes == [InvalidFileData] && store == old(store) && nextId == old(nextId)
      ensures payload.Array? ==>
        store == old(store) + Inserted(payload.items, refused, old(nextId)) &&
        nextId == old(nextId) + |payload.items|
      ensures payload.Array? ==> (writes ==
        if AllSave(payload.items, refused)
        then [Write(200, Uploaded(UploadedText, Saved(payload.items, refused, old(nextId))))]
        else [InternalError])
      ensures forall id :: id in old(store) ==> id in store && store[id] == old(store)[id]
    {
      if payload.NotArray? {
        writes := [InvalidFileData];
        return;
      }
      var saved, allSaved := SaveEach(payload.items, refused);
      if allSaved {
        writes := [Write(200, Uploaded(UploadedText, saved))];
      } else {
        writes := [InternalError];
      }
    }

    /** The `save()` of every descriptor, in input order: each one takes the
        next id, and the store keeps the documents that pass the schema and
        that it does not refuse. */
    method SaveEach(items: seq<Descriptor>, refused: set<nat>) returns (saved: seq<FileRecord>, allSaved: bool)
      requires Valid()
      modifies this
      ensures Valid()
      ensures store == old(store) + Inserted(items, refused, old(nextId))
      ensures nextId == old(nextId) + |items|
      ensures saved == Saved(items, refused, old(nextId))
      ensures allSaved <==> AllSave(items, refused)
      ensures forall id :: id in old(store) ==> id in store && store[id] == old(store)[id]
    {
      var base := nextId;
      saved := [];
      allSaved := true;
      ghost var added: map<Id, FileRecord> := map[];
      var i := 0;
      while i < |items|
        invariant 0 <= i <= |items|
        invariant nextId == base + i
        invariant added == Inserted(items[..i], refused, base)
        invariant store == old(store) + added
        invariant saved == Saved(items[..i], refused, base)
        invariant allSaved <==> AllSave(items[..i], refused)
      {
        var id := nextId;
        nextId := nextId + 1;
        var doc := Validate(items[i], id);
        BatchStep(items, refused, base, i, doc);
        if doc.Some? && i !in refused {
          UnionUpdate(old(store), added, id, doc.value);
          store := store[id := doc.value];
          added := added[id := doc.value];
          saved := saved + [doc.value];
        } else {
          allSaved := false;
        }
        i := i + 1;
      }
      assert items[..i] == items;
      BatchExtends(old(store), items, refused, base);
    }

    /** `getAllFiles`: every stored record, by strictly descending id. The
        store answers `sort({_id: -1})` by walking the id index backwards,
        which is what the loop does. `failure` stands for the query
        throwing, which goes to `next`. */
    method GetAllFiles(failure: bool) returns (reply: Reply, docs: seq<FileRecord>)
      requires Valid()
      ensures failure ==> reply == Reply([], true) && docs == []
      ensures !failure ==> reply == Reply([Write(200, Documents(docs))], false)
      ensures StrictlyDescending(docs)
      ensures forall k :: 0 <= k < |docs| ==> docs[k].id in store && store[docs[k].id] == docs[k]
      ensures !failure ==> forall id :: id in store ==> HasId(docs, id)
    {
      docs := [];
      if failure {
        reply := Reply([], true);
        return;
      }
      var k := nextId;
      while k > 0
        invariant k <= nextId
        invariant StrictlyDescending(docs)
        invariant forall j :: 0 <= j < |docs| ==> k <= docs[j].id && docs[j].id in store && store[docs[j].id] == docs[j]
        invariant forall id :: k <= id && id in store ==> HasId(docs, id)
      {
        k := k - 1;
        if k in store {
          HasIdAppend(docs, store[k]);
          docs := docs + [store[k]];
        }
      }
      reply := Reply([Write(200, Documents(docs))], false);
    }

    /** `deleteAFile`: removes the record if there is one and answers 200
        either way. `failure` stands for the store throwing, which answers
        500 and removes nothing. */
    method DeleteAFile(id: Id, failure: bool) returns (writes: seq<Write>)
      requires Valid()
      modifies this
      ensures Valid() && nextId == old(nextId)
      ensures failure ==> writes == [InternalError] && store == old(store)
      ensures !failure ==> writes == [Write(200, Message(DeletedText))] && store == old(store) - {id}
      ensures !failure ==> id !in store && forall other :: other != id && other in old(store) ==> other in store && store[other] == old(store)[other]
    {
      if failure {
        writes := [InternalError];
      } else {
        store := store - {id};
        writes := [Write(200, Message(DeletedText))];
      }
    }
  }

  /** Deleting the same id twice answers the same both times and leaves
      the same store as deleting it once. */
  method DeleteTwice(registry: Registry, id: Id) returns (first: seq<Write>, second: seq<Write>)
    requires registry.Valid()
    modifies registry
    ensures first == second == [Write(200, Message(DeletedText))]
    ensures registry.store == old(registry.store) - {id}
  {
    first := registry.DeleteAFile(id, false);
    var once := registry.store;
    second := registry.DeleteAFile(id, false);
    assert registry.store == once;
  }

  /** A record saved by an upload is found by its id, with the uploaded
      name, url and type. */
  lemma GetAfterUpload(store: map<Id, FileRecord>, items: seq<Descriptor>, refused: set<nat>, base: Id, i: nat)
    requires i < |items| && Saves(items[i], i, refused)
    ensures var reply := GetAFile(store + Inserted(items, refused, base), base + i, false);
      reply.writes == [Write(200, Document(Some(FileRecord(base + i, items[i].name.value, items[i].url.value, items[i].fileType.value))))]
  {
    InsertedEntries(items, refused, base);
    assert base + i in Inserted(items, refused, base);
  }

  /** Three records uploaded one batch into an empty registry are listed
      newest first: the third, the second, the first. */
  method ListedNewestFirst(d1: Descriptor, d2: Descriptor, d3: Descriptor) returns (docs: seq<FileRecord>)
    requires Conforms(d1) && Conforms(d2) && Conforms(d3)
    ensures |docs| == 3
    ensures Describe(docs[0]) == d3 && Describe(docs[1]) == d2 && Describe(docs[2]) == d1
    ensures docs[0].id > docs[1].id > docs[2].id
  {
    var registry := new Registry();
    var items := [d1, d2, d3];
    var writes := registry.UploadFile(Array(items), {});
    UploadedThree(d1, d2, d3);
    var reply;
    reply, docs := registry.GetAllFiles(false);
    DescendingCover(docs, 3);
    assert docs[0] == registry.store[2];
    assert docs[1] == registry.store[1];
    assert docs[2] == registry.store[0];
  }

  /** Three conforming descriptors uploaded into an empty store take the
      ids 0, 1 and 2, in order. */
  lemma UploadedThree(d1: Descriptor, d2: Descriptor, d3: Descriptor)
    requires Conforms(d1) && Conforms(d2) && Conforms(d3)
    ensures forall id: Id :: id in Inserted([d1, d2, d3], {}, 0) <==> id < 3
    ensures var m := Inserted([d1, d2, d3], {}, 0);
      0 in m && 1 in m && 2 in m &&
      Describe(m[0]) == d1 && Describe(m[1]) == d2 && Describe(m[2]) == d3
  {
    var items := [d1, d2, d3];
    InsertedEntries(items, {}, 0);
    forall id: Id | id < 3 ensures id in Inserted(items, {}, 0) {
      assert id == 0 || id == 1 || id == 2;
      assert Saves(items[id], id, {});
    }
  }
}
