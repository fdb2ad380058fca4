/** The `File` document of the registry (backend/models/file.js): three
    required string fields, and an `_id` that the store assigns. */
module FileModel {

  datatype Option<+T> = None | Some(value: T)

  /** Identifiers come from the store. The model draws them from a strictly
      increasing counter, so a larger id is a newer record. */
  type Id = nat

  /** A file description as a client sends it. Any field may be missing
      from the JSON, which is `None` here. */
  datatype Descriptor = Descriptor(name: Option<string>, url: Option<string>, fileType: Option<string>)

  /** A stored document. */
  datatype FileRecord = FileRecord(id: Id, name: string, url: string, fileType: string)

  /** A `required: true` string field is satisfied by a present, non-empty
      string. */
  predicate Satisfied(field: Option<string>)
  {
    field.Some? && field.value != []
  }

  /** The schema's validation: all three declared fields are satisfied. The
      type is free text, not an enumeration. */
  predicate Conforms(d: Descriptor)
  {
    Satisfied(d.name) && Satisfied(d.url) && Satisfied(d.fileType)
  }

  /** The invariant of every persisted record. */
  predicate WellFormed(r: FileRecord)
  {
    r.name != [] && r.url != [] && r.fileType != []
  }

  /** The descriptor a record was made from: its three declared fields.
      The `_id` is not one of them. */
  function Describe(r: FileRecord): (d: Descriptor)
    ensures Conforms(d) <==> WellFormed(r)
  {
    Descriptor(Some(r.name), Some(r.url), Some(r.fileType))
  }

  /** `new File({name, url, type})` followed by the schema check of `save()`.
      A descriptor that fails the check yields no document. */
  function Validate(d: Descriptor, id: Id): (r: Option<FileRecord>)
    ensures r.Some? <==> Conforms(d)
    ensures r.Some? ==> WellFormed(r.value) && r.value.id == id && Describe(r.value) == d
  {
    if Conforms(d) then Some(FileRecord(id, d.name.value, d.url.value, d.fileType.value)) else None
  }

  /** Validation inverts `Describe` on well-formed records, and only on
      them. */
  lemma ValidateDescribe(r: FileRecord)
    ensures Validate(Describe(r), r.id) == (if WellFormed(r) then Some(r) else None)
  {
  }

  /** Any non-empty type string is accepted: the type is not an
      enumeration. */
  lemma AnyTypeAccepted(name: string, url: string, fileType: string, id: Id)
    requires name != [] && url != [] && fileType != []
    ensures Validate(Descriptor(Some(name), Some(url), Some(fileType)), id) == Some(FileRecord(id, name, url, fileType))
  {
  }
}
