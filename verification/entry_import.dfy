/** Importing one content entry (ElementorContent::import_post_type_content):
    create the document, read its payload, prepare the payload, hand it to the
    document, and turn every exception into `false`. */
module EntryImport {
  import opened Basics
  import opened OrderedMaps
  import opened PhpValues

  /** An entry's settings from the manifest (`doc_type`, `title`, `data`, ...). */
  type EntrySettings = OMap<Value>

  /** A decoded per-entry JSON payload. */
  type Payload = OMap<Value>

  /** The metadata handed to the document factory's `create`. */
  datatype CreateRequest = CreateRequest(docType: Value, title: Value, status: string, postType: string)

  /** What the collaborators do for one entry: whether the factory's `create`
      throws, the payload file's contents (`None` when reading throws),
      whether the document's `import` throws, and what `get_main_id` returns. */
  datatype EntryOutcome = EntryOutcome(createThrows: bool, file: Option<Payload>, importThrows: bool, mainId: Value)

  /** What importing one entry did: the creation request, whether a document
      was created, the payload handed to `import` (if it got that far), and the
      returned value (a document id, or a falsy value on failure). */
  datatype EntryTrace = EntryTrace(request: CreateRequest, created: bool, sent: Option<Payload>, result: Value)

  /** The payload as handed to the document: the `content` body is replaced by
      an empty array when the entry's `data` is non-empty, and the entry's
      settings are attached under `import_settings`. */
  function PreparePayload(p: Payload, settings: EntrySettings): (r: Payload)
    ensures Field(r, "import_settings") == Arr(settings)
    ensures Truthy(Field(settings, "data")) ==> Field(r, "content") == Arr([])
    ensures !Truthy(Field(settings, "data")) ==> Get(r, "content") == Get(p, "content")
    ensures forall k :: k != "content" && k != "import_settings" ==> Get(r, k) == Get(p, k)
    ensures |p| <= |r| <= |p| + 2
    ensures forall i :: 0 <= i < |p| ==> r[i].0 == p[i].0
    ensures |r| == |p| + 1 ==> r[|p|].0 == "content" || r[|p|].0 == "import_settings"
    ensures |r| == |p| + 2 ==> r[|p|].0 == "content" && r[|p| + 1].0 == "import_settings"
  {
    var stripped := if Truthy(Field(settings, "data")) then Put(p, "content", Arr([])) else p;
    PutGet(p, "content", Arr([]));
    PutGet(stripped, "import_settings", Arr(settings));
    Put(stripped, "import_settings", Arr(settings))
  }

  /** Imports one entry of post type `postType`. Any exception yields `false`;
      otherwise the result is whatever `get_main_id` returned. */
  function ImportPostTypeContent(postType: string, id: string, settings: EntrySettings, o: EntryOutcome): (t: EntryTrace)
    ensures t.request == CreateRequest(Field(settings, "doc_type"), Field(settings, "title"), "publish", postType)
    ensures t.created <==> !o.createThrows
    ensures t.sent.Some? <==> !o.createThrows && o.file.Some?
    ensures t.sent.Some? ==> t.sent == Some(PreparePayload(o.file.value, settings))
    ensures o.createThrows || o.file.None? || o.importThrows ==> t.result == Bool(false)
    ensures Truthy(t.result) <==> !o.createThrows && o.file.Some? && !o.importThrows && Truthy(o.mainId)
    ensures Truthy(t.result) ==> t.result == o.mainId
    ensures !o.createThrows && o.file.Some? && !o.importThrows ==> t.result == o.mainId
  {
    var request := CreateRequest(Field(settings, "doc_type"), Field(settings, "title"), "publish", postType);
    if o.createThrows then EntryTrace(request, false, None, Bool(false))
    else
      match o.file
      case None => EntryTrace(request, true, None, Bool(false))
      case Some(p) =>
        var sent := PreparePayload(p, settings);
        if o.importThrows then EntryTrace(request, true, Some(sent), Bool(false))
        else EntryTrace(request, true, Some(sent), o.mainId)
  }
}
