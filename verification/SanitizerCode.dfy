/**
 The sanitizer as the gateway runs it: the body is rewritten in place, arrays are taken out and
 rebuilt item by item, and records are pushed onto a growing log while paths are built as strings.
 Each method is proved against the functions of `MediaSurfaces`, `ServerTools` and `BodySanitizer`.
 */
module SanitizerCode {
  import opened Wrappers
  import opened Text
  import opened JsonPointer
  import opened MediaSurfaces
  import opened MediaAudit
  import opened ServerTools
  import opened BodySanitizer
  import MediaMeaning

  /** A place that holds a JSON value and may be overwritten. */
  class JsonSlot {
    var value: Json

    constructor (value: Json)
      ensures this.value == value
    {
      this.value := value;
    }
  }

  class AuditLog {
    var items: seq<StrippedItem>

    constructor ()
      ensures items == []
    {
      items := [];
    }

    method Push(item: StrippedItem)
      modifies this
      ensures items == old(items) + [item]
    {
      items := items + [item];
    }
  }

  /** The records of an audit of the value found at `at`. */
  function Records(at: seq<Step>, audit: seq<Removal>): (items: seq<StrippedItem>)
    ensures |items| == |audit|
  {
    seq(|audit|, i requires 0 <= i < |audit| =>
      StrippedItem(Render(at + audit[i].path), audit[i].capability, Some(audit[i].uri)))
  }

  lemma RecordsConcat(at: seq<Step>, a: seq<Removal>, b: seq<Removal>)
    ensures Records(at, a + b) == Records(at, a) + Records(at, b)
  {
  }

  lemma RecordsBelow(at: seq<Step>, step: Step, audit: seq<Removal>)
    ensures Records(at, AllBelow(step, audit)) == Records(at + [step], audit)
  {
    forall i | 0 <= i < |audit|
      ensures at + ([step] + audit[i].path) == (at + [step]) + audit[i].path
    {
    }
  }

  lemma {:induction false} RenderConcat(p: seq<Step>, q: seq<Step>)
    ensures Render(p + q) == Render(p) + Render(q)
    decreases |p|
  {
    if p == [] {
      assert p + q == q;
    } else {
      assert (p + q)[0] == p[0] && (p + q)[1..] == p[1..] + q;
      RenderConcat(p[1..], q);
    }
  }

  lemma RenderOne(at: seq<Step>, step: Step)
    ensures Render(at + [step]) == Render(at) + "/" + Token(step)
  {
    RenderConcat(at, [step]);
    assert Render([step]) == "/" + Token(step) + "";
  }

  // ---------- References of one item ----------

  /** A reference with its pointer spelled out. */
  datatype Spelled = Spelled(path: string, capability: string, uri: string)

  function SpelledAll(refs: seq<Reference>): seq<Spelled> {
    seq(|refs|, i requires 0 <= i < |refs| => Spelled(Render(refs[i].suffix), refs[i].capability, refs[i].uri))
  }

  method Add(value: Json, references: seq<Spelled>, path: string, capability: string, ghost suffix: seq<Step>)
    returns (extended: seq<Spelled>)
    requires path == Render(suffix) && NamesPath(suffix)
    ensures extended == references + SpelledAll(Found(value, Candidate(suffix, capability)))
  {
    extended := references;
    PointerOfNames(value, suffix);
    var target := Pointer(value, path);
    if target.Some? && target.value.AsStr().Some? {
      var uri := target.value.text;
      if !IsInline(uri) {
        extended := extended + [Spelled(path, capability, uri)];
      }
    }
  }

  lemma RenderNames(outer: string, inner: string)
    ensures Render([Key(outer)]) == "/" + outer
    ensures Render([Key(outer), Key(inner)]) == "/" + outer + "/" + inner
  {
    RenderOne([], Key(outer));
    assert [] + [Key(outer)] == [Key(outer)];
    RenderOne([Key(outer)], Key(inner));
    assert [Key(outer)] + [Key(inner)] == [Key(outer), Key(inner)];
  }

  lemma Spellings()
    ensures Render(FILE_URL) == "/file_url" && Render(IMAGE_URL) == "/image_url"
    ensures Render(IMAGE_URL_URL) == "/image_url/url"
    ensures Render(SOURCE_TYPE) == "/source/type" && Render(SOURCE_URL) == "/source/url"
    ensures NamesPath(FILE_URL) && NamesPath(IMAGE_URL) && NamesPath(IMAGE_URL_URL)
    ensures NamesPath(SOURCE_TYPE) && NamesPath(SOURCE_URL)
  {
    hide Render;
    PlainNames();
    RenderNames("file_url", "");
    RenderNames("image_url", "url");
    RenderNames("source", "type");
    RenderNames("source", "url");
    assert "/file_url" == "/" + "file_url" && "/image_url" == "/" + "image_url";
    assert "/image_url/url" == "/" + "image_url" + "/" + "url";
    assert "/source/type" == "/" + "source" + "/" + "type" && "/source/url" == "/" + "source" + "/" + "url";
  }

  const FILE_PATHS := [
    ("/fileData/fileUri", "fileData.fileUri"),
    ("/fileData/file_uri", "fileData.file_uri"),
    ("/file_data/file_uri", "file_data.file_uri"),
    ("/file_data/fileUri", "file_data.fileUri")
  ]

  lemma FilePathTexts()
    ensures "/fileData/fileUri" == "/" + "fileData" + "/" + "fileUri"
    ensures "/fileData/file_uri" == "/" + "fileData" + "/" + "file_uri"
    ensures "/file_data/file_uri" == "/" + "file_data" + "/" + "file_uri"
    ensures "/file_data/fileUri" == "/" + "file_data" + "/" + "fileUri"
  {
  }

  /** The table of file paths spells out the candidates that do not depend on the type. */
  predicate Spells(paths: seq<(string, string)>, cs: seq<Candidate>) {
    && |paths| == |cs|
    && forall i | 0 <= i < |cs| :: paths[i] == (Render(cs[i].suffix), cs[i].capability) && NamesPath(cs[i].suffix)
  }

  lemma FilePathSpellings()
    ensures Spells(FILE_PATHS, UNTYPED_CANDIDATES)
  {
    hide Render, NamesPath, PlainPath;
    UntypedDistinct();
    assert forall i | 0 <= i < 4 :: UNTYPED_CANDIDATES[i] in UNTYPED_CANDIDATES;
    RenderNames("fileData", "fileUri");
    RenderNames("fileData", "file_uri");
    RenderNames("file_data", "file_uri");
    RenderNames("file_data", "fileUri");
    FilePathTexts();
  }

  lemma FoundAllTyped(v: Json, typed: seq<Candidate>)
    ensures typed == [] ==> FoundAll(v, typed) == []
    ensures |typed| == 1 ==> FoundAll(v, typed) == Found(v, typed[0])
    ensures |typed| == 2 ==> FoundAll(v, typed) == Found(v, typed[0]) + Found(v, typed[1])
  {
    if |typed| == 2 {
      assert FoundAll(v, typed) == Found(v, typed[0]) + FoundAll(v, typed[1..]);
      assert FoundAll(v, typed[1..]) == Found(v, typed[1]) + [];
    }
  }

  lemma SpelledTyped(v: Json, typed: seq<Candidate>)
    ensures SpelledAll([]) == []
    ensures |typed| == 1 ==> [] + SpelledAll(Found(v, typed[0])) == SpelledAll(Found(v, typed[0]))
    ensures |typed| == 2 ==>
              [] + SpelledAll(Found(v, typed[0])) + SpelledAll(Found(v, typed[1]))
              == SpelledAll(Found(v, typed[0]) + Found(v, typed[1]))
  {
    hide Found;
  }

  lemma {:induction false} FoundAllConcat(v: Json, a: seq<Candidate>, b: seq<Candidate>)
    ensures FoundAll(v, a + b) == FoundAll(v, a) + FoundAll(v, b)
    decreases |a|
  {
    hide Found;
    if a == [] {
      assert a + b == b;
    } else {
      assert (a + b)[0] == a[0] && (a + b)[1..] == a[1..] + b;
      FoundAllConcat(v, a[1..], b);
    }
  }

  lemma SpelledConcat(a: seq<Reference>, b: seq<Reference>)
    ensures SpelledAll(a + b) == SpelledAll(a) + SpelledAll(b)
  {
  }

  method TypedReferences(value: Json) returns (references: seq<Spelled>)
    ensures references == SpelledAll(FoundAll(value, TypedCandidates(value)))
  {
    hide Found, Pointer, Render, NamesPath, PlainPath, FoundAll, SpelledAll;
    Spellings();
    FoundAllTyped(value, TypedCandidates(value));
    SpelledTyped(value, TypedCandidates(value));
    references := [];
    var kind := value.GetStr("type");
    if kind == Some("input_file") {
      references := Add(value, references, "/file_url", "input_file.file_url", FILE_URL);
    } else if kind == Some("input_image") {
      references := Add(value, references, "/image_url", "input_image.image_url", IMAGE_URL);
      references := Add(value, references, "/image_url/url", "input_image.image_url", IMAGE_URL_URL);
    } else if kind == Some("image_url") {
      references := Add(value, references, "/image_url/url", "image_url.url", IMAGE_URL_URL);
      references := Add(value, references, "/image_url", "image_url.url", IMAGE_URL);
    } else if kind == Some("image") || kind == Some("document") {
      PointerOfNames(value, SOURCE_TYPE);
      if Pointer(value, "/source/type") == Some(String("url")) {
        references := Add(value, references, "/source/url", "source.url", SOURCE_URL);
      }
    }
  }

  method AddAll(value: Json, references: seq<Spelled>, paths: seq<(string, string)>, ghost cs: seq<Candidate>)
    returns (extended: seq<Spelled>)
    requires Spells(paths, cs)
    ensures extended == references + SpelledAll(FoundAll(value, cs))
  {
    hide Found, SpelledAll, Render, NamesPath;
    extended := references;
    SpelledNone();
    assert cs[..0] == [];
    for i := 0 to |paths|
      invariant extended == references + SpelledAll(FoundAll(value, cs[..i]))
    {
      extended := Add(value, extended, paths[i].0, paths[i].1, cs[i].suffix);
      assert cs[..i + 1] == cs[..i] + [cs[i]];
      FoundAllConcat(value, cs[..i], [cs[i]]);
      FoundAllTyped(value, [cs[i]]);
      SpelledConcat(FoundAll(value, cs[..i]), Found(value, cs[i]));
    }
    assert cs[..|paths|] == cs;
  }

  lemma SpelledNone()
    ensures SpelledAll([]) == []
  {
  }

  /** The spelled references are the remote URIs at the listed pointers. */
  lemma SpelledExact(value: Json)
    ensures forall r <- SpelledAll(References(value)) ::
              MediaMeaning.RemoteAt(value, r.path, r.capability, r.uri)
    ensures forall pointer, capability, uri | MediaMeaning.RemoteAt(value, pointer, capability, uri) ::
              Spelled(pointer, capability, uri) in SpelledAll(References(value))
  {
    hide References, MediaMeaning.RemoteAt, Render;
    var refs, spelled := References(value), SpelledAll(References(value));
    forall r <- spelled
      ensures MediaMeaning.RemoteAt(value, r.path, r.capability, r.uri)
    {
      var i :| 0 <= i < |spelled| && spelled[i] == r;
      MediaMeaning.ReferenceIsRemote(value, refs[i]);
    }
    forall pointer, capability, uri | MediaMeaning.RemoteAt(value, pointer, capability, uri)
      ensures Spelled(pointer, capability, uri) in spelled
    {
      var r := MediaMeaning.RemoteIsReference(value, pointer, capability, uri);
      var i :| 0 <= i < |refs| && refs[i] == r;
      assert spelled[i] == Spelled(pointer, capability, uri);
    }
  }

  method RemoteMediaReferences(value: Json) returns (references: seq<Spelled>)
    ensures references == SpelledAll(References(value))
    ensures forall r <- references :: MediaMeaning.RemoteAt(value, r.path, r.capability, r.uri)
    ensures forall pointer, capability, uri | MediaMeaning.RemoteAt(value, pointer, capability, uri) ::
              Spelled(pointer, capability, uri) in references
  {
    hide TypedCandidates, FoundAll, SpelledAll, Spells, MediaMeaning.RemoteAt;
    SpelledExact(value);
    references := TypedReferences(value);
    FilePathSpellings();
    references := AddAll(value, references, FILE_PATHS, UNTYPED_CANDIDATES);
    FoundAllConcat(value, TypedCandidates(value), UNTYPED_CANDIDATES);
    SpelledConcat(FoundAll(value, TypedCandidates(value)), FoundAll(value, UNTYPED_CANDIDATES));
  }

  // ---------- Media arrays ----------

  method SanitizeItems(original: seq<Json>, stripped: AuditLog, prefix: string, ghost at: seq<Step>)
    returns (items: seq<Json>)
    requires prefix == Render(at)
    modifies stripped
    ensures items == CleanItems(original)
    ensures stripped.items == old(stripped.items) + Records(at, ItemsAudit(original, 0))
    decreases original, 1
  {
    hide References, Records, ItemAudit, CleanItem, AllBelow, Render, Decimal;
    items := [];
    assert original[0..] == original;
    for index := 0 to |original|
      invariant items + CleanItems(original[index..]) == CleanItems(original)
      invariant stripped.items + Records(at, ItemsAudit(original[index..], index))
             == old(stripped.items) + Records(at, ItemsAudit(original, 0))
    {
      ghost var rest, before := original[index..], stripped.items;
      assert rest[0] == original[index] && rest[1..] == original[index + 1..];
      RenderOne(at, At(index));
      var path := prefix + "/" + Decimal(index);
      var kept := SanitizeItem(original[index], stripped, path, at + [At(index)]);
      items := items + kept;
      RecordsBelow(at, At(index), ItemAudit(original[index]));
      RecordsConcat(at, AllBelow(At(index), ItemAudit(original[index])), ItemsAudit(rest[1..], index + 1));
    }
  }

  lemma RecordsOfReferences(at: seq<Step>, refs: seq<Reference>, i: nat)
    requires i < |refs|
    ensures Records(at, RecordedAll(refs[..i + 1]))
         == Records(at, RecordedAll(refs[..i]))
            + [StrippedItem(Render(at) + Render(refs[i].suffix), refs[i].capability, Some(refs[i].uri))]
  {
    RenderConcat(at, refs[i].suffix);
    assert RecordedAll(refs[..i + 1]) == RecordedAll(refs[..i]) + [Recorded(refs[i])];
  }

  /** One item: dropped with a record per reference, or kept with its nested fields sanitized. */
  method SanitizeItem(original: Json, stripped: AuditLog, path: string, ghost at: seq<Step>) returns (kept: seq<Json>)
    requires path == Render(at)
    modifies stripped
    ensures kept == if References(original) == [] then [CleanItem(original)] else []
    ensures stripped.items == old(stripped.items) + Records(at, ItemAudit(original))
    decreases original, |NESTED_FIELDS| + 1
  {
    hide References, Records;
    var references := RemoteMediaReferences(original);
    ghost var refs := References(original);
    if references == [] {
      var item := new JsonSlot(original);
      if IsContainer(original) {
        SanitizeMediaArrays(item, stripped, path, NESTED_FIELDS, at);
      } else {
        assert Records(at, []) == [];
      }
      kept := [item.value];
    } else {
      kept := [];
      assert refs[..0] == [] && Records(at, RecordedAll([])) == [];
      for i := 0 to |references|
        invariant stripped.items == old(stripped.items) + Records(at, RecordedAll(refs[..i]))
      {
        var r := references[i];
        stripped.Push(StrippedItem(path + r.path, r.capability, Some(r.uri)));
        RecordsOfReferences(at, refs, i);
      }
      assert refs[..|references|] == refs;
    }
  }

  lemma CleanNextField(v: Json, fields: seq<string>, i: nat)
    requires i < |fields| && DistinctNames(fields)
    ensures CleanFields(v, fields[..i]).Get(fields[i]) == v.Get(fields[i])
    ensures CleanFields(v, fields[..i + 1])
         == if v.GetArray(fields[i]).Some?
            then Object(CleanFields(v, fields[..i]).fields[fields[i] := Array(CleanItems(v.GetArray(fields[i]).value))])
            else CleanFields(v, fields[..i])
  {
    hide CleanItems;
    var some, more := CleanFields(v, fields[..i]), CleanFields(v, fields[..i + 1]);
    assert fields[i] !in fields[..i];
    assert forall k :: k in fields[..i + 1] <==> k in fields[..i] || k == fields[i];
    if v.Object? {
      if v.GetArray(fields[i]).Some? {
        assert more.fields == some.fields[fields[i] := Array(CleanItems(v.GetArray(fields[i]).value))];
      } else {
        assert more.fields == some.fields;
      }
    }
  }

  /** One field; `v` is the body before any of its fields were rewritten. */
  method SanitizeMediaArray(
      body: JsonSlot, stripped: AuditLog, prefix: string, field: string, ghost at: seq<Step>, ghost v: Json)
    requires prefix == Render(at) && body.value.Get(field) == v.Get(field)
    modifies body, stripped
    ensures body.value == if v.GetArray(field).Some?
                          then Object(old(body.value).fields[field := Array(CleanItems(v.GetArray(field).value))])
                          else old(body.value)
    ensures stripped.items == old(stripped.items) + Records(at, FieldAudit(v, field))
    decreases v, 0
  {
    hide References, Records, CleanItems, ItemsAudit, Render, AllBelow;
    var found := body.value.GetArray(field);
    if found.Some? {
      RenderOne(at, Key(field));
      RecordsBelow(at, Key(field), ItemsAudit(found.value, 0));
      var items := SanitizeItems(found.value, stripped, prefix + "/" + field, at + [Key(field)]);
      body.value := Object(body.value.fields[field := Array(items)]);
    } else {
      RecordsNone(at);
    }
  }

  lemma RecordsNone(at: seq<Step>)
    ensures Records(at, []) == []
  {
  }

  lemma CleanNothing(v: Json)
    ensures CleanFields(v, []) == v
  {
    assert v.Object? ==> CleanFields(v, []).fields == v.fields;
  }

  method SanitizeMediaArrays(
      body: JsonSlot, stripped: AuditLog, prefix: string, fields: seq<string>, ghost at: seq<Step>)
    requires prefix == Render(at) && DistinctNames(fields)
    modifies body, stripped
    ensures body.value == CleanFields(old(body.value), fields)
    ensures stripped.items == old(stripped.items) + Records(at, FieldsAudit(old(body.value), fields))
    decreases body.value, |fields|
  {
    hide References, Records, CleanItems, CleanFields, FieldAudit, Render;
    ghost var v := body.value;
    ghost var all := Records(at, FieldsAudit(v, fields));
    assert fields[..0] == [] && fields[0..] == fields;
    CleanNothing(v);
    for i := 0 to |fields|
      invariant body.value == CleanFields(v, fields[..i])
      invariant stripped.items + Records(at, FieldsAudit(v, fields[i..])) == old(stripped.items) + all
    {
      ghost var rest := fields[i..];
      assert rest[0] == fields[i] && rest[1..] == fields[i + 1..];
      CleanNextField(v, fields, i);
      RecordsConcat(at, FieldAudit(v, fields[i]), FieldsAudit(v, rest[1..]));
      SanitizeMediaArray(body, stripped, prefix, fields[i], at, v);
    }
    assert fields[..|fields|] == fields && fields[|fields|..] == [];
    RecordsNone(at);
  }

  // ---------- Envelopes ----------

  /** The body with its media arrays cleaned, and those of its envelopes that are listed. */
  ghost function CleanWith(v: Json, envelopes: seq<string>): Json {
    if !v.Object? then v
    else Object(map k | k in v.fields ::
                  if k in MEDIA_FIELDS && v.fields[k].Array? then Array(CleanItems(v.fields[k].items))
                  else if k in envelopes && v.fields[k].Object? then CleanBody(v.fields[k])
                  else v.fields[k])
  }

  lemma CleanWithEnds(v: Json)
    ensures CleanWith(v, []) == CleanFields(v, MEDIA_FIELDS)
    ensures CleanWith(v, ENVELOPE_FIELDS) == CleanBody(v)
  {
    hide CleanItems;
    if v.Object? {
      assert CleanWith(v, []).fields == CleanFields(v, MEDIA_FIELDS).fields;
      assert CleanWith(v, ENVELOPE_FIELDS).fields == CleanBody(v).fields;
    }
  }

  lemma CleanNextEnvelope(v: Json, i: nat)
    requires i < |ENVELOPE_FIELDS|
    ensures var field, some, more :=
              ENVELOPE_FIELDS[i], CleanWith(v, ENVELOPE_FIELDS[..i]), CleanWith(v, ENVELOPE_FIELDS[..i + 1]);
            && some.GetObject(field) == v.GetObject(field)
            && more == if v.GetObject(field).Some?
                       then Object(some.fields[field := CleanBody(v.GetObject(field).value)]) else some
  {
    hide CleanItems, CleanBody;
    var field := ENVELOPE_FIELDS[i];
    var some, more := CleanWith(v, ENVELOPE_FIELDS[..i]), CleanWith(v, ENVELOPE_FIELDS[..i + 1]);
    assert DistinctNames(ENVELOPE_FIELDS);
    assert field !in ENVELOPE_FIELDS[..i];
    MediaIsNoEnvelope(field);
    assert ENVELOPE_FIELDS[..i + 1] == ENVELOPE_FIELDS[..i] + [field];
    if v.Object? {
      if v.GetObject(field).Some? {
        assert more.fields == some.fields[field := CleanBody(v.GetObject(field).value)];
      } else {
        assert more.fields == some.fields;
      }
    }
  }

  /** One envelope; `v` is the body before any of its fields were rewritten. */
  method SanitizeEnvelope(
      body: JsonSlot, stripped: AuditLog, prefix: string, field: string, ghost at: seq<Step>, ghost v: Json)
    requires prefix == Render(at) && body.value.GetObject(field) == v.GetObject(field)
    modifies body, stripped
    ensures body.value == if v.GetObject(field).Some?
                          then Object(old(body.value).fields[field := CleanBody(v.GetObject(field).value)])
                          else old(body.value)
    ensures stripped.items == old(stripped.items) + Records(at, EnvelopeAudit(v, field))
    decreases v, 0
  {
    hide Records, CleanBody, BodyAudit, Render, AllBelow;
    var envelope := body.value.GetObject(field);
    if envelope.Some? {
      RenderOne(at, Key(field));
      RecordsBelow(at, Key(field), BodyAudit(envelope.value));
      var slot := new JsonSlot(envelope.value);
      SanitizeRemoteMedia(slot, stripped, prefix + "/" + field, at + [Key(field)]);
      body.value := Object(body.value.fields[field := slot.value]);
    } else {
      RecordsNone(at);
    }
  }

  method SanitizeEnvelopes(
      body: JsonSlot, stripped: AuditLog, prefix: string, fields: seq<string>, ghost at: seq<Step>, ghost v: Json)
    requires prefix == Render(at) && fields == ENVELOPE_FIELDS && body.value == CleanWith(v, [])
    modifies body, stripped
    ensures body.value == CleanWith(v, ENVELOPE_FIELDS)
    ensures stripped.items == old(stripped.items) + Records(at, EnvelopesAudit(v, ENVELOPE_FIELDS))
    decreases v, |ENVELOPE_FIELDS|
  {
    hide Records, CleanBody, EnvelopeAudit, CleanWith, Render;
    ghost var all := Records(at, EnvelopesAudit(v, fields));
    assert fields[..0] == [] && fields[0..] == fields;
    for i := 0 to |fields|
      invariant body.value == CleanWith(v, fields[..i])
      invariant stripped.items + Records(at, EnvelopesAudit(v, fields[i..])) == old(stripped.items) + all
    {
      ghost var rest := fields[i..];
      assert rest[0] == fields[i] && rest[1..] == fields[i + 1..];
      CleanNextEnvelope(v, i);
      RecordsConcat(at, EnvelopeAudit(v, fields[i]), EnvelopesAudit(v, rest[1..]));
      SanitizeEnvelope(body, stripped, prefix, fields[i], at, v);
    }
    assert fields[..|fields|] == fields && fields[|fields|..] == [];
    RecordsNone(at);
  }

  method SanitizeRemoteMedia(body: JsonSlot, stripped: AuditLog, prefix: string, ghost at: seq<Step>)
    requires prefix == Render(at)
    modifies body, stripped
    ensures body.value == CleanBody(old(body.value))
    ensures stripped.items == old(stripped.items) + Records(at, BodyAudit(old(body.value)))
    decreases body.value, |MEDIA_FIELDS| + 1
  {
    hide Records, CleanFields, CleanWith, FieldsAudit, EnvelopesAudit, Render;
    ghost var v := body.value;
    CleanWithEnds(v);
    assert DistinctNames(MEDIA_FIELDS);
    RecordsConcat(at, FieldsAudit(v, MEDIA_FIELDS), EnvelopesAudit(v, ENVELOPE_FIELDS));
    SanitizeMediaArrays(body, stripped, prefix, MEDIA_FIELDS, at);
    SanitizeEnvelopes(body, stripped, prefix, ENVELOPE_FIELDS, at, v);
  }

  // ---------- Tools ----------

  method StripServerToolsFromArray(
      tools: seq<Json>, policy: DelegatedFetchPolicy, stripped: AuditLog, fieldPrefix: string, ghost at: seq<Step>)
    returns (kept: seq<Json>, removed: set<string>)
    requires fieldPrefix == Render(at)
    modifies stripped
    ensures kept == StripTools(tools, AllowedTools(policy))
    ensures removed == RemovedKinds(tools, AllowedTools(policy))
    ensures stripped.items == old(stripped.items) + Reports(ToolFindings(tools, AllowedTools(policy), at))
  {
    hide HostedKind, Render, Decimal, AllowedTools, ToolRecords, ToolFindings, Reports;
    hide RemovedKinds, StripTools, ToolsAudit;
    var allowed := AllowedTools(policy);
    kept, removed := [], {};
    ghost var all := ToolRecords(at, ToolsAudit(tools, allowed));
    assert tools[0..] == tools;
    for index := 0 to |tools|
      invariant kept + StripTools(tools[index..], allowed) == StripTools(tools, allowed)
      invariant removed + RemovedKinds(tools[index..], allowed) == RemovedKinds(tools, allowed)
      invariant stripped.items + ToolRecords(at, ToolsAudit(tools[index..], allowed, index))
                == old(stripped.items) + all
    {
      ghost var rest := tools[index..];
      assert rest[0] == tools[index] && rest[1..] == tools[index + 1..];
      RemovedKindsCons(rest, allowed);
      StripToolsNext(rest, allowed);
      var kind := HostedKind(tools[index], allowed);
      ToolRecordsNext(at, rest, allowed, index);
      if kind.Some? {
        removed := removed + {Lower(kind.value)};
        var path := fieldPrefix + "/" + Decimal(index);
        assert path == Render(at + [At(index)]) by { RenderOne(at, At(index)); }
        stripped.Push(StrippedItem(path, "server_tool:" + kind.value, None));
      } else {
        kept := kept + [tools[index]];
      }
    }
    assert tools[|tools|..] == [];
    RemovedKindsNone(allowed);
    StripToolsNone(at, allowed, |tools|);
    ToolRecordsAreReports(tools, allowed, at);
  }

  lemma StripToolsNone(at: seq<Step>, allowed: set<string>, first: nat)
    ensures StripTools([], allowed) == [] && ToolRecords(at, ToolsAudit([], allowed, first)) == []
  {
  }

  lemma StripToolsNext(tools: seq<Json>, allowed: set<string>)
    requires tools != []
    ensures StripTools(tools, allowed)
         == (if HostedKind(tools[0], allowed).Some? then [] else [tools[0]]) + StripTools(tools[1..], allowed)
  {
  }

  /** The records of a tools audit of the array found at `at`. */
  function ToolRecords(at: seq<Step>, audit: seq<ToolRemoval>): (items: seq<StrippedItem>)
    ensures |items| == |audit|
  {
    seq(|audit|, i requires 0 <= i < |audit| =>
      StrippedItem(Render(at + [At(audit[i].index)]), "server_tool:" + audit[i].kind, None))
  }

  lemma ToolRecordsNext(at: seq<Step>, tools: seq<Json>, allowed: set<string>, first: nat)
    requires tools != []
    ensures ToolRecords(at, ToolsAudit(tools, allowed, first))
         == (if HostedKind(tools[0], allowed).Some?
             then [StrippedItem(Render(at + [At(first)]), "server_tool:" + HostedKind(tools[0], allowed).value, None)]
             else [])
            + ToolRecords(at, ToolsAudit(tools[1..], allowed, first + 1))
  {
    hide HostedKind, Render;
  }

  lemma ToolRecordsAreReports(tools: seq<Json>, allowed: set<string>, at: seq<Step>)
    ensures ToolRecords(at, ToolsAudit(tools, allowed)) == Reports(ToolFindings(tools, allowed, at))
  {
    hide HostedKind, Render, ToolsAudit;
  }

  method NormalizeToolChoice(body: JsonSlot, removedToolTypes: set<string>, stripped: AuditLog)
    modifies body, stripped
    ensures body.value == Repaired(old(body.value), removedToolTypes)
    ensures stripped.items
            == old(stripped.items)
               + (if NeedsRepair(old(body.value), removedToolTypes) then [Report(ChoiceRepaired)] else [])
  {
    if removedToolTypes == {} {
      return;
    }
    var remainingTools := if body.value.GetArray("tools").Some? then |body.value.GetArray("tools").value| else 0;
    var choice := body.value.Get("tool_choice");
    if choice.None? {
      return;
    }
    var referencesRemoved := Names(choice.value, removedToolTypes);
    var requiresMissingTool := remainingTools == 0 && choice.value.AsStr() !in [Some("auto"), Some("none")];
    if referencesRemoved || requiresMissingTool {
      body.value := Object(body.value.fields["tool_choice" := String("auto")]);
      stripped.Push(StrippedItem("/tool_choice", "tool_choice_normalized", None));
    }
  }

  /** Strips the `tools` array of a value, if it has one, and returns the types removed. */
  method SanitizeServerTools(
      body: JsonSlot, policy: DelegatedFetchPolicy, stripped: AuditLog, fieldPrefix: string, ghost at: seq<Step>)
    returns (removed: set<string>)
    requires fieldPrefix == Render(at)
    modifies body, stripped
    ensures body.value == Stripped(old(body.value), AllowedTools(policy))
    ensures removed == RemovedKinds(Tools(old(body.value)), AllowedTools(policy))
    ensures stripped.items
         == old(stripped.items) + Reports(ToolFindings(Tools(old(body.value)), AllowedTools(policy), at))
  {
    hide HostedKind, StripTools, RemovedKinds, ToolsAudit;
    var tools := body.value.GetArray("tools");
    if tools.None? {
      NoToolsNoFindings([], AllowedTools(policy), at);
      RemovedKindsNone(AllowedTools(policy));
      return {};
    }
    var kept;
    kept, removed := StripServerToolsFromArray(tools.value, policy, stripped, fieldPrefix, at);
    body.value := Object(body.value.fields["tools" := Array(kept)]);
  }

  method SanitizeRealtimeSessionUpdate(body: JsonSlot, policy: DelegatedFetchPolicy, stripped: AuditLog)
    modifies body, stripped
    ensures old(body.value).Get("session").None? ==>
              body.value == old(body.value) && stripped.items == old(stripped.items)
    ensures old(body.value).Get("session").Some? ==>
              var session := old(body.value).fields["session"];
              && body.value
                 == Object(old(body.value).fields["session" := StripHosted(session, AllowedTools(policy))])
              && stripped.items == old(stripped.items)
                                   + Reports(ToolFindings(Tools(session), AllowedTools(policy), SESSION_TOOLS_PATH))
                                   + Reports(ChoiceFindings(session, AllowedTools(policy)))
  {
    hide HostedKind, StripTools, RemovedKinds, ToolsAudit, NeedsRepair, Repaired, Stripped, ToolFindings;
    var session := body.value.Get("session");
    if session.None? {
      return;
    }
    ToolPathSpellings();
    var slot := new JsonSlot(session.value);
    var removed := SanitizeServerTools(slot, policy, stripped, "/session/tools", SESSION_TOOLS_PATH);
    if removed != {} {
      NormalizeToolChoice(slot, removed, stripped);
    } else {
      StripHostedUnchanged(session.value, AllowedTools(policy));
      NothingRepaired(slot.value);
    }
    body.value := Object(body.value.fields["session" := slot.value]);
  }

  lemma NothingRepaired(v: Json)
    ensures Repaired(v, {}) == v && !NeedsRepair(v, {})
  {
  }

  lemma NothingToStrip(allowed: set<string>, at: seq<Step>)
    ensures Reports(ToolFindings(Tools(Null), allowed, at)) == [] && Reports(ChoiceFindings(Null, allowed)) == []
  {
    RemovedKindsNone(allowed);
  }

  lemma ToolPathSpellings()
    ensures Render(TOOLS_PATH) == "/tools" && Render(SESSION_TOOLS_PATH) == "/session/tools"
  {
    hide Render;
    RenderNames("session", "tools");
    RenderNames("tools", "");
    assert "/tools" == "/" + "tools" && "/session/tools" == "/" + "session" + "/" + "tools";
  }

  // ---------- The whole call ----------

  /** The tool records of the media-cleaned body are those of the body itself. */
  lemma ToolFindingsOfCleaned(body: Json, policy: DelegatedFetchPolicy)
    ensures var allowed, media := AllowedTools(policy), AfterMedia(body, policy);
            && Tools(media) == Tools(body) && ChoiceFindings(media, allowed) == ChoiceFindings(body, allowed)
            && var session := SessionOf(StripHosted(media, allowed));
               && Tools(session) == Tools(SessionOf(body))
               && ChoiceFindings(session, allowed) == ChoiceFindings(SessionOf(body), allowed)
  {
    hide StripHosted, CleanBody, HostedKind, RemovedKinds, StripTools;
    var allowed, media := AllowedTools(policy), AfterMedia(body, policy);
    CleanBodyMembers(body);
    CleanBodyMembers(SessionOf(body));
    StripHostedGet(media, allowed, "session");
    StripHostedGet(media, allowed, "type");
    assert "type" in ["type", "tools", "tool_choice"] && "tool_choice" in ["type", "tools", "tool_choice"];
    SameChoiceFindings(media, body, allowed);
    SameChoiceFindings(SessionOf(StripHosted(media, allowed)), SessionOf(body), allowed);
  }

  lemma SameChoiceFindings(v: Json, w: Json, allowed: set<string>)
    requires Tools(v) == Tools(w) && v.Get("tool_choice") == w.Get("tool_choice")
    ensures ChoiceFindings(v, allowed) == ChoiceFindings(w, allowed)
  {
    hide HostedKind, RemovedKinds, StripTools;
    assert "tools" != "tool_choice";
    assert Stripped(v, allowed).Get("tool_choice") == v.Get("tool_choice");
    assert Stripped(w, allowed).Get("tool_choice") == w.Get("tool_choice");
    ChoiceIsUsable(v, allowed);
    StrippedTools(v, allowed);
    StrippedTools(w, allowed);
  }

  lemma StrippedTools(v: Json, allowed: set<string>)
    ensures Tools(Stripped(v, allowed)) == StripTools(Tools(v), allowed)
  {
    hide HostedKind;
  }

  lemma ReportsConcat(a: seq<Finding>, b: seq<Finding>)
    ensures Reports(a + b) == Reports(a) + Reports(b)
  {
    hide Report;
  }

  lemma MediaRecordsAreReports(body: Json, policy: DelegatedFetchPolicy)
    requires !policy.allowRemoteContent
    ensures Records([], BodyAudit(body)) == Reports(MediaFindings(body, policy))
  {
    hide BodyAudit, Render;
    forall i | 0 <= i < |BodyAudit(body)|
      ensures [] + BodyAudit(body)[i].path == BodyAudit(body)[i].path
    {
    }
  }

  /** The entry point: rewrites the body in place and returns the audit trail. */
  method Sanitize(body: JsonSlot, policy: DelegatedFetchPolicy) returns (stripped: AuditLog)
    modifies body
    ensures fresh(stripped)
    ensures body.value == Sanitized(old(body.value), policy)
    ensures stripped.items == Reports(Findings(old(body.value), policy))
  {
    hide BodyAudit, Records, Report, HostedKind, RemovedKinds, ToolsAudit, StripTools, NeedsRepair, CleanBody;
    stripped := new AuditLog();
    ghost var v, allowed := body.value, AllowedTools(policy);
    ghost var media := AfterMedia(v, policy);
    if !policy.allowRemoteContent {
      SanitizeRemoteMedia(body, stripped, "", []);
      MediaRecordsAreReports(v, policy);
    }
    ghost var log := Reports(MediaFindings(v, policy));
    assert body.value == media && stripped.items == log;
    ToolFindingsOfCleaned(v, policy);
    ToolPathSpellings();
    var removed := SanitizeServerTools(body, policy, stripped, "/tools", TOOLS_PATH);
    NormalizeToolChoice(body, removed, stripped);
    assert body.value == StripHosted(media, allowed);
    ghost var tools, choice := ToolFindings(Tools(v), allowed, TOOLS_PATH), ChoiceFindings(v, allowed);
    assert stripped.items == log + Reports(tools) + Reports(choice);
    ghost var session := SessionOf(v);
    ghost var inner := ToolFindings(Tools(session), allowed, SESSION_TOOLS_PATH);
    ghost var innerChoice := ChoiceFindings(session, allowed);
    if body.value.GetStr("type") == Some("session.update") {
      SanitizeRealtimeSessionUpdate(body, policy, stripped);
    }
    NothingToStrip(allowed, SESSION_TOOLS_PATH);
    StripHostedGet(media, allowed, "type");
    ReportsConcat(MediaFindings(v, policy), tools);
    ReportsConcat(MediaFindings(v, policy) + tools, choice);
    ReportsConcat(MediaFindings(v, policy) + tools + choice, inner);
    ReportsConcat(MediaFindings(v, policy) + tools + choice + inner, innerChoice);
  }
}
