/**
 The remote-media half of the request-body sanitizer, as functions.

 `CleanBody` says what becomes of a body and `BodyAudit` what is recorded about it. What they are
 for is stated without them: `Surface` are the paths at which a provider may find a media item,
 and `TrimmedBody(a, b)` says that `b` is `a` with some surface items deleted and nothing else
 touched. A cleaned body is the largest trimming in which no surface item refers to remote media.
 */
module MediaSurfaces {
  import opened Wrappers
  import opened Text
  import opened JsonPointer

  const MEDIA_FIELDS: seq<string> := ["input", "messages", "contents", "content", "parts"]
  const NESTED_FIELDS: seq<string> := ["content", "parts"]
  const ENVELOPE_FIELDS: seq<string> := ["item", "response", "request", "session"]

  /** The fields never overlap with one another nor with the members other passes read or write. */
  lemma FieldsApart()
    ensures forall k <- ENVELOPE_FIELDS :: k !in MEDIA_FIELDS
    ensures forall k <- NESTED_FIELDS :: k in MEDIA_FIELDS
    ensures forall k <- ["type", "tools", "tool_choice"] :: k !in MEDIA_FIELDS && k !in ENVELOPE_FIELDS
    ensures forall k <- ["type", "file_url", "image_url", "source", "fileData", "file_data"] :: k !in MEDIA_FIELDS
    ensures forall k <- MEDIA_FIELDS + ENVELOPE_FIELDS :: PlainName(k)
  {
  }

  // ---------- References to remote media ----------

  /** One URI found in an item: where below the item, under which capability name, and its text. */
  datatype Reference = Reference(suffix: seq<Step>, capability: string, uri: string)

  datatype Candidate = Candidate(suffix: seq<Step>, capability: string)

  predicate IsInline(uri: string) {
    var text := TrimStart(uri);
    |text| >= 5 && Lower(text[..5]) == "data:"
  }

  const FILE_URL := [Key("file_url")]
  const IMAGE_URL := [Key("image_url")]
  const IMAGE_URL_URL := [Key("image_url"), Key("url")]
  const SOURCE_TYPE := [Key("source"), Key("type")]
  const SOURCE_URL := [Key("source"), Key("url")]

  /** Where an item of this declared type may hold a URI, in the order of the search. */
  function TypedCandidates(v: Json): seq<Candidate> {
    match v.GetStr("type")
    case Some("input_file") => [Candidate(FILE_URL, "input_file.file_url")]
    case Some("input_image") =>
      [Candidate(IMAGE_URL, "input_image.image_url"), Candidate(IMAGE_URL_URL, "input_image.image_url")]
    case Some("image_url") =>
      [Candidate(IMAGE_URL_URL, "image_url.url"), Candidate(IMAGE_URL, "image_url.url")]
    case Some(kind) =>
      if kind in ["image", "document"] && Walk(v, SOURCE_TYPE) == Some(String("url"))
      then [Candidate(SOURCE_URL, "source.url")] else []
    case None => []
  }

  const UNTYPED_CANDIDATES := [
    Candidate([Key("fileData"), Key("fileUri")], "fileData.fileUri"),
    Candidate([Key("fileData"), Key("file_uri")], "fileData.file_uri"),
    Candidate([Key("file_data"), Key("file_uri")], "file_data.file_uri"),
    Candidate([Key("file_data"), Key("fileUri")], "file_data.fileUri")
  ]

  /** The reference a candidate yields: any string there that is not an inline `data:` URI. */
  function Found(v: Json, c: Candidate): seq<Reference> {
    var target := Walk(v, c.suffix);
    if target.Some? && target.value.String? && !IsInline(target.value.text)
    then [Reference(c.suffix, c.capability, target.value.text)] else []
  }

  function FoundAll(v: Json, cs: seq<Candidate>): seq<Reference> {
    if cs == [] then [] else Found(v, cs[0]) + FoundAll(v, cs[1..])
  }

  function Candidates(v: Json): seq<Candidate> { TypedCandidates(v) + UNTYPED_CANDIDATES }

  function References(v: Json): seq<Reference> { FoundAll(v, Candidates(v)) }

  /** Only untyped values, messages and tool results may nest further content. */
  predicate IsContainer(v: Json) {
    var kind := v.GetStr("type");
    kind.None? || kind.value == "message" || kind.value == "tool_result"
  }

  // ---------- The cleaned body ----------

  function CleanFields(v: Json, fields: seq<string>): (w: Json)
    ensures if v.Object? then w.Object? && w.fields.Keys == v.fields.Keys else w == v
  {
    if !v.Object? then v
    else Object(map k | k in v.fields ::
                  if k in fields && v.fields[k].Array? then Array(CleanItems(v.fields[k].items)) else v.fields[k])
  }

  function CleanItem(item: Json): Json {
    if IsContainer(item) then CleanFields(item, NESTED_FIELDS) else item
  }

  function CleanItems(items: seq<Json>): seq<Json> {
    if items == [] then []
    else if References(items[0]) != [] then CleanItems(items[1..])
    else [CleanItem(items[0])] + CleanItems(items[1..])
  }

  function CleanBody(v: Json): (w: Json)
    ensures if v.Object? then w.Object? && w.fields.Keys == v.fields.Keys else w == v
  {
    if !v.Object? then v
    else Object(map k | k in v.fields ::
                  if k in MEDIA_FIELDS && v.fields[k].Array? then Array(CleanItems(v.fields[k].items))
                  else if k in ENVELOPE_FIELDS && v.fields[k].Object? then CleanBody(v.fields[k])
                  else v.fields[k])
  }

  // ---------- The audit ----------

  /** One removed URI: its path in the original value, the capability removed, and the URI itself. */
  datatype Removal = Removal(path: seq<Step>, capability: string, uri: string)

  function Recorded(r: Reference): Removal { Removal(r.suffix, r.capability, r.uri) }

  function RecordedAll(refs: seq<Reference>): seq<Removal> {
    seq(|refs|, i requires 0 <= i < |refs| => Recorded(refs[i]))
  }

  /** The removal as seen from the value in which `step` leads to the one audited. */
  function Below(step: Step, e: Removal): Removal { e.(path := [step] + e.path) }

  function AllBelow(step: Step, audit: seq<Removal>): seq<Removal> {
    seq(|audit|, i requires 0 <= i < |audit| => Below(step, audit[i]))
  }

  /** What is recorded about one item: its own references, or else those nested in it. */
  function ItemAudit(item: Json): seq<Removal>
    decreases item, |NESTED_FIELDS| + 1
  {
    if References(item) != [] then RecordedAll(References(item))
    else if IsContainer(item) then FieldsAudit(item, NESTED_FIELDS)
    else []
  }

  /** `first` is the index of `items[0]` in the original array. */
  function ItemsAudit(items: seq<Json>, first: nat): seq<Removal> {
    if items == [] then []
    else AllBelow(At(first), ItemAudit(items[0])) + ItemsAudit(items[1..], first + 1)
  }

  function FieldAudit(v: Json, field: string): seq<Removal>
    decreases v, 0
  {
    if v.GetArray(field).Some? then AllBelow(Key(field), ItemsAudit(v.GetArray(field).value, 0)) else []
  }

  function FieldsAudit(v: Json, fields: seq<string>): seq<Removal>
    decreases v, |fields|
  {
    if fields == [] then [] else FieldAudit(v, fields[0]) + FieldsAudit(v, fields[1..])
  }

  function EnvelopeAudit(v: Json, field: string): seq<Removal>
    decreases v, 0
  {
    if v.GetObject(field).Some? then AllBelow(Key(field), BodyAudit(v.GetObject(field).value)) else []
  }

  function EnvelopesAudit(v: Json, fields: seq<string>): seq<Removal>
    decreases v, |fields|
  {
    if fields == [] then [] else EnvelopeAudit(v, fields[0]) + EnvelopesAudit(v, fields[1..])
  }

  function BodyAudit(v: Json): seq<Removal>
    decreases v, |ENVELOPE_FIELDS| + 1
  {
    FieldsAudit(v, MEDIA_FIELDS) + EnvelopesAudit(v, ENVELOPE_FIELDS)
  }

  // ---------- Surfaces, stated on their own ----------

  /**
   `path` leads from an array to one of its items, or on through the nested fields of containers.
   With `outermost`, the items passed on the way must themselves be free of references.
   */
  predicate ItemSurface(items: seq<Json>, path: seq<Step>, outermost: bool)
    decreases |path|
  {
    && path != [] && path[0].At? && path[0].index < |items|
    && (|path| == 1 ||
        var item := items[path[0].index];
        && IsContainer(item) && (outermost ==> References(item) == [])
        && FieldSurface(item, path[1..], NESTED_FIELDS, outermost))
  }

  predicate FieldSurface(v: Json, path: seq<Step>, fields: seq<string>, outermost: bool)
    decreases |path|
  {
    && path != [] && path[0].Key? && path[0].name in fields && v.GetArray(path[0].name).Some?
    && ItemSurface(v.GetArray(path[0].name).value, path[1..], outermost)
  }

  /** `path` leads to a media item of the body, through any envelopes. */
  predicate Surface(v: Json, path: seq<Step>, outermost: bool := false)
    decreases |path|
  {
    || FieldSurface(v, path, MEDIA_FIELDS, outermost)
    || (&& path != [] && path[0].Key? && path[0].name in ENVELOPE_FIELDS
        && v.GetObject(path[0].name).Some?
        && Surface(v.GetObject(path[0].name).value, path[1..], outermost))
  }

  /** No surface item of the body refers to remote media. */
  ghost predicate ReferenceFree(v: Json) {
    forall path | Surface(v, path) :: ReferencesAt(v, path) == []
  }

  function ReferencesAt(v: Json, path: seq<Step>): seq<Reference> {
    if Walk(v, path).Some? then References(Walk(v, path).value) else []
  }

  // ---------- Trimming, stated on its own ----------

  /** `b` is `a` with some items deleted, and the kept ones trimmed in their nested fields. */
  predicate TrimmedItems(a: seq<Json>, b: seq<Json>) {
    if a == [] then b == []
    else
      || TrimmedItems(a[1..], b)
      || (b != [] && TrimmedItem(a[0], b[0]) && TrimmedItems(a[1..], b[1..]))
  }

  predicate TrimmedItem(a: Json, b: Json)
    decreases a, 1
  {
    if IsContainer(a) then TrimmedFields(a, b, NESTED_FIELDS) else a == b
  }

  predicate TrimmedFields(a: Json, b: Json, fields: seq<string>)
    decreases a, 0
  {
    if !a.Object? then a == b
    else
      && b.Object? && b.fields.Keys == a.fields.Keys
      && forall k <- a.fields.Keys ::
           if k in fields && a.fields[k].Array?
           then b.fields[k].Array? && TrimmedItems(a.fields[k].items, b.fields[k].items)
           else a.fields[k] == b.fields[k]
  }

  predicate TrimmedBody(a: Json, b: Json) {
    if !a.Object? then a == b
    else
      && b.Object? && b.fields.Keys == a.fields.Keys
      && forall k <- a.fields.Keys ::
           if k in MEDIA_FIELDS && a.fields[k].Array?
           then b.fields[k].Array? && TrimmedItems(a.fields[k].items, b.fields[k].items)
           else if k in ENVELOPE_FIELDS && a.fields[k].Object? then TrimmedBody(a.fields[k], b.fields[k])
           else a.fields[k] == b.fields[k]
  }
}
