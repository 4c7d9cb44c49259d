/**
 The media half of the sanitizer in the protocols' own words: the types, members and pointers at
 which a request may hold a URI are written out, and so is what an inline `data:` URI looks like.
 None of the statements about `Sanitized` and its records mentions the search of `MediaSurfaces`.
 */
module MediaMeaning {
  import opened Wrappers
  import opened Sequences
  import opened Text
  import opened JsonPointer
  import opened MediaSurfaces
  import opened MediaAudit
  import opened ServerTools
  import opened BodySanitizer

  // ---------- Inline URIs ----------

  predicate DataAt(s: string, start: nat) {
    && start + 5 <= |s|
    && (s[start] == 'd' || s[start] == 'D') && (s[start + 1] == 'a' || s[start + 1] == 'A')
    && (s[start + 2] == 't' || s[start + 2] == 'T') && (s[start + 3] == 'a' || s[start + 3] == 'A')
    && s[start + 4] == ':'
  }

  predicate BlankTo(s: string, end: nat) { end <= |s| && forall i | 0 <= i < end :: s[i] in WHITE_SPACE }

  /** White space, then "data:" in letters of either case. */
  ghost predicate DataUri(s: string) { exists start: nat :: BlankTo(s, start) && DataAt(s, start) }

  lemma {:induction false} TrimStartExact(s: string) returns (start: nat)
    ensures start <= |s| && TrimStart(s) == s[start..]
    ensures forall i | 0 <= i < start :: IsWhitespace(s[i])
    ensures start < |s| ==> !IsWhitespace(s[start])
  {
    if s != [] && IsWhitespace(s[0]) {
      var rest := TrimStartExact(s[1..]);
      start := rest + 1;
      assert forall i | 1 <= i < start :: s[i] == s[1..][i - 1];
    } else {
      start := 0;
    }
  }

  lemma LowerIsData(t: string)
    requires |t| >= 5
    ensures Lower(t[..5]) == "data:" <==> DataAt(t, 0)
  {
    var low := Lower(t[..5]);
    assert low == "data:" <==> low[0] == 'd' && low[1] == 'a' && low[2] == 't' && low[3] == 'a' && low[4] == ':';
  }

  lemma DataIsNoSpace(s: string, start: nat)
    requires DataAt(s, start)
    ensures !IsWhitespace(s[start])
  {
  }

  /** A URI is taken for inline data exactly when it is spelled like that. */
  lemma InlineExact(s: string)
    ensures IsInline(s) <==> DataUri(s)
  {
    hide TrimStart, Lower, IsWhitespace;
    var start := TrimStartExact(s);
    forall c: char
      ensures IsWhitespace(c) <==> c in WHITE_SPACE
    {
      WhitespaceExact(c);
    }
    var t := s[start..];
    if |t| >= 5 {
      LowerIsData(t);
    }
    assert DataAt(t, 0) <==> DataAt(s, start);
    if DataUri(s) {
      var other: nat :| BlankTo(s, other) && DataAt(s, other);
      DataIsNoSpace(s, other);
    }
  }

  // ---------- Where an element may hold a URI ----------

  /** An element is searched at this pointer, and what is found there is recorded as this capability. */
  predicate Searched(element: Json, pointer: string, capability: string) {
    var kind := element.Get("type");
    || (kind == Some(String("input_file")) && pointer == "/file_url" && capability == "input_file.file_url")
    || (&& kind == Some(String("input_image")) && (pointer == "/image_url" || pointer == "/image_url/url")
        && capability == "input_image.image_url")
    || (&& kind == Some(String("image_url")) && (pointer == "/image_url/url" || pointer == "/image_url")
        && capability == "image_url.url")
    || (&& (kind == Some(String("image")) || kind == Some(String("document")))
        && Pointer(element, "/source/type") == Some(String("url"))
        && pointer == "/source/url" && capability == "source.url")
    || (pointer == "/fileData/fileUri" && capability == "fileData.fileUri")
    || (pointer == "/fileData/file_uri" && capability == "fileData.file_uri")
    || (pointer == "/file_data/file_uri" && capability == "file_data.file_uri")
    || (pointer == "/file_data/fileUri" && capability == "file_data.fileUri")
  }

  /** At one of its pointers the element holds a string that is not an inline `data:` URI. */
  ghost predicate RemoteAt(element: Json, pointer: string, capability: string, uri: string) {
    Searched(element, pointer, capability) && Pointer(element, pointer) == Some(String(uri)) && !DataUri(uri)
  }

  ghost predicate Remote(element: Json) {
    exists pointer, capability, uri :: RemoteAt(element, pointer, capability, uri)
  }

  lemma RenderOne(name: string)
    ensures Render([Key(name)]) == "/" + name
  {
    assert [Key(name)][1..] == [];
  }

  lemma RenderTwo(a: string, b: string)
    ensures Render([Key(a), Key(b)]) == "/" + a + "/" + b
  {
    RenderOne(b);
    assert [Key(a), Key(b)][1..] == [Key(b)];
    Assoc("/" + a, "/", b);
  }

  lemma TypedPointers()
    ensures Render(FILE_URL) == "/file_url" && Render(IMAGE_URL) == "/image_url"
    ensures Render(IMAGE_URL_URL) == "/image_url/url"
    ensures Render(SOURCE_TYPE) == "/source/type" && Render(SOURCE_URL) == "/source/url"
  {
    RenderOne("file_url");
    RenderOne("image_url");
    RenderTwo("image_url", "url");
    RenderTwo("source", "type");
    RenderTwo("source", "url");
  }

  lemma CamelPointers()
    ensures Render(UNTYPED_CANDIDATES[0].suffix) == "/fileData/fileUri"
    ensures Render(UNTYPED_CANDIDATES[1].suffix) == "/fileData/file_uri"
  {
    hide Render;
    RenderTwo("fileData", "fileUri");
    RenderTwo("fileData", "file_uri");
  }

  lemma SnakePointers()
    ensures Render(UNTYPED_CANDIDATES[2].suffix) == "/file_data/file_uri"
    ensures Render(UNTYPED_CANDIDATES[3].suffix) == "/file_data/fileUri"
  {
    hide Render;
    RenderTwo("file_data", "file_uri");
    RenderTwo("file_data", "fileUri");
  }

  lemma UntypedPointers()
    ensures Render(UNTYPED_CANDIDATES[0].suffix) == "/fileData/fileUri"
    ensures Render(UNTYPED_CANDIDATES[1].suffix) == "/fileData/file_uri"
    ensures Render(UNTYPED_CANDIDATES[2].suffix) == "/file_data/file_uri"
    ensures Render(UNTYPED_CANDIDATES[3].suffix) == "/file_data/fileUri"
  {
    hide Render;
    CamelPointers();
    SnakePointers();
  }

  /** The searched places, as steps. */
  predicate CandidateFor(element: Json, c: Candidate) { Searched(element, Render(c.suffix), c.capability) }

  lemma SourceType(element: Json)
    ensures Walk(element, SOURCE_TYPE) == Pointer(element, "/source/type")
  {
    TypedPointers();
    PlainNames();
    PointerOfNames(element, SOURCE_TYPE);
  }

  lemma TypedSearched(element: Json)
    ensures forall c <- TypedCandidates(element) :: CandidateFor(element, c)
  {
    hide Render, Walk, Pointer;
    TypedPointers();
    SourceType(element);
  }

  lemma UntypedSearched(element: Json)
    ensures forall c <- UNTYPED_CANDIDATES :: CandidateFor(element, c)
  {
    hide Render, Pointer;
    UntypedPointers();
  }

  lemma SearchedPlace(element: Json, pointer: string, capability: string) returns (c: Candidate)
    requires Searched(element, pointer, capability)
    ensures c in Candidates(element)
    ensures Render(c.suffix) == pointer && c.capability == capability
  {
    hide Render, Walk, Pointer;
    TypedPointers();
    UntypedPointers();
    SourceType(element);
    var typed, kind := TypedCandidates(element), element.Get("type");
    if pointer == "/fileData/fileUri" {
      c := UNTYPED_CANDIDATES[0];
    } else if pointer == "/fileData/file_uri" {
      c := UNTYPED_CANDIDATES[1];
    } else if pointer == "/file_data/file_uri" {
      c := UNTYPED_CANDIDATES[2];
    } else if pointer == "/file_data/fileUri" {
      c := UNTYPED_CANDIDATES[3];
    } else if kind == Some(String("input_file")) {
      c := typed[0];
    } else if kind == Some(String("input_image")) {
      c := if pointer == "/image_url" then typed[0] else typed[1];
    } else if kind == Some(String("image_url")) {
      c := if pointer == "/image_url" then typed[1] else typed[0];
    } else {
      c := typed[0];
    }
  }

  lemma {:induction false} FoundComplete(v: Json, cs: seq<Candidate>, c: Candidate, uri: string)
    requires c in cs && Walk(v, c.suffix) == Some(String(uri)) && !IsInline(uri)
    ensures Reference(c.suffix, c.capability, uri) in FoundAll(v, cs)
    decreases |cs|
  {
    hide Walk, IsInline;
    if c != cs[0] {
      FoundComplete(v, cs[1..], c, uri);
    }
  }

  lemma ReferenceIsRemote(element: Json, r: Reference)
    requires r in References(element)
    ensures RemoteAt(element, Render(r.suffix), r.capability, r.uri)
  {
    hide Walk, Pointer, Render, Searched, IsInline, DataUri;
    var c := FoundFrom(element, Candidates(element), r);
    CandidatesDistinct(element);
    TypedSearched(element);
    UntypedSearched(element);
    PointerOfNames(element, c.suffix);
    InlineExact(r.uri);
  }

  lemma RemoteIsReference(element: Json, pointer: string, capability: string, uri: string) returns (r: Reference)
    requires RemoteAt(element, pointer, capability, uri)
    ensures r in References(element) && Render(r.suffix) == pointer && r.capability == capability && r.uri == uri
  {
    hide Walk, Pointer, Render, IsInline, DataUri, Candidates;
    var c := SearchedPlace(element, pointer, capability);
    CandidatesDistinct(element);
    PointerOfNames(element, c.suffix);
    InlineExact(uri);
    FoundComplete(element, Candidates(element), c, uri);
    r := Reference(c.suffix, capability, uri);
  }

  /** An element has references exactly when one of its pointers holds a remote URI. */
  lemma RemoteExact(element: Json)
    ensures Remote(element) <==> References(element) != []
  {
    hide RemoteAt, References;
    if References(element) != [] {
      ReferenceIsRemote(element, References(element)[0]);
    }
    if Remote(element) {
      var pointer, capability, uri :| RemoteAt(element, pointer, capability, uri);
      var r := RemoteIsReference(element, pointer, capability, uri);
    }
  }

  // ---------- Where media elements stand ----------

  /** Elements with no type, or whose type is one of these two, may hold further arrays of elements. */
  predicate Nests(element: Json) {
    var kind := element.Get("type");
    !(kind.Some? && kind.value.String?) || kind == Some(String("message")) || kind == Some(String("tool_result"))
  }

  /** `path` leads to an element of a named array, or on into the arrays of elements that nest. */
  predicate ElementAt(v: Json, names: seq<string>, path: seq<Step>)
    decreases |path|
  {
    && |path| >= 2 && path[0].Key? && path[0].name in names && path[1].At?
    && v.GetArray(path[0].name).Some? && path[1].index < |v.GetArray(path[0].name).value|
    && (|path| == 2 ||
        var element := v.GetArray(path[0].name).value[path[1].index];
        Nests(element) && ElementAt(element, ["content", "parts"], path[2..]))
  }

  /** The elements of a request: those of its own arrays and of its envelopes. */
  predicate MediaElement(v: Json, path: seq<Step>)
    decreases |path|
  {
    || ElementAt(v, ["input", "messages", "contents", "content", "parts"], path)
    || (&& path != [] && path[0] in [Key("item"), Key("response"), Key("request"), Key("session")]
        && v.GetObject(path[0].name).Some? && MediaElement(v.GetObject(path[0].name).value, path[1..]))
  }

  lemma NestsExact(element: Json)
    ensures Nests(element) <==> IsContainer(element)
  {
  }

  lemma {:induction false} ElementAtExact(v: Json, names: seq<string>, path: seq<Step>)
    ensures ElementAt(v, names, path) <==> FieldSurface(v, path, names, false)
    decreases |path|
  {
    if |path| > 2 && path[0].Key? && path[0].name in names && path[1].At?
       && v.GetArray(path[0].name).Some? && path[1].index < |v.GetArray(path[0].name).value|
    {
      var items := v.GetArray(path[0].name).value;
      var element := items[path[1].index];
      NestsExact(element);
      ElementAtExact(element, NESTED_FIELDS, path[2..]);
      assert path[1..][1..] == path[2..];
    }
  }

  lemma EnvelopeStep(step: Step)
    ensures step in [Key("item"), Key("response"), Key("request"), Key("session")]
            <==> step.Key? && step.name in ENVELOPE_FIELDS
  {
    if step.Key? && step.name in ENVELOPE_FIELDS {
      var i :| 0 <= i < 4 && ENVELOPE_FIELDS[i] == step.name;
      assert [Key("item"), Key("response"), Key("request"), Key("session")][i] == step;
    }
  }

  /** The surfaces of a body are its media elements. */
  lemma {:induction false} MediaElementExact(v: Json, path: seq<Step>)
    ensures MediaElement(v, path) <==> Surface(v, path)
    decreases |path|
  {
    hide ElementAt, FieldSurface;
    ElementAtExact(v, MEDIA_FIELDS, path);
    if path != [] {
      EnvelopeStep(path[0]);
      if path[0].Key? && path[0].name in ENVELOPE_FIELDS && v.GetObject(path[0].name).Some? {
        MediaElementExact(v.GetObject(path[0].name).value, path[1..]);
      }
    }
  }

  /** At the end of the path stands a value that holds a remote URI. */
  ghost predicate RemoteEnd(v: Json, path: seq<Step>) { Walk(v, path).Some? && Remote(Walk(v, path).value) }

  /** No element on the way down holds a remote URI itself. */
  ghost predicate WayIsFree(v: Json, names: seq<string>, path: seq<Step>) {
    forall n: nat | n < |path| && ElementAt(v, names, path[..n]) :: !RemoteEnd(v, path[..n])
  }

  ghost predicate Outermost(v: Json, path: seq<Step>) {
    forall n: nat | n < |path| && MediaElement(v, path[..n]) :: !RemoteEnd(v, path[..n])
  }

  lemma TwoSteps(v: Json, names: seq<string>, path: seq<Step>, n: nat)
    requires ElementAt(v, names, path) && 2 <= n <= |path|
    ensures var element := v.GetArray(path[0].name).value[path[1].index];
            && Walk(v, path[..n]) == Walk(element, path[2..][..n - 2])
            && (n > 2 ==>
                  (ElementAt(v, names, path[..n])
                   <==> Nests(element) && ElementAt(element, NESTED_FIELDS, path[2..][..n - 2])))
  {
    hide Nests;
    var element := v.GetArray(path[0].name).value[path[1].index];
    var short := path[..n];
    assert short[1..][1..] == path[2..][..n - 2] && short[2..] == path[2..][..n - 2];
    assert StepInto(v, short[0]) == Some(Array(v.GetArray(path[0].name).value));
    assert Walk(v, short) == Walk(Array(v.GetArray(path[0].name).value), short[1..]);
    assert Walk(Array(v.GetArray(path[0].name).value), short[1..]) == Walk(element, short[1..][1..]);
  }

  lemma {:induction false} WayExact(v: Json, names: seq<string>, path: seq<Step>)
    requires ElementAt(v, names, path)
    ensures FieldSurface(v, path, names, true) <==> WayIsFree(v, names, path)
    decreases |path|
  {
    hide Walk, Remote, References, Nests;
    var element := v.GetArray(path[0].name).value[path[1].index];
    if |path| > 2 {
      var rest := path[2..];
      WayExact(element, NESTED_FIELDS, rest);
      NestsExact(element);
      RemoteExact(element);
      assert path[1..][1..] == rest;
      TwoSteps(v, names, path, 2);
      WalkNowhere(element);
      assert rest[..0] == [];
      WayUnfolds(v, names, path);
    }
  }

  lemma WalkNowhere(v: Json)
    ensures Walk(v, []) == Some(v)
  {
  }

  lemma WayUnfolds(v: Json, names: seq<string>, path: seq<Step>)
    requires ElementAt(v, names, path) && |path| > 2
    ensures var element := v.GetArray(path[0].name).value[path[1].index];
            WayIsFree(v, names, path)
            <==> !Remote(element) && WayIsFree(element, NESTED_FIELDS, path[2..])
  {
    hide Walk, Remote, Nests;
    var element, rest := v.GetArray(path[0].name).value[path[1].index], path[2..];
    TwoSteps(v, names, path, 2);
    assert rest[..0] == [];
    WalkNowhere(element);
    assert ElementAt(v, names, path[..2]);
    assert RemoteEnd(v, path[..2]) <==> Remote(element);
    if WayIsFree(v, names, path) {
      forall n: nat | n < |rest| && ElementAt(element, NESTED_FIELDS, rest[..n])
        ensures !RemoteEnd(element, rest[..n])
      {
        TwoSteps(v, names, path, n + 2);
      }
    }
    if !Remote(element) && WayIsFree(element, NESTED_FIELDS, rest) {
      forall n: nat | n < |path| && ElementAt(v, names, path[..n])
        ensures !RemoteEnd(v, path[..n])
      {
        TwoSteps(v, names, path, n);
      }
    }
  }

  lemma NoEnvelopePrefix(v: Json, path: seq<Step>, n: nat)
    requires n <= |path| && path != [] && path[0].Key? && path[0].name in MEDIA_FIELDS
    ensures MediaElement(v, path[..n]) <==> ElementAt(v, MEDIA_FIELDS, path[..n])
  {
    hide ElementAt;
    FieldsApart();
    if n > 0 {
      EnvelopeStep(path[0]);
    }
  }

  lemma EnvelopePrefix(v: Json, path: seq<Step>, n: nat)
    requires 0 < n <= |path| && path[0].Key? && path[0].name in ENVELOPE_FIELDS && v.GetObject(path[0].name).Some?
    ensures var envelope := v.GetObject(path[0].name).value;
            && (MediaElement(v, path[..n]) <==> MediaElement(envelope, path[1..][..n - 1]))
            && Walk(v, path[..n]) == Walk(envelope, path[1..][..n - 1])
  {
    FieldsApart();
    EnvelopeStep(path[0]);
    assert path[..n][1..] == path[1..][..n - 1];
  }

  lemma {:induction false} FieldSurfaceAny(v: Json, path: seq<Step>, names: seq<string>)
    requires FieldSurface(v, path, names, true)
    ensures FieldSurface(v, path, names, false)
    decreases |path|
  {
    hide References;
    if |path| > 2 {
      var element := v.GetArray(path[0].name).value[path[1].index];
      FieldSurfaceAny(element, path[1..][1..], NESTED_FIELDS);
    }
  }

  lemma OutermostInArray(v: Json, path: seq<Step>)
    requires path != [] && path[0].Key? && path[0].name in MEDIA_FIELDS
    ensures Surface(v, path, true) <==> MediaElement(v, path) && Outermost(v, path)
  {
    hide ElementAt, FieldSurface, RemoteEnd;
    FieldsApart();
    EnvelopeStep(path[0]);
    ElementAtExact(v, MEDIA_FIELDS, path);
    forall n: nat | n <= |path|
      ensures MediaElement(v, path[..n]) <==> ElementAt(v, MEDIA_FIELDS, path[..n])
    {
      NoEnvelopePrefix(v, path, n);
    }
    if FieldSurface(v, path, MEDIA_FIELDS, true) {
      FieldSurfaceAny(v, path, MEDIA_FIELDS);
    }
    if ElementAt(v, MEDIA_FIELDS, path) {
      WayExact(v, MEDIA_FIELDS, path);
    }
  }

  lemma OutermostUnfolds(v: Json, path: seq<Step>)
    requires path != [] && path[0].Key? && path[0].name in ENVELOPE_FIELDS && v.GetObject(path[0].name).Some?
    ensures Outermost(v, path) <==> Outermost(v.GetObject(path[0].name).value, path[1..])
  {
    hide MediaElement, Walk, Remote;
    var envelope, rest := v.GetObject(path[0].name).value, path[1..];
    if Outermost(v, path) {
      forall n: nat | n < |rest| && MediaElement(envelope, rest[..n])
        ensures !RemoteEnd(envelope, rest[..n])
      {
        EnvelopePrefix(v, path, n + 1);
      }
    }
    if Outermost(envelope, rest) {
      forall n: nat | n < |path| && MediaElement(v, path[..n])
        ensures !RemoteEnd(v, path[..n])
      {
        NoElementHere(v);
        EnvelopePrefix(v, path, n);
      }
    }
  }

  lemma NoElementHere(v: Json)
    ensures !MediaElement(v, [])
  {
  }

  /** The surfaces that no removed element encloses. */
  lemma {:induction false} OutermostExact(v: Json, path: seq<Step>)
    ensures Surface(v, path, true) <==> MediaElement(v, path) && Outermost(v, path)
    decreases |path|
  {
    hide ElementAt, FieldSurface, Outermost;
    FieldsApart();
    if path != [] && path[0].Key? && path[0].name in MEDIA_FIELDS {
      OutermostInArray(v, path);
    } else {
      NamedField(v, path);
      if path != [] && path[0].Key? && path[0].name in ENVELOPE_FIELDS && v.GetObject(path[0].name).Some? {
        EnvelopeStep(path[0]);
        OutermostExact(v.GetObject(path[0].name).value, path[1..]);
        OutermostUnfolds(v, path);
      } else if path != [] {
        EnvelopeStep(path[0]);
      }
    }
  }

  lemma NamedField(v: Json, path: seq<Step>)
    requires !(path != [] && path[0].Key? && path[0].name in MEDIA_FIELDS)
    ensures !ElementAt(v, MEDIA_FIELDS, path) && !FieldSurface(v, path, MEDIA_FIELDS, true)
  {
  }

  // ---------- What is left of an array and of a body ----------

  /** `b` is `a` without the elements that hold a remote URI, in order, and each kept one rebuilt likewise. */
  ghost predicate Rebuilt(a: seq<Json>, b: seq<Json>)
    decreases a, 1
  {
    exists kept: seq<nat> :: RebuiltFrom(a, b, kept)
  }

  /** The indices of the elements that hold no remote URI, in order. */
  ghost predicate FreeIndices(a: seq<Json>, kept: seq<nat>) {
    && (forall i, j | 0 <= i < j < |kept| :: kept[i] < kept[j])
    && forall i: nat | i < |a| :: i in kept <==> !Remote(a[i])
  }

  /** `kept` are the original indices of the elements of `b`. */
  ghost predicate RebuiltFrom(a: seq<Json>, b: seq<Json>, kept: seq<nat>)
    decreases a, 0
  {
    && |kept| == |b| && FreeIndices(a, kept)
    && forall j | 0 <= j < |b| :: kept[j] < |a| && RebuiltElement(a[kept[j]], b[j])
  }

  ghost predicate RebuiltElement(a: Json, b: Json) {
    if !(a.Object? && Nests(a)) then b == a
    else
      && b.Object? && b.fields.Keys == a.fields.Keys
      && forall k <- a.fields.Keys ::
           if k in ["content", "parts"] && a.fields[k].Array?
           then b.fields[k].Array? && Rebuilt(a.fields[k].items, b.fields[k].items)
           else b.fields[k] == a.fields[k]
  }

  ghost predicate RebuiltBody(a: Json, b: Json) {
    if !a.Object? then b == a
    else
      && b.Object? && b.fields.Keys == a.fields.Keys
      && forall k <- a.fields.Keys ::
           if k in ["input", "messages", "contents", "content", "parts"] && a.fields[k].Array?
           then b.fields[k].Array? && Rebuilt(a.fields[k].items, b.fields[k].items)
           else if k in ["item", "response", "request", "session"] && a.fields[k].Object?
           then RebuiltBody(a.fields[k], b.fields[k])
           else b.fields[k] == a.fields[k]
  }

  function OneLater(kept: seq<nat>): (later: seq<nat>)
    ensures |later| == |kept| && forall i | 0 <= i < |kept| :: later[i] == kept[i] + 1
  {
    seq(|kept|, i requires 0 <= i < |kept| => kept[i] + 1)
  }

  lemma LaterHolds(kept: seq<nat>, i: nat)
    ensures i + 1 in OneLater(kept) <==> i in kept
    ensures 0 !in OneLater(kept)
  {
    if i in kept {
      var j :| 0 <= j < |kept| && kept[j] == i;
      assert OneLater(kept)[j] == i + 1;
    }
  }

  lemma FreeLater(a: seq<Json>, kept: seq<nat>)
    requires a != [] && FreeIndices(a[1..], kept)
    ensures Remote(a[0]) ==> FreeIndices(a, OneLater(kept))
    ensures !Remote(a[0]) ==> FreeIndices(a, [0] + OneLater(kept))
  {
    hide Remote;
    forall i: nat | i < |a|
      ensures i in OneLater(kept) <==> i > 0 && !Remote(a[i])
    {
      LaterHolds(kept, if i == 0 then 0 else i - 1);
    }
  }

  lemma RebuiltDropped(a: seq<Json>, b: seq<Json>, kept: seq<nat>)
    requires a != [] && Remote(a[0]) && RebuiltFrom(a[1..], b, kept)
    ensures RebuiltFrom(a, b, OneLater(kept))
  {
    hide Remote, RebuiltElement, FreeIndices;
    FreeLater(a, kept);
  }

  lemma RebuiltKept(a: seq<Json>, first: Json, b: seq<Json>, kept: seq<nat>)
    requires a != [] && !Remote(a[0]) && RebuiltElement(a[0], first) && RebuiltFrom(a[1..], b, kept)
    ensures RebuiltFrom(a, [first] + b, [0] + OneLater(kept))
  {
    hide Remote, RebuiltElement, FreeIndices;
    FreeLater(a, kept);
    var now, out := [0] + OneLater(kept), [first] + b;
    forall j | 0 <= j < |out|
      ensures now[j] < |a| && RebuiltElement(a[now[j]], out[j])
    {
      if j > 0 {
        assert RebuiltElement(a[1..][kept[j - 1]], b[j - 1]);
      }
    }
  }

  lemma {:induction false} CleanItemsRebuilt(items: seq<Json>)
    ensures Rebuilt(items, CleanItems(items))
  {
    hide References, Remote, Nests;
    if items == [] {
      assert RebuiltFrom(items, [], []);
    } else {
      CleanItemsRebuilt(items[1..]);
      var rest := CleanItems(items[1..]);
      var kept: seq<nat> :| RebuiltFrom(items[1..], rest, kept);
      RemoteExact(items[0]);
      if Remote(items[0]) {
        RebuiltDropped(items, rest, kept);
      } else {
        CleanItemRebuilt(items[0]);
        RebuiltKept(items, CleanItem(items[0]), rest, kept);
      }
    }
  }

  lemma {:induction false} CleanItemRebuilt(item: Json)
    ensures RebuiltElement(item, CleanItem(item))
  {
    hide Rebuilt, Nests, CleanItems;
    NestsExact(item);
    if item.Object? && Nests(item) {
      forall k <- item.fields.Keys | item.fields[k].Array?
        ensures Rebuilt(item.fields[k].items, CleanItems(item.fields[k].items))
      {
        CleanItemsRebuilt(item.fields[k].items);
      }
    }
  }

  lemma {:induction false} CleanBodyRebuilt(v: Json)
    ensures RebuiltBody(v, CleanBody(v))
  {
    hide Rebuilt, CleanItems;
    if v.Object? {
      forall k <- v.fields.Keys
        ensures v.fields[k].Array? ==> Rebuilt(v.fields[k].items, CleanItems(v.fields[k].items))
        ensures RebuiltBody(v.fields[k], CleanBody(v.fields[k]))
      {
        if v.fields[k].Array? {
          CleanItemsRebuilt(v.fields[k].items);
        }
        CleanBodyRebuilt(v.fields[k]);
      }
    }
  }

  // ---------- The sanitized body and its records ----------

  /** The session of a session update keeps its members but for the same two, any other session is kept whole. */
  ghost predicate SessionKept(body: Json, media: Json, result: Json) {
    if body.Get("type") == Some(String("session.update")) && body.Get("session").Some?
    then && media.Get("session").Some? && result.Get("session").Some?
         && media.Get("session").value.Object? == result.Get("session").value.Object?
         && forall k | k !in ["tools", "tool_choice"] ::
              result.Get("session").value.Get(k) == media.Get("session").value.Get(k)
    else result.Get("session") == media.Get("session")
  }

  lemma SessionIsKept(body: Json, policy: DelegatedFetchPolicy)
    ensures SessionKept(body, AfterMedia(body, policy), Sanitized(body, policy))
  {
    hide StripHosted, CleanBody;
    var media, allowed := AfterMedia(body, policy), AllowedTools(policy);
    MediaKeepsTools(body, policy);
    assert "session" !in ["tools", "tool_choice"] && "type" !in ["tools", "tool_choice"];
    StripHostedGet(media, allowed, "type");
    StripHostedGet(media, allowed, "session");
    StripHostedShape(media, allowed);
    if IsSessionUpdate(body) {
      var session := media.fields["session"];
      StripHostedShape(session, allowed);
      forall k | k !in ["tools", "tool_choice"]
        ensures StripHosted(session, allowed).Get(k) == session.Get(k)
      {
        StripHostedGet(session, allowed, k);
      }
    } else {
      StripEverywhereParts(media, allowed);
    }
  }

  /**
   With remote content denied, a request keeps exactly the elements that hold no remote URI, in their
   order; of the other members only the tools and their choice may change.
   */
  lemma KeptExactly(body: Json, policy: DelegatedFetchPolicy)
    requires !policy.allowRemoteContent
    ensures exists media ::
              && RebuiltBody(body, media)
              && (forall k | k !in ["tools", "tool_choice", "session"] ::
                    Sanitized(body, policy).Get(k) == media.Get(k))
              && SessionKept(body, media, Sanitized(body, policy))
  {
    hide CleanBody, RebuiltBody, Sanitized, ReferenceFree, TrimmedBody;
    CleanBodyRebuilt(body);
    OnlySurfacesChange(body, policy);
    var media := AfterMedia(body, policy);
    assert media == CleanBody(body);
    SessionIsKept(body, policy);
  }

  /** No media element of the result holds a remote URI, wherever it stands. */
  lemma NothingRemoteLeft(body: Json, policy: DelegatedFetchPolicy)
    requires !policy.allowRemoteContent
    ensures forall path | MediaElement(Sanitized(body, policy), path) :: !RemoteEnd(Sanitized(body, policy), path)
  {
    hide Sanitized, Remote, References, MediaElement, Walk, Surface;
    SanitizedIsClean(body, policy);
    var result := Sanitized(body, policy);
    forall path | MediaElement(result, path)
      ensures !RemoteEnd(result, path)
    {
      MediaElementExact(result, path);
      assert ReferencesAt(result, path) == [];
      if Walk(result, path).Some? {
        RemoteExact(Walk(result, path).value);
      }
    }
  }

  lemma {:induction false} RenderAppend(path: seq<Step>, more: seq<Step>)
    ensures Render(path + more) == Render(path) + Render(more)
    decreases |path|
  {
    hide Token;
    if path == [] {
      assert path + more == more;
    } else {
      RenderAppend(path[1..], more);
      RestAppend(path, more);
      Assoc("/" + Token(path[0]), Render(path[1..]), Render(more));
    }
  }

  lemma RestAppend(path: seq<Step>, more: seq<Step>)
    requires path != []
    ensures (path + more)[0] == path[0] && (path + more)[1..] == path[1..] + more
  {
  }

  /** A record names an outermost element, the pointer below it, its capability and the URI there. */
  ghost predicate RecordFor(body: Json, item: StrippedItem, path: seq<Step>, pointer: string) {
    && MediaElement(body, path) && Outermost(body, path) && Walk(body, path).Some? && item.uri.Some?
    && RemoteAt(Walk(body, path).value, pointer, item.capability, item.uri.value)
    && item.fieldPath == Render(path) + pointer
  }

  lemma ReportedMedia(body: Json, policy: DelegatedFetchPolicy, e: Removal)
    requires !policy.allowRemoteContent && e in BodyAudit(body)
    ensures StrippedItem(Render(e.path), e.capability, Some(e.uri)) in Reports(Findings(body, policy))
  {
    hide BodyAudit, ToolFindings, ChoiceFindings, Render;
    var findings := Findings(body, policy);
    var i :| 0 <= i < |BodyAudit(body)| && BodyAudit(body)[i] == e;
    assert findings[i] == MediaRemoved(e);
    assert Reports(findings)[i] == Report(MediaRemoved(e));
  }

  lemma MediaFinding(body: Json, policy: DelegatedFetchPolicy, finding: Finding)
    requires finding in Findings(body, policy) && finding.MediaRemoved?
    ensures !policy.allowRemoteContent && finding.removal in BodyAudit(body)
  {
    hide BodyAudit, ToolsAudit, NeedsRepair;
    var allowed, session := AllowedTools(policy), SessionOf(body);
    assert finding !in ToolFindings(Tools(body), allowed, TOOLS_PATH) + ChoiceFindings(body, allowed);
    assert finding !in ToolFindings(Tools(session), allowed, SESSION_TOOLS_PATH) + ChoiceFindings(session, allowed);
    assert finding in MediaFindings(body, policy);
  }

  lemma MediaReport(body: Json, policy: DelegatedFetchPolicy, item: StrippedItem) returns (e: Removal)
    requires item in Reports(Findings(body, policy)) && item.uri.Some?
    ensures !policy.allowRemoteContent && e in BodyAudit(body)
    ensures item == StrippedItem(Render(e.path), e.capability, Some(e.uri))
  {
    hide BodyAudit, Findings, Render;
    var findings := Findings(body, policy);
    var i :| 0 <= i < |findings| && Reports(findings)[i] == item;
    assert findings[i] in findings && Report(findings[i]) == item;
    MediaFinding(body, policy, findings[i]);
    e := findings[i].removal;
  }

  /** The records that carry a URI are one for each remote URI of each outermost element. */
  lemma RecordedExactly(body: Json, policy: DelegatedFetchPolicy, item: StrippedItem)
    requires item.uri.Some?
    ensures item in Reports(Findings(body, policy))
            <==> !policy.allowRemoteContent && exists path, pointer :: RecordFor(body, item, path, pointer)
  {
    hide Surface, References, BodyAudit, Findings, Render, Outermost, MediaElement, RemoteAt, Walk;
    if item in Reports(Findings(body, policy)) {
      var e := MediaReport(body, policy, item);
      var path, r := BodyAuditSound(body, e);
      OutermostExact(body, path);
      ReferenceIsRemote(Walk(body, path).value, r);
      RenderAppend(path, r.suffix);
      assert RecordFor(body, item, path, Render(r.suffix));
    }
    if !policy.allowRemoteContent && exists path, pointer :: RecordFor(body, item, path, pointer) {
      var path, pointer :| RecordFor(body, item, path, pointer);
      var r := RemoteIsReference(Walk(body, path).value, pointer, item.capability, item.uri.value);
      OutermostExact(body, path);
      BodyAuditComplete(body, path, r);
      RenderAppend(path, r.suffix);
      ReportedMedia(body, policy, Entry(path, r));
    }
  }

  /** So an element of one of the arrays of the request itself is gone, and each of its remote URIs recorded. */
  lemma TopLevelElement(body: Json, policy: DelegatedFetchPolicy, field: string, i: nat,
                        pointer: string, capability: string, uri: string)
    requires !policy.allowRemoteContent && field in ["input", "messages", "contents", "content", "parts"]
    requires body.GetArray(field).Some? && i < |body.GetArray(field).value|
    requires RemoteAt(body.GetArray(field).value[i], pointer, capability, uri)
    ensures StrippedItem("/" + field + "/" + Decimal(i) + pointer, capability, Some(uri))
            in Reports(Findings(body, policy))
    ensures Sanitized(body, policy).GetArray(field).Some?
            && body.GetArray(field).value[i] !in Sanitized(body, policy).GetArray(field).value
  {
    hide Findings, Sanitized, RemoteAt, Outermost;
    var path := [Key(field), At(i)];
    TopLevelPath(body, field, i);
    var item := StrippedItem(Render(path) + pointer, capability, Some(uri));
    assert RecordFor(body, item, path, pointer);
    RecordedExactly(body, policy, item);
    TopLevelGone(body, policy, field, i);
  }

  lemma TopLevelPath(body: Json, field: string, i: nat)
    requires field in ["input", "messages", "contents", "content", "parts"]
    requires body.GetArray(field).Some? && i < |body.GetArray(field).value|
    ensures var path := [Key(field), At(i)];
            && MediaElement(body, path) && Outermost(body, path)
            && Walk(body, path) == Some(body.GetArray(field).value[i])
            && Render(path) == "/" + field + "/" + Decimal(i)
  {
    hide RemoteEnd;
    var path := [Key(field), At(i)];
    FieldsApart();
    assert ElementAt(body, MEDIA_FIELDS, path);
    ElementAtExact(body, MEDIA_FIELDS, path);
    assert FieldSurface(body, path, MEDIA_FIELDS, true);
    OutermostInArray(body, path);
    assert path[1..] == [At(i)] && [At(i)][1..] == [];
    WalkNowhere(body.GetArray(field).value[i]);
    assert Render([At(i)]) == "/" + Decimal(i) + "";
    Assoc("/" + field, "/", Decimal(i));
  }

  lemma TopLevelGone(body: Json, policy: DelegatedFetchPolicy, field: string, i: nat)
    requires !policy.allowRemoteContent && field in ["input", "messages", "contents", "content", "parts"]
    requires body.GetArray(field).Some? && i < |body.GetArray(field).value| && Remote(body.GetArray(field).value[i])
    ensures Sanitized(body, policy).GetArray(field).Some?
            && body.GetArray(field).value[i] !in Sanitized(body, policy).GetArray(field).value
  {
    hide Sanitized, Remote, MediaElement, Findings;
    var result := Sanitized(body, policy);
    NothingRemoteLeft(body, policy);
    FieldsApart();
    OnlySurfacesChange(body, policy);
    var out := result.GetArray(field).value;
    forall j | 0 <= j < |out|
      ensures out[j] != body.GetArray(field).value[i]
    {
      TopLevelPath(result, field, j);
      assert !RemoteEnd(result, [Key(field), At(j)]);
    }
  }
}
