/**
 The media audit is exact: its entries are the references of the outermost surface items that
 have any, each entry's path leads to the removed URI in the original body, no path occurs twice,
 and the audit is empty exactly when the body is unchanged.
 */
module MediaAudit {
  import opened Wrappers
  import opened Sequences
  import opened JsonPointer
  import opened MediaSurfaces
  import opened MediaProofs

  /** What the audit must record for reference `r` of the item at `path`. */
  function Entry(path: seq<Step>, r: Reference): Removal {
    Removal(path + r.suffix, r.capability, r.uri)
  }

  lemma EntryBelow(step: Step, path: seq<Step>, r: Reference)
    ensures Below(step, Entry(path, r)) == Entry([step] + path, r)
  {
    assert [step] + (path + r.suffix) == [step] + path + r.suffix;
  }

  lemma InAllBelow(step: Step, audit: seq<Removal>, e: Removal)
    requires e in audit
    ensures Below(step, e) in AllBelow(step, audit)
  {
    var i :| 0 <= i < |audit| && audit[i] == e;
    assert AllBelow(step, audit)[i] == Below(step, e);
  }

  lemma OutOfAllBelow(step: Step, audit: seq<Removal>, e: Removal) returns (inner: Removal)
    requires e in AllBelow(step, audit)
    ensures inner in audit && e == Below(step, inner)
  {
    var i :| 0 <= i < |AllBelow(step, audit)| && AllBelow(step, audit)[i] == e;
    inner := audit[i];
  }

  // ---------- Every entry is the reference of an outermost surface item ----------

  lemma {:induction false} ItemAuditSound(item: Json, e: Removal) returns (p: seq<Step>, r: Reference)
    requires e in ItemAudit(item)
    ensures e == Entry(p, r) && r in ReferencesAt(item, p)
    ensures p != [] ==> IsContainer(item) && References(item) == [] && FieldSurface(item, p, NESTED_FIELDS, true)
    decreases |e.path|, 2, 0
  {
    if References(item) == [] {
      p, r := FieldsAuditSound(item, NESTED_FIELDS, e);
    } else {
      var i :| 0 <= i < |References(item)| && e == Recorded(References(item)[i]);
      p, r := [], References(item)[i];
      assert [] + r.suffix == r.suffix;
    }
  }

  lemma {:induction false} FirstAuditSound(items: seq<Json>, first: nat, e: Removal)
    returns (p: seq<Step>, r: Reference)
    requires items != [] && e in AllBelow(At(first), ItemAudit(items[0]))
    ensures ItemSurface(items, p, true) && r in ReferencesAt(Array(items), p)
    ensures e == Entry(Shifted(p, first), r)
    decreases |e.path|, 0, 0
  {
    var inner := OutOfAllBelow(At(first), ItemAudit(items[0]), e);
    var q;
    q, r := ItemAuditSound(items[0], inner);
    p := [At(0)] + q;
    FirstSurface(items, q, true);
    EntryBelow(At(first), q, r);
    assert Shifted(p, first) == [At(first)] + q;
  }

  lemma {:induction false} ItemsAuditSound(items: seq<Json>, first: nat, e: Removal)
    returns (p: seq<Step>, r: Reference)
    requires e in ItemsAudit(items, first)
    ensures ItemSurface(items, p, true) && r in ReferencesAt(Array(items), p)
    ensures e == Entry(Shifted(p, first), r)
    decreases |e.path|, 1, |items|
  {
    if e in AllBelow(At(first), ItemAudit(items[0])) {
      p, r := FirstAuditSound(items, first, e);
    } else {
      var q;
      q, r := ItemsAuditSound(items[1..], first + 1, e);
      ShiftedSurface(items, q, first, true);
      p := Shifted(q, 1);
    }
  }

  lemma {:induction false} FieldsAuditSound(v: Json, fields: seq<string>, e: Removal)
    returns (p: seq<Step>, r: Reference)
    requires e in FieldsAudit(v, fields)
    ensures FieldSurface(v, p, fields, true) && r in ReferencesAt(v, p) && e == Entry(p, r)
    decreases |e.path|, 1, |fields|
  {
    if e in FieldsAudit(v, fields[1..]) {
      p, r := FieldsAuditSound(v, fields[1..], e);
    } else {
      var items := v.GetArray(fields[0]).value;
      var inner := OutOfAllBelow(Key(fields[0]), ItemsAudit(items, 0), e);
      var q;
      q, r := ItemsAuditSound(items, 0, inner);
      p := [Key(fields[0])] + q;
      ConsParts(Key(fields[0]), q);
      HeadTail(q);
      EntryBelow(Key(fields[0]), q, r);
    }
  }

  lemma {:induction false} BodyAuditSound(v: Json, e: Removal) returns (p: seq<Step>, r: Reference)
    requires e in BodyAudit(v)
    ensures Surface(v, p, true) && r in ReferencesAt(v, p) && e == Entry(p, r)
    decreases |e.path|, 2, 0
  {
    if e in FieldsAudit(v, MEDIA_FIELDS) {
      p, r := FieldsAuditSound(v, MEDIA_FIELDS, e);
    } else {
      p, r := EnvelopesAuditSound(v, ENVELOPE_FIELDS, e);
    }
  }

  lemma {:induction false} EnvelopesAuditSound(v: Json, fields: seq<string>, e: Removal)
    returns (p: seq<Step>, r: Reference)
    requires e in EnvelopesAudit(v, fields) && forall k <- fields :: k in ENVELOPE_FIELDS
    ensures p != [] && p[0].Key? && p[0].name in fields && Surface(v, p, true)
    ensures r in ReferencesAt(v, p) && e == Entry(p, r)
    decreases |e.path|, 1, |fields|
  {
    if e in EnvelopesAudit(v, fields[1..]) {
      p, r := EnvelopesAuditSound(v, fields[1..], e);
    } else {
      var envelope := v.GetObject(fields[0]).value;
      var inner := OutOfAllBelow(Key(fields[0]), BodyAudit(envelope), e);
      var q;
      q, r := BodyAuditSound(envelope, inner);
      p := [Key(fields[0])] + q;
      ConsParts(Key(fields[0]), q);
      EntryBelow(Key(fields[0]), q, r);
    }
  }

  // ---------- Every reference of an outermost surface item has its entry ----------

  lemma {:induction false} ItemAuditComplete(item: Json, p: seq<Step>, r: Reference)
    requires r in ReferencesAt(item, p)
    requires p != [] ==> IsContainer(item) && References(item) == [] && FieldSurface(item, p, NESTED_FIELDS, true)
    ensures Entry(p, r) in ItemAudit(item)
    decreases |p|, 2, 0
  {
    if p == [] {
      var i :| 0 <= i < |References(item)| && r == References(item)[i];
      assert [] + r.suffix == r.suffix;
      assert RecordedAll(References(item))[i] == Entry(p, r);
    } else {
      FieldsAuditComplete(item, NESTED_FIELDS, p, r);
    }
  }

  lemma {:induction false} FirstAuditComplete(items: seq<Json>, first: nat, q: seq<Step>, r: Reference)
    requires items != [] && ItemSurface(items, [At(0)] + q, true) && r in ReferencesAt(Array(items), [At(0)] + q)
    ensures Entry([At(first)] + q, r) in AllBelow(At(first), ItemAudit(items[0]))
    decreases |q|, 3, 0
  {
    FirstSurface(items, q, true);
    ItemAuditComplete(items[0], q, r);
    EntryBelow(At(first), q, r);
    InAllBelow(At(first), ItemAudit(items[0]), Entry(q, r));
  }

  lemma {:induction false} ItemsAuditComplete(items: seq<Json>, first: nat, p: seq<Step>, r: Reference)
    requires ItemSurface(items, p, true) && r in ReferencesAt(Array(items), p)
    ensures Entry(Shifted(p, first), r) in ItemsAudit(items, first)
    decreases |p|, 1, |items|
  {
    hide References;
    if p[0].index > 0 {
      PastFirst(items, p, first, true);
      ItemsAuditComplete(items[1..], first + 1, Shifted(p, -1), r);
    } else {
      HeadTail(p);
      FirstAuditComplete(items, first, p[1..], r);
    }
  }

  lemma {:induction false} FieldsAuditComplete(v: Json, fields: seq<string>, p: seq<Step>, r: Reference)
    requires FieldSurface(v, p, fields, true) && r in ReferencesAt(v, p)
    ensures Entry(p, r) in FieldsAudit(v, fields)
    decreases |p|, 1, |fields|
  {
    hide References;
    if p[0].name == fields[0] {
      var items, q := v.GetArray(fields[0]).value, p[1..];
      HeadTail(p);
      HeadTail(q);
      ItemsAuditComplete(items, 0, q, r);
      EntryBelow(Key(fields[0]), q, r);
      InAllBelow(Key(fields[0]), ItemsAudit(items, 0), Entry(q, r));
    } else {
      FieldsAuditComplete(v, fields[1..], p, r);
    }
  }

  lemma {:induction false} BodyAuditComplete(v: Json, p: seq<Step>, r: Reference)
    requires Surface(v, p, true) && r in ReferencesAt(v, p)
    ensures Entry(p, r) in BodyAudit(v)
    decreases |p|, 2, 0
  {
    if FieldSurface(v, p, MEDIA_FIELDS, true) {
      FieldsAuditComplete(v, MEDIA_FIELDS, p, r);
    } else {
      EnvelopesAuditComplete(v, ENVELOPE_FIELDS, p, r);
    }
  }

  lemma {:induction false} EnvelopesAuditComplete(v: Json, fields: seq<string>, p: seq<Step>, r: Reference)
    requires p != [] && p[0].Key? && p[0].name in fields && v.GetObject(p[0].name).Some?
    requires Surface(v.GetObject(p[0].name).value, p[1..], true) && r in ReferencesAt(v, p)
    ensures Entry(p, r) in EnvelopesAudit(v, fields)
    decreases |p|, 1, |fields|
  {
    if p[0].name == fields[0] {
      var envelope, q := v.GetObject(fields[0]).value, p[1..];
      HeadTail(p);
      BodyAuditComplete(envelope, q, r);
      EntryBelow(Key(fields[0]), q, r);
      InAllBelow(Key(fields[0]), BodyAudit(envelope), Entry(q, r));
    } else {
      EnvelopesAuditComplete(v, fields[1..], p, r);
    }
  }

  // ---------- No path occurs twice ----------

  predicate DistinctPaths(audit: seq<Removal>) {
    forall i, j | 0 <= i < j < |audit| :: audit[i].path != audit[j].path
  }

  predicate DistinctNames(names: seq<string>) {
    forall i, j | 0 <= i < j < |names| :: names[i] != names[j]
  }

  predicate DistinctSuffixes(cs: seq<Candidate>) {
    forall i, j | 0 <= i < j < |cs| :: cs[i].suffix != cs[j].suffix
  }

  lemma DistinctConcat(a: seq<Removal>, b: seq<Removal>)
    requires DistinctPaths(a) && DistinctPaths(b)
    requires forall e <- a, f <- b :: e.path != f.path
    ensures DistinctPaths(a + b)
  {
    forall i, j | 0 <= i < j < |a + b|
      ensures (a + b)[i].path != (a + b)[j].path
    {
      if i < |a| <= j {
        assert a[i] in a && b[j - |a|] in b;
      }
    }
  }

  lemma {:induction false} FoundFrom(v: Json, cs: seq<Candidate>, r: Reference) returns (c: Candidate)
    requires r in FoundAll(v, cs)
    ensures c in cs && c.suffix == r.suffix && c.capability == r.capability
    ensures Walk(v, r.suffix) == Some(String(r.uri)) && !IsInline(r.uri)
    decreases |cs|
  {
    if r in Found(v, cs[0]) {
      c := cs[0];
    } else {
      c := FoundFrom(v, cs[1..], r);
    }
  }

  lemma {:induction false} FoundDistinct(v: Json, cs: seq<Candidate>)
    requires DistinctSuffixes(cs)
    ensures DistinctPaths(RecordedAll(FoundAll(v, cs)))
    decreases |cs|
  {
    if cs != [] {
      FoundDistinct(v, cs[1..]);
      var head, tail := RecordedAll(Found(v, cs[0])), RecordedAll(FoundAll(v, cs[1..]));
      forall e <- head, f <- tail
        ensures e.path != f.path
      {
        var i :| 0 <= i < |tail| && f == tail[i];
        var c := FoundFrom(v, cs[1..], FoundAll(v, cs[1..])[i]);
      }
      DistinctConcat(head, tail);
      assert RecordedAll(FoundAll(v, cs)) == head + tail;
    }
  }

  lemma PlainNames()
    ensures forall name <- ["file_url", "image_url", "url", "source", "type"] :: PlainName(name)
    ensures forall name <- ["fileData", "file_data", "fileUri", "file_uri"] :: PlainName(name)
  {
  }

  lemma TypedDistinct(v: Json)
    ensures DistinctSuffixes(TypedCandidates(v)) && forall c <- TypedCandidates(v) :: NamesPath(c.suffix)
    ensures forall c <- TypedCandidates(v) ::
              c.suffix != [] && c.suffix[0] in [Key("file_url"), Key("image_url"), Key("source")]
  {
    hide PlainName;
    PlainNames();
    assert |IMAGE_URL| != |IMAGE_URL_URL|;
  }

  lemma UntypedDistinct()
    ensures DistinctSuffixes(UNTYPED_CANDIDATES) && forall c <- UNTYPED_CANDIDATES :: NamesPath(c.suffix)
    ensures forall c <- UNTYPED_CANDIDATES :: c.suffix != [] && c.suffix[0] in [Key("fileData"), Key("file_data")]
  {
    hide PlainName;
    PlainNames();
    assert "fileUri"[4] != "file_uri"[4] && "fileData"[4] != "file_data"[4];
    assert forall i | 0 <= i < 4 :: |UNTYPED_CANDIDATES[i].suffix| == 2;
    assert UNTYPED_CANDIDATES[0].suffix[1] != UNTYPED_CANDIDATES[1].suffix[1];
    assert UNTYPED_CANDIDATES[2].suffix[1] != UNTYPED_CANDIDATES[3].suffix[1];
  }

  lemma HeadsDiffer(a: Step, b: Step)
    requires a in [Key("file_url"), Key("image_url"), Key("source")] && b in [Key("fileData"), Key("file_data")]
    ensures a != b
  {
    assert "file_url"[5] != "file_data"[5] && "file_url"[4] != "fileData"[4];
    assert "image_url"[0] != "file_data"[0] && "source"[0] != "file_data"[0];
  }

  /** The places searched in one item are all different. */
  lemma CandidatesDistinct(v: Json)
    ensures DistinctSuffixes(Candidates(v)) && forall c <- Candidates(v) :: NamesPath(c.suffix)
  {
    TypedDistinct(v);
    UntypedDistinct();
    DistinctSuffixesConcat(TypedCandidates(v), UNTYPED_CANDIDATES);
  }

  lemma DistinctSuffixesConcat(a: seq<Candidate>, b: seq<Candidate>)
    requires DistinctSuffixes(a) && DistinctSuffixes(b)
    requires forall c <- a :: c.suffix != [] && c.suffix[0] in [Key("file_url"), Key("image_url"), Key("source")]
    requires forall c <- b :: c.suffix != [] && c.suffix[0] in [Key("fileData"), Key("file_data")]
    ensures DistinctSuffixes(a + b)
  {
    forall i, j | 0 <= i < j < |a + b|
      ensures (a + b)[i].suffix != (a + b)[j].suffix
    {
      if i < |a| <= j {
        HeadsDiffer(a[i].suffix[0], b[j - |a|].suffix[0]);
      }
    }
  }

  lemma ReferencesDistinct(v: Json)
    ensures DistinctPaths(RecordedAll(References(v)))
    ensures forall r <- References(v) ::
              Walk(v, r.suffix) == Some(String(r.uri)) && !IsInline(r.uri) && r.suffix != [] && PlainPath(r.suffix)
  {
    CandidatesDistinct(v);
    FoundDistinct(v, Candidates(v));
    forall r <- References(v)
      ensures Walk(v, r.suffix) == Some(String(r.uri)) && !IsInline(r.uri) && r.suffix != [] && PlainPath(r.suffix)
    {
      var c := FoundFrom(v, Candidates(v), r);
      assert NamesPath(c.suffix);
    }
  }

  lemma AllBelowDistinct(step: Step, audit: seq<Removal>)
    requires DistinctPaths(audit)
    ensures DistinctPaths(AllBelow(step, audit))
    ensures forall e <- AllBelow(step, audit) :: e.path != [] && e.path[0] == step
  {
    var below := AllBelow(step, audit);
    forall i, j | 0 <= i < j < |below|
      ensures below[i].path != below[j].path
    {
      assert below[i].path[1..] == audit[i].path && below[j].path[1..] == audit[j].path;
    }
  }

  lemma {:induction false} ItemAuditDistinct(item: Json)
    ensures DistinctPaths(ItemAudit(item))
    decreases item, |NESTED_FIELDS| + 1
  {
    ReferencesDistinct(item);
    FieldsAuditDistinct(item, NESTED_FIELDS);
  }

  lemma {:induction false} ItemsAuditDistinct(items: seq<Json>, first: nat)
    ensures DistinctPaths(ItemsAudit(items, first))
    ensures forall e <- ItemsAudit(items, first) :: e.path != [] && e.path[0].At? && e.path[0].index >= first
  {
    if items != [] {
      ItemAuditDistinct(items[0]);
      AllBelowDistinct(At(first), ItemAudit(items[0]));
      ItemsAuditDistinct(items[1..], first + 1);
      DistinctConcat(AllBelow(At(first), ItemAudit(items[0])), ItemsAudit(items[1..], first + 1));
    }
  }

  lemma {:induction false} FieldsAuditDistinct(v: Json, fields: seq<string>)
    requires DistinctNames(fields)
    ensures DistinctPaths(FieldsAudit(v, fields))
    ensures forall e <- FieldsAudit(v, fields) :: e.path != [] && e.path[0].Key? && e.path[0].name in fields
    decreases v, |fields|
  {
    if fields != [] {
      if v.GetArray(fields[0]).Some? {
        ItemsAuditDistinct(v.GetArray(fields[0]).value, 0);
        AllBelowDistinct(Key(fields[0]), ItemsAudit(v.GetArray(fields[0]).value, 0));
      }
      FieldsAuditDistinct(v, fields[1..]);
      DistinctConcat(FieldAudit(v, fields[0]), FieldsAudit(v, fields[1..]));
    }
  }

  lemma MediaIsNoEnvelope(k: string)
    ensures !(k in MEDIA_FIELDS && k in ENVELOPE_FIELDS)
  {
    FieldsApart();
  }

  lemma {:induction false} BodyAuditDistinct(v: Json)
    ensures DistinctPaths(BodyAudit(v))
    ensures forall e <- BodyAudit(v) ::
              e.path != [] && e.path[0].Key? && (e.path[0].name in MEDIA_FIELDS || e.path[0].name in ENVELOPE_FIELDS)
    decreases v, |ENVELOPE_FIELDS| + 1
  {
    assert DistinctNames(MEDIA_FIELDS) && DistinctNames(ENVELOPE_FIELDS);
    FieldsAuditDistinct(v, MEDIA_FIELDS);
    EnvelopesAuditDistinct(v, ENVELOPE_FIELDS);
    forall e <- FieldsAudit(v, MEDIA_FIELDS), f <- EnvelopesAudit(v, ENVELOPE_FIELDS)
      ensures e.path != f.path
    {
      MediaIsNoEnvelope(e.path[0].name);
    }
    DistinctConcat(FieldsAudit(v, MEDIA_FIELDS), EnvelopesAudit(v, ENVELOPE_FIELDS));
  }

  lemma {:induction false} EnvelopesAuditDistinct(v: Json, fields: seq<string>)
    requires DistinctNames(fields)
    ensures DistinctPaths(EnvelopesAudit(v, fields))
    ensures forall e <- EnvelopesAudit(v, fields) :: e.path != [] && e.path[0].Key? && e.path[0].name in fields
    decreases v, |fields|
  {
    if fields != [] {
      if v.GetObject(fields[0]).Some? {
        BodyAuditDistinct(v.GetObject(fields[0]).value);
        AllBelowDistinct(Key(fields[0]), BodyAudit(v.GetObject(fields[0]).value));
      }
      EnvelopesAuditDistinct(v, fields[1..]);
      DistinctConcat(EnvelopeAudit(v, fields[0]), EnvelopesAudit(v, fields[1..]));
    }
  }

  // ---------- Paths lead to the removed URIs ----------

  lemma {:induction false} ItemSurfaceWalks(items: seq<Json>, p: seq<Step>, outermost: bool)
    requires ItemSurface(items, p, outermost)
    ensures PlainPath(p) && Walk(Array(items), p).Some?
    decreases |p|
  {
    FieldsApart();
    if |p| > 1 {
      var item, q := items[p[0].index], p[1..];
      ItemSurfaceWalks(item.GetArray(q[0].name).value, q[1..], outermost);
      HeadTail(q);
      HeadTail(p);
      assert PlainStep(q[0]);
      assert Walk(item, q) == Walk(Array(item.GetArray(q[0].name).value), q[1..]);
    }
  }

  lemma {:induction false} SurfaceWalks(v: Json, p: seq<Step>, outermost: bool)
    requires Surface(v, p, outermost)
    ensures PlainPath(p) && Walk(v, p).Some?
    decreases |p|
  {
    FieldsApart();
    if FieldSurface(v, p, MEDIA_FIELDS, outermost) {
      ItemSurfaceWalks(v.GetArray(p[0].name).value, p[1..], outermost);
    } else {
      SurfaceWalks(v.GetObject(p[0].name).value, p[1..], outermost);
    }
    HeadTail(p);
    assert PlainStep(p[0]);
  }

  /**
   The audit of a body is exactly the references of its outermost surface items; every entry's
   path leads to the removed URI in the original body; no two entries share a path.
   */
  lemma BodyAuditExact(v: Json)
    ensures forall e: Removal ::
              e in BodyAudit(v)
              <==> exists p, r :: Surface(v, p, true) && r in ReferencesAt(v, p) && e == Entry(p, r)
    ensures forall e <- BodyAudit(v) ::
              PlainPath(e.path) && Walk(v, e.path) == Some(String(e.uri)) && !IsInline(e.uri)
    ensures DistinctPaths(BodyAudit(v))
  {
    forall e <- BodyAudit(v)
      ensures exists p, r :: Surface(v, p, true) && r in ReferencesAt(v, p) && e == Entry(p, r)
      ensures PlainPath(e.path) && Walk(v, e.path) == Some(String(e.uri)) && !IsInline(e.uri)
    {
      var p, r := BodyAuditSound(v, e);
      SurfaceWalks(v, p, true);
      ReferencesDistinct(Walk(v, p).value);
      WalkAppend(v, p, r.suffix);
    }
    forall p, r | Surface(v, p, true) && r in ReferencesAt(v, p)
      ensures Entry(p, r) in BodyAudit(v)
    {
      BodyAuditComplete(v, p, r);
    }
    BodyAuditDistinct(v);
  }

  // ---------- Silence means no change ----------

  lemma {:induction false} ItemsAuditSilent(items: seq<Json>, first: nat)
    ensures ItemsAudit(items, first) == [] <==> CleanItems(items) == items
    ensures |CleanItems(items)| <= |items|
  {
    if items != [] {
      ItemsAuditSilent(items[1..], first + 1);
      HeadTail(items);
      if References(items[0]) == [] {
        FieldsAuditSilent(items[0], NESTED_FIELDS);
        assert CleanItems(items)[1..] == CleanItems(items[1..]);
        assert CleanItems(items)[0] == CleanItem(items[0]);
      }
    }
  }

  lemma {:induction false} FieldsAuditSilent(v: Json, fields: seq<string>)
    ensures FieldsAudit(v, fields) == [] <==> CleanFields(v, fields) == v
    decreases v, |fields|
  {
    if fields == [] {
      assert v.Object? ==> CleanFields(v, fields).fields == v.fields;
    } else {
      FieldsAuditSilent(v, fields[1..]);
      CleanFirstField(v, fields);
      if v.GetArray(fields[0]).Some? {
        ItemsAuditSilent(v.GetArray(fields[0]).value, 0);
      }
    }
  }

  lemma CleanFirstField(v: Json, fields: seq<string>)
    requires fields != []
    ensures CleanFields(v, fields) == v
            <==> (&& CleanFields(v, fields[1..]) == v
                  && (v.GetArray(fields[0]).Some? ==>
                        CleanItems(v.GetArray(fields[0]).value) == v.GetArray(fields[0]).value))
  {
    if v.Object? {
      var w, rest := CleanFields(v, fields), CleanFields(v, fields[1..]);
      assert w == v <==> w.fields == v.fields;
      assert rest == v <==> rest.fields == v.fields;
      assert forall k <- v.fields.Keys | k != fields[0] :: w.fields[k] == rest.fields[k];
    }
  }

  lemma {:induction false} EnvelopesAuditSilent(v: Json, fields: seq<string>)
    ensures EnvelopesAudit(v, fields) == []
            <==> forall k <- fields | v.GetObject(k).Some? :: CleanBody(v.GetObject(k).value) == v.GetObject(k).value
    decreases v, |fields|
  {
    if fields != [] {
      EnvelopesAuditSilent(v, fields[1..]);
      if v.GetObject(fields[0]).Some? {
        BodyAuditSilent(v.GetObject(fields[0]).value);
      }
    }
  }

  /** Cleaning a body is cleaning its media arrays and its envelopes, which lie apart. */
  lemma CleanBodyParts(v: Json)
    ensures CleanBody(v) == v
            <==> (&& CleanFields(v, MEDIA_FIELDS) == v
                  && forall k <- ENVELOPE_FIELDS | v.GetObject(k).Some? ::
                       CleanBody(v.GetObject(k).value) == v.GetObject(k).value)
  {
    if v.Object? {
      var w, m := CleanBody(v), CleanFields(v, MEDIA_FIELDS);
      assert w == v <==> w.fields == v.fields;
      assert m == v <==> m.fields == v.fields;
      forall k <- v.fields.Keys
        ensures w.fields[k] == v.fields[k]
                <==> (&& m.fields[k] == v.fields[k]
                      && (k in ENVELOPE_FIELDS && v.GetObject(k).Some? ==>
                            CleanBody(v.GetObject(k).value) == v.GetObject(k).value))
      {
        MediaIsNoEnvelope(k);
      }
    }
  }

  /** Nothing is recorded exactly when nothing is removed. */
  lemma {:induction false} BodyAuditSilent(v: Json)
    ensures BodyAudit(v) == [] <==> CleanBody(v) == v
    decreases v, |ENVELOPE_FIELDS| + 1
  {
    FieldsAuditSilent(v, MEDIA_FIELDS);
    EnvelopesAuditSilent(v, ENVELOPE_FIELDS);
    CleanBodyParts(v);
  }
}
