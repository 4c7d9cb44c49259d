/**
 What cleaning a body of remote media guarantees: soundness, minimal change, idempotence, and an
 audit that is empty exactly when nothing changed.
 */
module MediaProofs {
  import opened Sequences
  import opened JsonPointer
  import opened MediaSurfaces

  // ---------- Frame: trimming never touches what makes an item a reference ----------

  /** The two values differ at most in members that hold media arrays. */
  predicate SameOffMedia(v: Json, w: Json) {
    || v == w
    || (&& v.Object? && w.Object? && v.fields.Keys == w.fields.Keys
        && forall k <- v.fields.Keys | k !in MEDIA_FIELDS :: v.fields[k] == w.fields[k])
  }

  predicate OffMedia(cs: seq<Candidate>) {
    forall c <- cs :: c.suffix != [] && c.suffix[0].Key? && c.suffix[0].name !in MEDIA_FIELDS
  }

  lemma {:induction false} FoundFrame(v: Json, w: Json, cs: seq<Candidate>)
    requires SameOffMedia(v, w) && OffMedia(cs)
    ensures FoundAll(v, cs) == FoundAll(w, cs)
  {
    if cs != [] {
      assert cs[0] in cs;
      assert StepInto(v, cs[0].suffix[0]) == StepInto(w, cs[0].suffix[0]);
      FoundFrame(v, w, cs[1..]);
    }
  }

  lemma CandidatesFrame(v: Json, w: Json)
    requires SameOffMedia(v, w)
    ensures Candidates(v) == Candidates(w)
  {
    FieldsApart();
    assert v.Get("type") == w.Get("type");
    assert v.Get("source") == w.Get("source");
    assert Walk(v, SOURCE_TYPE) == Walk(w, SOURCE_TYPE);
  }

  lemma CandidatesOffMedia(v: Json)
    ensures OffMedia(Candidates(v))
  {
    FieldsApart();
    assert OffMedia(TypedCandidates(v)) && OffMedia(UNTYPED_CANDIDATES);
  }

  lemma ReferencesFrame(v: Json, w: Json)
    requires SameOffMedia(v, w)
    ensures References(v) == References(w) && IsContainer(v) == IsContainer(w)
  {
    FieldsApart();
    assert v.Get("type") == w.Get("type");
    CandidatesFrame(v, w);
    CandidatesOffMedia(v);
    FoundFrame(v, w, Candidates(v));
  }

  lemma TrimmedItemFrame(a: Json, b: Json)
    requires TrimmedItem(a, b)
    ensures References(a) == References(b) && IsContainer(a) == IsContainer(b)
  {
    FieldsApart();
    ReferencesFrame(a, b);
  }

  lemma NestedIsMedia(k: string)
    ensures k in NESTED_FIELDS ==> k in MEDIA_FIELDS
  {
    FieldsApart();
  }

  lemma CleanItemFrame(item: Json)
    ensures References(CleanItem(item)) == References(item)
    ensures IsContainer(CleanItem(item)) == IsContainer(item)
  {
    if IsContainer(item) {
      CleanFieldsFrame(item);
      ReferencesFrame(item, CleanFields(item, NESTED_FIELDS));
    }
  }

  lemma CleanFieldsFrame(v: Json)
    ensures SameOffMedia(v, CleanFields(v, NESTED_FIELDS))
  {
    if v.Object? {
      forall k <- v.fields.Keys | k !in MEDIA_FIELDS
        ensures v.fields[k] == CleanFields(v, NESTED_FIELDS).fields[k]
      {
        NestedIsMedia(k);
      }
    }
  }

  // ---------- Paths into the first item and past it ----------

  /** The same item path, in an array whose first `offset` items are not in view. */
  function Shifted(path: seq<Step>, offset: int): seq<Step>
    requires path != [] && path[0].At? && path[0].index + offset >= 0
  {
    [At(path[0].index + offset)] + path[1..]
  }

  /** A surface within the first item, seen from the whole array. */
  lemma FirstSurface(items: seq<Json>, q: seq<Step>, outermost: bool)
    requires items != []
    ensures ItemSurface(items, [At(0)] + q, outermost)
            <==> q == [] || (&& IsContainer(items[0]) && (outermost ==> References(items[0]) == [])
                             && FieldSurface(items[0], q, NESTED_FIELDS, outermost))
    ensures ReferencesAt(Array(items), [At(0)] + q) == ReferencesAt(items[0], q)
  {
    ConsParts(At(0), q);
  }

  /** A surface of all items but the first, seen from the whole array. */
  lemma ShiftedSurface(items: seq<Json>, q: seq<Step>, first: nat, outermost: bool)
    requires items != [] && q != [] && q[0].At?
    ensures Shifted(Shifted(q, 1), first) == Shifted(q, first + 1)
    ensures ItemSurface(items, Shifted(q, 1), outermost) == ItemSurface(items[1..], q, outermost)
    ensures ReferencesAt(Array(items), Shifted(q, 1)) == ReferencesAt(Array(items[1..]), q)
  {
    assert Shifted(q, 1)[1..] == q[1..];
  }

  /** The same, starting from a path in the whole array. */
  lemma PastFirst(items: seq<Json>, p: seq<Step>, first: nat, outermost: bool)
    requires items != [] && p != [] && p[0].At? && p[0].index > 0
    ensures Shifted(Shifted(p, -1), first + 1) == Shifted(p, first) && |Shifted(p, -1)| == |p|
    ensures ItemSurface(items, p, outermost) == ItemSurface(items[1..], Shifted(p, -1), outermost)
    ensures ReferencesAt(Array(items), p) == ReferencesAt(Array(items[1..]), Shifted(p, -1))
  {
    assert Shifted(Shifted(p, -1), 1) == p;
    ShiftedSurface(items, Shifted(p, -1), first, outermost);
  }

  // ---------- Soundness ----------

  ghost predicate ItemsFree(items: seq<Json>) {
    forall path: seq<Step> | ItemSurface(items, path, false) :: ReferencesAt(Array(items), path) == []
  }

  ghost predicate FieldsFree(v: Json, fields: seq<string>) {
    forall path: seq<Step> | FieldSurface(v, path, fields, false) :: ReferencesAt(v, path) == []
  }

  lemma {:induction false} CleanItemsFree(items: seq<Json>)
    ensures ItemsFree(CleanItems(items))
  {
    if items != [] {
      CleanItemsFree(items[1..]);
      if References(items[0]) == [] {
        var head, tail := CleanItem(items[0]), CleanItems(items[1..]);
        CleanItemFrame(items[0]);
        if IsContainer(items[0]) {
          CleanFieldsFree(items[0], NESTED_FIELDS);
        }
        ItemsFreeCons(head, tail);
        assert CleanItems(items) == [head] + tail;
      }
    }
  }

  lemma {:induction false} CleanFieldsFree(v: Json, fields: seq<string>)
    ensures FieldsFree(CleanFields(v, fields), fields)
  {
    forall path: seq<Step> | FieldSurface(CleanFields(v, fields), path, fields, false)
      ensures ReferencesAt(CleanFields(v, fields), path) == []
    {
      var items := v.fields[path[0].name].items;
      CleanItemsFree(items);
      assert ReferencesAt(Array(CleanItems(items)), path[1..]) == [];
    }
  }

  lemma ItemsFreeCons(head: Json, tail: seq<Json>)
    requires References(head) == [] && ItemsFree(tail)
    requires IsContainer(head) ==> FieldsFree(head, NESTED_FIELDS)
    ensures ItemsFree([head] + tail)
  {
    var items := [head] + tail;
    forall path: seq<Step> | ItemSurface(items, path, false)
      ensures ReferencesAt(Array(items), path) == []
    {
      if path[0].index == 0 {
        HeadTail(path);
        FirstSurface(items, path[1..], false);
      } else {
        PastFirst(items, path, 0, false);
      }
    }
  }

  lemma ItemsFreeParts(items: seq<Json>)
    requires items != [] && ItemsFree(items)
    ensures References(items[0]) == [] && ItemsFree(items[1..])
    ensures IsContainer(items[0]) ==> FieldsFree(items[0], NESTED_FIELDS)
  {
    FirstSurface(items, [], false);
    assert [At(0)] + [] == [At(0)];
    forall path: seq<Step> | IsContainer(items[0]) && FieldSurface(items[0], path, NESTED_FIELDS, false)
      ensures ReferencesAt(items[0], path) == []
    {
      FirstSurface(items, path, false);
    }
    forall path: seq<Step> | ItemSurface(items[1..], path, false)
      ensures ReferencesAt(Array(items[1..]), path) == []
    {
      ShiftedSurface(items, path, 0, false);
    }
  }

  lemma FieldsFreeArray(v: Json, fields: seq<string>, k: string)
    requires FieldsFree(v, fields) && k in fields && v.GetArray(k).Some?
    ensures ItemsFree(v.GetArray(k).value)
  {
    forall path: seq<Step> | ItemSurface(v.GetArray(k).value, path, false)
      ensures ReferencesAt(v.Get(k).value, path) == []
    {
      ConsParts(Key(k), path);
      assert FieldSurface(v, [Key(k)] + path, fields, false);
    }
  }

  lemma {:induction false} CleanBodyFree(v: Json)
    ensures ReferenceFree(CleanBody(v))
  {
    FieldsApart();
    forall path: seq<Step> | Surface(CleanBody(v), path)
      ensures ReferencesAt(CleanBody(v), path) == []
    {
      var k := path[0].name;
      if k in MEDIA_FIELDS {
        CleanItemsFree(v.fields[k].items);
        assert ReferencesAt(CleanBody(v).fields[k], path[1..]) == [];
      } else {
        CleanBodyFree(v.fields[k]);
        assert ReferencesAt(CleanBody(v).fields[k], path[1..]) == [];
      }
    }
  }

  // ---------- Minimal change ----------

  lemma {:induction false} CleanItemsTrimmed(items: seq<Json>)
    ensures TrimmedItems(items, CleanItems(items))
  {
    if items != [] {
      CleanItemsTrimmed(items[1..]);
      if References(items[0]) == [] {
        CleanItemTrimmed(items[0]);
        assert CleanItems(items)[1..] == CleanItems(items[1..]);
      }
    }
  }

  lemma {:induction false} CleanItemTrimmed(item: Json)
    ensures TrimmedItem(item, CleanItem(item))
  {
    if IsContainer(item) && item.Object? {
      forall k <- item.fields.Keys | item.fields[k].Array? {
        CleanItemsTrimmed(item.fields[k].items);
      }
    }
  }

  lemma {:induction false} CleanBodyTrimmed(v: Json)
    ensures TrimmedBody(v, CleanBody(v))
  {
    if v.Object? {
      forall k <- v.fields.Keys
        ensures v.fields[k].Array? ==> TrimmedItems(v.fields[k].items, CleanItems(v.fields[k].items))
        ensures v.fields[k].Object? ==> TrimmedBody(v.fields[k], CleanBody(v.fields[k]))
      {
        if v.fields[k].Array? {
          CleanItemsTrimmed(v.fields[k].items);
        } else if v.fields[k].Object? {
          CleanBodyTrimmed(v.fields[k]);
        }
      }
    }
  }

  /** Any reference-free trimming of the items is a trimming of the cleaned items. */
  lemma {:induction false} CleanItemsLargest(a: seq<Json>, b: seq<Json>)
    requires TrimmedItems(a, b) && ItemsFree(b)
    ensures TrimmedItems(CleanItems(a), b)
  {
    if a != [] {
      if TrimmedItems(a[1..], b) {
        CleanItemsLargest(a[1..], b);
      } else {
        ItemsFreeParts(b);
        TrimmedItemFrame(a[0], b[0]);
        CleanItemsLargest(a[1..], b[1..]);
        CleanItemLargest(a[0], b[0]);
      }
      if References(a[0]) == [] {
        assert CleanItems(a)[1..] == CleanItems(a[1..]);
      }
    }
  }

  lemma {:induction false} CleanItemLargest(a: Json, b: Json)
    requires TrimmedItem(a, b) && (IsContainer(b) ==> FieldsFree(b, NESTED_FIELDS))
    ensures TrimmedItem(CleanItem(a), b)
  {
    TrimmedItemFrame(a, b);
    CleanItemFrame(a);
    if IsContainer(a) && a.Object? {
      forall k <- a.fields.Keys | k in NESTED_FIELDS && a.fields[k].Array?
        ensures TrimmedItems(CleanItems(a.fields[k].items), b.fields[k].items)
      {
        FieldsFreeArray(b, NESTED_FIELDS, k);
        CleanItemsLargest(a.fields[k].items, b.fields[k].items);
      }
    }
  }

  lemma {:induction false} CleanBodyLargest(a: Json, b: Json)
    requires TrimmedBody(a, b) && ReferenceFree(b)
    ensures TrimmedBody(CleanBody(a), b)
  {
    FieldsApart();
    if a.Object? {
      forall k <- a.fields.Keys
        ensures k in MEDIA_FIELDS && a.fields[k].Array? ==>
                  TrimmedItems(CleanItems(a.fields[k].items), b.fields[k].items)
        ensures k in ENVELOPE_FIELDS && a.fields[k].Object? ==> TrimmedBody(CleanBody(a.fields[k]), b.fields[k])
      {
        if k in MEDIA_FIELDS && a.fields[k].Array? {
          assert FieldsFree(b, MEDIA_FIELDS);
          FieldsFreeArray(b, MEDIA_FIELDS, k);
          CleanItemsLargest(a.fields[k].items, b.fields[k].items);
        } else if k in ENVELOPE_FIELDS && a.fields[k].Object? {
          EnvelopeFree(b, k);
          CleanBodyLargest(a.fields[k], b.fields[k]);
        }
      }
    }
  }

  lemma EnvelopeFree(v: Json, k: string)
    requires ReferenceFree(v) && k in ENVELOPE_FIELDS && v.GetObject(k).Some?
    ensures ReferenceFree(v.Get(k).value)
  {
    forall path: seq<Step> | Surface(v.Get(k).value, path)
      ensures ReferencesAt(v.Get(k).value, path) == []
    {
      ConsParts(Key(k), path);
      assert Surface(v, [Key(k)] + path);
    }
  }

  /**
   Minimal change: the cleaned body is a reference-free trimming of the original, and every other
   reference-free trimming is obtained from it by deleting still more.
   */
  lemma CleanBodyIsLargestFreeTrimming(v: Json)
    ensures TrimmedBody(v, CleanBody(v)) && ReferenceFree(CleanBody(v))
    ensures forall b | TrimmedBody(v, b) && ReferenceFree(b) :: TrimmedBody(CleanBody(v), b)
  {
    CleanBodyTrimmed(v);
    CleanBodyFree(v);
    forall b | TrimmedBody(v, b) && ReferenceFree(b)
      ensures TrimmedBody(CleanBody(v), b)
    {
      CleanBodyLargest(v, b);
    }
  }

  // ---------- Fixed points ----------

  lemma {:induction false} FreeItemsUnchanged(items: seq<Json>)
    requires ItemsFree(items)
    ensures CleanItems(items) == items
  {
    if items != [] {
      ItemsFreeParts(items);
      FreeItemsUnchanged(items[1..]);
      if IsContainer(items[0]) {
        FreeFieldsUnchanged(items[0], NESTED_FIELDS);
      }
    }
  }

  lemma {:induction false} FreeFieldsUnchanged(v: Json, fields: seq<string>)
    requires FieldsFree(v, fields)
    ensures CleanFields(v, fields) == v
  {
    if v.Object? {
      forall k <- v.fields.Keys | k in fields && v.fields[k].Array?
        ensures CleanItems(v.fields[k].items) == v.fields[k].items
      {
        FieldsFreeArray(v, fields, k);
        FreeItemsUnchanged(v.fields[k].items);
      }
      assert CleanFields(v, fields).fields == v.fields;
    }
  }

  /** A body is left alone exactly when no surface item refers to remote media. */
  lemma {:induction false} CleanBodyUnchanged(v: Json)
    ensures CleanBody(v) == v <==> ReferenceFree(v)
  {
    CleanBodyFree(v);
    if ReferenceFree(v) && v.Object? {
      forall k <- v.fields.Keys
        ensures k in MEDIA_FIELDS && v.fields[k].Array? ==> CleanItems(v.fields[k].items) == v.fields[k].items
        ensures k in ENVELOPE_FIELDS && v.fields[k].Object? ==> CleanBody(v.fields[k]) == v.fields[k]
      {
        if k in MEDIA_FIELDS && v.fields[k].Array? {
          assert FieldsFree(v, MEDIA_FIELDS);
          FieldsFreeArray(v, MEDIA_FIELDS, k);
          FreeItemsUnchanged(v.fields[k].items);
        } else if k in ENVELOPE_FIELDS && v.fields[k].Object? {
          EnvelopeFree(v, k);
          CleanBodyUnchanged(v.fields[k]);
        }
      }
      assert CleanBody(v).fields == v.fields;
    }
  }
}
