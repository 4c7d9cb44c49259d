/**
 Provider-hosted tools: which are stripped from a `tools` array, how `tool_choice` is repaired
 afterwards, and what that guarantees. `StripHosted` is applied to a request body and to the
 `session` of a `session.update` frame alike.
 */
module ServerTools {
  import opened Wrappers
  import opened Sequences
  import opened Text
  import opened JsonPointer

  predicate IsServerSide(kind: string) { Lower(kind) != "function" && Lower(kind) != "custom" }

  /** The declared type of a tool that is to be stripped. `allowed` holds lower-case names. */
  function HostedKind(tool: Json, allowed: set<string>): Option<string> {
    var kind := tool.GetStr("type");
    if kind.Some? && IsServerSide(kind.value) && Lower(kind.value) !in allowed then kind else None
  }

  function StripTools(tools: seq<Json>, allowed: set<string>): seq<Json> {
    if tools == [] then []
    else if HostedKind(tools[0], allowed).Some? then StripTools(tools[1..], allowed)
    else [tools[0]] + StripTools(tools[1..], allowed)
  }

  function RemovedKinds(tools: seq<Json>, allowed: set<string>): set<string> {
    set tool | tool in tools && HostedKind(tool, allowed).Some? :: Lower(HostedKind(tool, allowed).value)
  }

  /** A stripped tool: its index in the original array and its declared type. */
  datatype ToolRemoval = ToolRemoval(index: nat, kind: string)

  function ToolsAudit(tools: seq<Json>, allowed: set<string>, first: nat := 0): seq<ToolRemoval> {
    if tools == [] then []
    else
      var kind := HostedKind(tools[0], allowed);
      (if kind.Some? then [ToolRemoval(first, kind.value)] else []) + ToolsAudit(tools[1..], allowed, first + 1)
  }

  function Tools(v: Json): seq<Json> {
    if v.GetArray("tools").Some? then v.GetArray("tools").value else []
  }

  /** The choice names one of the given tool types. */
  predicate Names(choice: Json, kinds: set<string>) {
    match choice
    case String(text) => Lower(text) in kinds
    case Object(_) =>
      || (choice.GetStr("type").Some? && Lower(choice.GetStr("type").value) in kinds)
      || (choice.GetStr("name").Some? && Lower(choice.GetStr("name").value) in kinds)
    case _ => false
  }

  const AUTO := String("auto")

  /** Whether `tool_choice` must be replaced once tools of the given types have been removed. */
  predicate NeedsRepair(v: Json, removed: set<string>) {
    && removed != {}
    && v.Get("tool_choice").Some?
    && var choice := v.Get("tool_choice").value;
       Names(choice, removed) || (|Tools(v)| == 0 && choice !in [AUTO, String("none")])
  }

  function Repaired(v: Json, removed: set<string>): Json {
    if NeedsRepair(v, removed) then Object(v.fields["tool_choice" := AUTO]) else v
  }

  /** `v` with its `tools` array, if it has one, stripped. */
  function Stripped(v: Json, allowed: set<string>): Json {
    if v.GetArray("tools").Some? then Object(v.fields["tools" := Array(StripTools(Tools(v), allowed))]) else v
  }

  function StripHosted(v: Json, allowed: set<string>): Json {
    Repaired(Stripped(v, allowed), RemovedKinds(Tools(v), allowed))
  }

  // ---------- What is stripped ----------

  /** `b` is `a` with some elements left out. */
  predicate Sublist(a: seq<Json>, b: seq<Json>) {
    if a == [] then b == []
    else Sublist(a[1..], b) || (b != [] && a[0] == b[0] && Sublist(a[1..], b[1..]))
  }

  predicate HostFree(tools: seq<Json>, allowed: set<string>) {
    forall tool <- tools :: HostedKind(tool, allowed).None?
  }

  /** The stripped array is the longest sublist without a hosted tool that is not allowed. */
  lemma {:induction false} StripToolsIsLargestFreeSublist(tools: seq<Json>, allowed: set<string>)
    ensures Sublist(tools, StripTools(tools, allowed)) && HostFree(StripTools(tools, allowed), allowed)
    ensures forall b | Sublist(tools, b) && HostFree(b, allowed) :: Sublist(StripTools(tools, allowed), b)
    decreases |tools|
  {
    hide HostedKind;
    if tools != [] {
      var rest := StripTools(tools[1..], allowed);
      StripToolsIsLargestFreeSublist(tools[1..], allowed);
      ConsParts(tools[0], rest);
      forall b | Sublist(tools, b) && HostFree(b, allowed)
        ensures Sublist(StripTools(tools, allowed), b)
      {
        if !Sublist(tools[1..], b) {
          assert b[0] in b && HostFree(b[1..], allowed);
        }
      }
    }
  }

  /** The audit lists exactly the stripped tools, by original index, in order. */
  lemma {:induction false} ToolsAuditExact(tools: seq<Json>, allowed: set<string>, first: nat := 0)
    ensures forall e: ToolRemoval ::
              e in ToolsAudit(tools, allowed, first)
              <==> first <= e.index < first + |tools| && HostedKind(tools[e.index - first], allowed) == Some(e.kind)
    ensures forall i, j | 0 <= i < j < |ToolsAudit(tools, allowed, first)| ::
              ToolsAudit(tools, allowed, first)[i].index < ToolsAudit(tools, allowed, first)[j].index
    decreases |tools|
  {
    hide HostedKind;
    if tools != [] {
      ToolsAuditExact(tools[1..], allowed, first + 1);
      var rest := ToolsAudit(tools[1..], allowed, first + 1);
      assert forall i | 0 <= i < |rest| :: rest[i] in rest;
    }
  }

  lemma {:induction false} ToolsAuditSilent(tools: seq<Json>, allowed: set<string>, first: nat := 0)
    ensures ToolsAudit(tools, allowed, first) == [] <==> StripTools(tools, allowed) == tools
    ensures ToolsAudit(tools, allowed, first) == [] <==> RemovedKinds(tools, allowed) == {}
    ensures |StripTools(tools, allowed)| <= |tools|
    decreases |tools|
  {
    hide HostedKind;
    if tools != [] {
      ToolsAuditSilent(tools[1..], allowed, first + 1);
      HeadTail(tools);
      ConsParts(tools[0], StripTools(tools[1..], allowed));
      RemovedKindsCons(tools, allowed);
    }
  }

  lemma RemovedKindsCons(tools: seq<Json>, allowed: set<string>)
    requires tools != []
    ensures RemovedKinds(tools, allowed)
         == (if HostedKind(tools[0], allowed).Some? then {Lower(HostedKind(tools[0], allowed).value)} else {})
            + RemovedKinds(tools[1..], allowed)
  {
    hide HostedKind;
    assert forall tool :: tool in tools <==> tool == tools[0] || tool in tools[1..];
  }

  /** No remaining tool has a removed type, whatever the letter case. */
  lemma RemovedKindsAreGone(tools: seq<Json>, allowed: set<string>)
    ensures forall tool <- StripTools(tools, allowed) | tool.GetStr("type").Some? ::
              Lower(tool.GetStr("type").value) !in RemovedKinds(tools, allowed)
  {
    StripToolsIsLargestFreeSublist(tools, allowed);
    forall tool <- StripTools(tools, allowed) | tool.GetStr("type").Some?
      ensures Lower(tool.GetStr("type").value) !in RemovedKinds(tools, allowed)
    {
      assert HostedKind(tool, allowed).None?;
    }
  }

  /**
   What becomes of a `tool_choice`: nothing when no type was removed; else it ends as "auto", or it
   is as it was, names no removed type and, if no tool remains, is "none".
   */
  predicate ChoiceUsable(before: Option<Json>, after: Option<Json>, removed: set<string>, remaining: seq<Json>) {
    if removed == {} || before.None? then after == before
    else
      && after.Some?
      && (after.value == AUTO
          || (after == before && !Names(after.value, removed) && (remaining == [] ==> after.value == String("none"))))
  }

  /** Stripping leaves a usable choice; with nothing removed, `v` is as it was. */
  lemma ChoiceIsUsable(v: Json, allowed: set<string>)
    ensures var removed, w := RemovedKinds(Tools(v), allowed), StripHosted(v, allowed);
            && ChoiceUsable(v.Get("tool_choice"), w.Get("tool_choice"), removed, Tools(w))
            && (removed == {} ==> w == v)
    ensures Tools(StripHosted(v, allowed)) == StripTools(Tools(v), allowed)
  {
    hide HostedKind;
    ToolsAuditSilent(Tools(v), allowed);
    assert "tools" != "tool_choice";
    if v.GetArray("tools").Some? && RemovedKinds(Tools(v), allowed) == {} {
      assert v.fields["tools" := Array(Tools(v))] == v.fields;
    }
  }

  // ---------- Stripping twice ----------

  lemma {:induction false} StripToolsAbsorbs(tools: seq<Json>, strict: set<string>, loose: set<string>)
    requires strict <= loose
    ensures StripTools(StripTools(tools, loose), strict) == StripTools(tools, strict)
    ensures RemovedKinds(tools, strict)
         == RemovedKinds(tools, loose) + RemovedKinds(StripTools(tools, loose), strict)
    decreases |tools|
  {
    if tools != [] {
      StripToolsAbsorbs(tools[1..], strict, loose);
      var rest := StripTools(tools[1..], loose);
      ConsParts(tools[0], rest);
      RemovedKindsCons(tools, strict);
      RemovedKindsCons(tools, loose);
      RemovedKindsCons([tools[0]] + rest, strict);
    }
  }

  /** The members of a stripped value, one by one. */
  lemma StripHostedMembers(v: Json, allowed: set<string>)
    ensures v.GetArray("tools").None? ==> StripHosted(v, allowed) == v
    ensures v.GetArray("tools").Some? ==>
              var w, removed := StripHosted(v, allowed), RemovedKinds(Tools(v), allowed);
              && w.Object? && w.fields.Keys == v.fields.Keys
              && w.fields["tools"] == Array(StripTools(Tools(v), allowed))
              && (forall k <- v.fields.Keys | k != "tools" && k != "tool_choice" :: w.fields[k] == v.fields[k])
              && ("tool_choice" in v.fields ==>
                    w.fields["tool_choice"]
                    == ChoiceAfter(v.fields["tool_choice"], removed, |StripTools(Tools(v), allowed)|))
  {
    hide HostedKind;
    assert "tools" != "tool_choice";
  }

  function ChoiceAfter(choice: Json, removed: set<string>, remaining: nat): Json {
    if removed != {} && (Names(choice, removed) || (remaining == 0 && choice !in [AUTO, String("none")]))
    then AUTO else choice
  }

  lemma NamesUnion(choice: Json, a: set<string>, b: set<string>)
    ensures Names(choice, a + b) == (Names(choice, a) || Names(choice, b)) && !Names(choice, {})
  {
  }

  /** Stripping under a stricter allowlist afterwards is stripping under it alone. */
  lemma StripHostedAbsorbs(v: Json, strict: set<string>, loose: set<string>)
    requires strict <= loose
    ensures StripHosted(StripHosted(v, loose), strict) == StripHosted(v, strict)
  {
    hide HostedKind;
    StripHostedMembers(v, loose);
    StripHostedMembers(v, strict);
    var w := StripHosted(v, loose);
    StripHostedMembers(w, strict);
    if v.GetArray("tools").Some? {
      var tools := Tools(v);
      StripToolsAbsorbs(tools, strict, loose);
      assert Tools(w) == StripTools(tools, loose);
      if "tool_choice" in v.fields {
        ChoiceAbsorbs(v.fields["tool_choice"], tools, strict, loose);
      }
      assert StripHosted(w, strict).fields == StripHosted(v, strict).fields;
    }
  }

  lemma ChoiceAbsorbs(choice: Json, tools: seq<Json>, strict: set<string>, loose: set<string>)
    requires strict <= loose
    ensures var kept := StripTools(tools, loose);
            var once := ChoiceAfter(choice, RemovedKinds(tools, loose), |kept|);
            ChoiceAfter(once, RemovedKinds(kept, strict), |StripTools(kept, strict)|)
            == ChoiceAfter(choice, RemovedKinds(tools, strict), |StripTools(tools, strict)|)
  {
    hide HostedKind, Names;
    var kept := StripTools(tools, loose);
    StripToolsAbsorbs(tools, strict, loose);
    ToolsAuditSilent(tools, loose);
    ToolsAuditSilent(kept, strict);
    NamesUnion(choice, RemovedKinds(tools, loose), RemovedKinds(kept, strict));
  }
}
