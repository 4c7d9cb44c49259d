/**
 The request-body sanitizer as a function of body and policy, and the theorems about it: absorption
 (hence idempotence), exactness of the audit as JSON Pointers into the original body, and silence
 exactly when the body is unchanged.
 */
module BodySanitizer {
  import opened Wrappers
  import opened Text
  import opened JsonPointer
  import opened MediaSurfaces
  import opened MediaProofs
  import opened MediaAudit
  import opened ServerTools

  datatype DelegatedFetchPolicy = DelegatedFetchPolicy(allowRemoteContent: bool, allowedServerTools: seq<string>)

  function AllowedTools(policy: DelegatedFetchPolicy): set<string> {
    set tool | tool in policy.allowedServerTools :: Lower(tool)
  }

  // ---------- The sanitized body ----------

  function AfterMedia(body: Json, policy: DelegatedFetchPolicy): Json {
    if policy.allowRemoteContent then body else CleanBody(body)
  }

  predicate IsSessionUpdate(body: Json) {
    body.GetStr("type") == Some("session.update") && body.Get("session").Some?
  }

  function StripSession(body: Json, allowed: set<string>): Json {
    if IsSessionUpdate(body)
    then Object(body.fields["session" := StripHosted(body.fields["session"], allowed)])
    else body
  }

  function StripEverywhere(body: Json, allowed: set<string>): Json {
    StripSession(StripHosted(body, allowed), allowed)
  }

  function Sanitized(body: Json, policy: DelegatedFetchPolicy): Json {
    StripEverywhere(AfterMedia(body, policy), AllowedTools(policy))
  }

  // ---------- The audit ----------

  datatype Finding =
    | MediaRemoved(removal: Removal)
    | ToolRemoved(path: seq<Step>, kind: string)
    | ChoiceRepaired

  /** One record of the audit log. The host is whatever URL parsing makes of `uri`. */
  datatype StrippedItem = StrippedItem(fieldPath: string, capability: string, uri: Option<string>)

  function Report(finding: Finding): StrippedItem {
    match finding
    case MediaRemoved(e) => StrippedItem(Render(e.path), e.capability, Some(e.uri))
    case ToolRemoved(path, kind) => StrippedItem(Render(path), "server_tool:" + kind, None)
    case ChoiceRepaired => StrippedItem("/tool_choice", "tool_choice_normalized", None)
  }

  function Reports(findings: seq<Finding>): (items: seq<StrippedItem>)
    ensures |items| == |findings|
  {
    seq(|findings|, i requires 0 <= i < |findings| => Report(findings[i]))
  }

  function MediaFindings(body: Json, policy: DelegatedFetchPolicy): seq<Finding> {
    if policy.allowRemoteContent then []
    else seq(|BodyAudit(body)|, i requires 0 <= i < |BodyAudit(body)| => MediaRemoved(BodyAudit(body)[i]))
  }

  function ToolFindings(tools: seq<Json>, allowed: set<string>, prefix: seq<Step>): seq<Finding> {
    var audit := ToolsAudit(tools, allowed);
    seq(|audit|, i requires 0 <= i < |audit| => ToolRemoved(prefix + [At(audit[i].index)], audit[i].kind))
  }

  function ChoiceFindings(v: Json, allowed: set<string>): seq<Finding> {
    if NeedsRepair(Stripped(v, allowed), RemovedKinds(Tools(v), allowed)) then [ChoiceRepaired] else []
  }

  const TOOLS_PATH := [Key("tools")]
  const SESSION_TOOLS_PATH := [Key("session"), Key("tools")]

  function SessionOf(body: Json): Json {
    if IsSessionUpdate(body) then body.fields["session"] else Null
  }

  function Findings(body: Json, policy: DelegatedFetchPolicy): seq<Finding> {
    var allowed := AllowedTools(policy);
    MediaFindings(body, policy)
    + ToolFindings(Tools(body), allowed, TOOLS_PATH) + ChoiceFindings(body, allowed)
    + ToolFindings(Tools(SessionOf(body)), allowed, SESSION_TOOLS_PATH) + ChoiceFindings(SessionOf(body), allowed)
  }

  // ---------- Media and tools lie apart ----------

  lemma CleanBodyMembers(v: Json)
    ensures forall k <- ["type", "tools", "tool_choice"] :: CleanBody(v).Get(k) == v.Get(k)
    ensures CleanBody(v).Get("session")
         == if v.GetObject("session").Some? then Some(CleanBody(v.GetObject("session").value)) else v.Get("session")
    ensures Tools(CleanBody(v)) == Tools(v)
  {
    FieldsApart();
    assert "session" in ENVELOPE_FIELDS && "session" !in MEDIA_FIELDS;
    assert "type" in ["type", "tools", "tool_choice"] && "tools" in ["type", "tools", "tool_choice"];
  }

  lemma NotMedia(k: string)
    requires k in ["type", "tools", "tool_choice", "session"]
    ensures k !in MEDIA_FIELDS && (k in ENVELOPE_FIELDS <==> k == "session")
  {
    FieldsApart();
  }

  /** Removing media commutes with stripping tools. */
  lemma CleanStripCommute(v: Json, allowed: set<string>)
    ensures CleanBody(StripHosted(v, allowed)) == StripHosted(CleanBody(v), allowed)
  {
    hide StripHosted, HostedKind, RemovedKinds, StripTools, ChoiceAfter, CleanItems;
    StripHostedMembers(v, allowed);
    StripHostedMembers(CleanBody(v), allowed);
    CleanBodyMembers(v);
    NotMedia("tools");
    NotMedia("tool_choice");
    if v.GetArray("tools").Some? {
      assert CleanBody(StripHosted(v, allowed)).fields == StripHosted(CleanBody(v), allowed).fields;
    }
  }

  lemma StripHostedGet(v: Json, allowed: set<string>, k: string)
    requires k != "tools" && k != "tool_choice"
    ensures StripHosted(v, allowed).Get(k) == v.Get(k)
  {
    StripHostedMembers(v, allowed);
  }

  lemma StripHostedShape(v: Json, allowed: set<string>)
    ensures v.Object? == StripHosted(v, allowed).Object?
    ensures v.Object? ==> StripHosted(v, allowed).fields.Keys == v.fields.Keys
  {
    StripHostedMembers(v, allowed);
  }

  lemma StripSessionCommute(v: Json, allowed: set<string>)
    ensures CleanBody(StripSession(v, allowed)) == StripSession(CleanBody(v), allowed)
  {
    hide StripHosted, CleanItems;
    CleanBodyMembers(v);
    assert "type" in ["type", "tools", "tool_choice"];
    if IsSessionUpdate(v) {
      var session := v.fields["session"];
      CleanStripCommute(session, allowed);
      StripHostedShape(session, allowed);
      NotMedia("session");
      assert CleanBody(StripSession(v, allowed)).fields == StripSession(CleanBody(v), allowed).fields;
    }
  }

  lemma StripEverywhereCommute(v: Json, allowed: set<string>)
    ensures CleanBody(StripEverywhere(v, allowed)) == StripEverywhere(CleanBody(v), allowed)
  {
    StripSessionCommute(StripHosted(v, allowed), allowed);
    CleanStripCommute(v, allowed);
  }

  /** Stripping the session and stripping the body touch different members. */
  lemma StripSwap(v: Json, a: set<string>, b: set<string>)
    ensures StripHosted(StripSession(v, a), b) == StripSession(StripHosted(v, b), a)
  {
    hide StripHosted, HostedKind, RemovedKinds, StripTools, ChoiceAfter;
    assert "session" != "tools" && "session" != "tool_choice" && "type" != "tools" && "type" != "tool_choice";
    StripHostedGet(v, b, "type");
    StripHostedGet(v, b, "session");
    var w := StripSession(v, a);
    StripHostedMembers(v, b);
    StripHostedMembers(w, b);
    if IsSessionUpdate(v) {
      assert w.Get("tools") == v.Get("tools") && w.Get("tool_choice") == v.Get("tool_choice");
      assert StripHosted(w, b).fields == StripSession(StripHosted(v, b), a).fields;
    }
  }

  lemma StripSessionAbsorbs(v: Json, strict: set<string>, loose: set<string>)
    requires strict <= loose
    ensures StripSession(StripSession(v, loose), strict) == StripSession(v, strict)
  {
    hide StripHosted;
    if IsSessionUpdate(v) {
      assert "type" != "session";
      StripHostedAbsorbs(v.fields["session"], strict, loose);
      assert StripSession(StripSession(v, loose), strict).fields == StripSession(v, strict).fields;
    }
  }

  lemma StripEverywhereAbsorbs(v: Json, strict: set<string>, loose: set<string>)
    requires strict <= loose
    ensures StripEverywhere(StripEverywhere(v, loose), strict) == StripEverywhere(v, strict)
  {
    StripSwap(StripHosted(v, loose), loose, strict);
    StripHostedAbsorbs(v, strict, loose);
    StripSessionAbsorbs(StripHosted(v, strict), strict, loose);
  }

  // ---------- Absorption ----------

  predicate AtMostAsPermissive(p: DelegatedFetchPolicy, q: DelegatedFetchPolicy) {
    (p.allowRemoteContent ==> q.allowRemoteContent) && AllowedTools(p) <= AllowedTools(q)
  }

  /** Sanitizing for a policy after sanitizing for a more permissive one is sanitizing for it alone. */
  lemma Absorption(body: Json, strict: DelegatedFetchPolicy, loose: DelegatedFetchPolicy)
    requires AtMostAsPermissive(strict, loose)
    ensures Sanitized(Sanitized(body, loose), strict) == Sanitized(body, strict)
  {
    hide StripEverywhere;
    var s, l := AllowedTools(strict), AllowedTools(loose);
    var media := AfterMedia(body, loose);
    StripEverywhereCommute(media, l);
    StripEverywhereAbsorbs(AfterMedia(media, strict), s, l);
    CleanBodyFree(body);
    CleanBodyUnchanged(CleanBody(body));
  }

  // ---------- Silence ----------

  lemma StripHostedUnchanged(v: Json, allowed: set<string>)
    ensures StripHosted(v, allowed) == v <==> RemovedKinds(Tools(v), allowed) == {}
    ensures ToolsAudit(Tools(v), allowed) == [] <==> RemovedKinds(Tools(v), allowed) == {}
    ensures RemovedKinds(Tools(v), allowed) == {} ==> ChoiceFindings(v, allowed) == []
  {
    hide HostedKind, StripTools, RemovedKinds, ToolsAudit, StripHosted;
    ToolsAuditSilent(Tools(v), allowed);
    ChoiceIsUsable(v, allowed);
  }

  lemma StripEverywhereUnchanged(body: Json, allowed: set<string>)
    ensures StripEverywhere(body, allowed) == body
            <==> RemovedKinds(Tools(body), allowed) == {} && RemovedKinds(Tools(SessionOf(body)), allowed) == {}
  {
    hide StripHosted, RemovedKinds;
    StripHostedUnchanged(body, allowed);
    StripHostedUnchanged(SessionOf(body), allowed);
    assert "session" != "tools";
    var w := StripHosted(body, allowed);
    assert Tools(StripSession(w, allowed)) == Tools(w);
    StripHostedGet(body, allowed, "session");
    StripHostedGet(body, allowed, "type");
    StripHostedShape(body, allowed);
    StripHostedTools(body, allowed);
    if w == body && IsSessionUpdate(body) {
      assert StripSession(w, allowed) == body <==> StripSession(w, allowed).fields == body.fields;
    }
    RemovedKindsNone(allowed);
  }

  lemma StripHostedTools(v: Json, allowed: set<string>)
    ensures Tools(StripHosted(v, allowed)) == Tools(v) <==> RemovedKinds(Tools(v), allowed) == {}
  {
    ChoiceIsUsable(v, allowed);
    ToolsAuditSilent(Tools(v), allowed);
  }

  lemma RemovedKindsNone(allowed: set<string>)
    ensures RemovedKinds([], allowed) == {}
  {
  }

  /** The audit is empty exactly when the body is unchanged. */
  lemma SilentIffUnchanged(body: Json, policy: DelegatedFetchPolicy)
    ensures Findings(body, policy) == [] <==> Sanitized(body, policy) == body
  {
    hide StripEverywhere, StripHosted, RemovedKinds, ToolsAudit, BodyAudit, ChoiceFindings;
    var allowed, media := AllowedTools(policy), AfterMedia(body, policy);
    BodyAuditSilent(body);
    StripHostedUnchanged(body, allowed);
    StripHostedUnchanged(SessionOf(body), allowed);
    StripEverywhereUnchanged(body, allowed);
    if Sanitized(body, policy) == body && !policy.allowRemoteContent {
      StripEverywhereCommute(media, allowed);
      CleanBodyFree(body);
      CleanBodyUnchanged(media);
      assert CleanBody(body) == body;
    }
  }

  /** A body that has been sanitized gives nothing to record. */
  lemma SecondAuditIsEmpty(body: Json, policy: DelegatedFetchPolicy)
    ensures Findings(Sanitized(body, policy), policy) == []
  {
    hide Sanitized, Findings;
    Absorption(body, policy, policy);
    SilentIffUnchanged(Sanitized(body, policy), policy);
  }

  // ---------- Exactness of the audit ----------

  /** The record's path, as a pointer into the body, is what was removed. */
  predicate PointsAtRemoved(body: Json, allowed: set<string>, finding: Finding) {
    var target := Pointer(body, Report(finding).fieldPath);
    match finding
    case MediaRemoved(e) => target == Some(String(e.uri))
    case ToolRemoved(_, kind) => target.Some? && HostedKind(target.value, allowed) == Some(kind)
    case ChoiceRepaired => true
  }

  function PathOf(finding: Finding): seq<Step> {
    match finding
    case MediaRemoved(e) => e.path
    case ToolRemoved(path, _) => path
    case ChoiceRepaired => []
  }

  lemma ToolFindingPoints(body: Json, tools: seq<Json>, allowed: set<string>, prefix: seq<Step>, finding: Finding)
    requires finding in ToolFindings(tools, allowed, prefix)
    requires PlainPath(prefix) && Walk(body, prefix) == Some(Array(tools))
    ensures PointsAtRemoved(body, allowed, finding) && PlainPath(finding.path)
  {
    hide HostedKind, Pointer, Render, ToolsAudit, PlainName;
    ToolsAuditExact(tools, allowed);
    var audit := ToolsAudit(tools, allowed);
    var i :| 0 <= i < |audit| && finding == ToolRemoved(prefix + [At(audit[i].index)], audit[i].kind);
    assert audit[i] in audit;
    WalkAppend(body, prefix, [At(audit[i].index)]);
    PointerOfRender(body, finding.path);
  }

  lemma ToolPathsPlain()
    ensures PlainPath(TOOLS_PATH) && PlainPath(SESSION_TOOLS_PATH)
  {
    assert PlainName("tools") && PlainName("session");
  }

  lemma WalkToTools(body: Json)
    ensures body.GetArray("tools").Some? ==> Walk(body, TOOLS_PATH) == Some(Array(Tools(body)))
    ensures SessionOf(body).GetArray("tools").Some? ==>
              Walk(body, SESSION_TOOLS_PATH) == Some(Array(Tools(SessionOf(body))))
  {
    var session := SessionOf(body);
    if session.GetArray("tools").Some? {
      assert StepInto(body, Key("session")) == Some(session);
      assert SESSION_TOOLS_PATH[1..] == TOOLS_PATH;
      assert Walk(session, TOOLS_PATH) == Some(Array(Tools(session)));
    }
  }

  /** Every record but a repaired choice is a pointer, into the ORIGINAL body, to what was removed. */
  lemma FindingsPoint(body: Json, policy: DelegatedFetchPolicy, finding: Finding)
    requires finding in Findings(body, policy)
    ensures PointsAtRemoved(body, AllowedTools(policy), finding) && PlainPath(PathOf(finding))
    ensures Report(finding).fieldPath == Render(PathOf(finding)) || finding.ChoiceRepaired?
  {
    hide HostedKind, RemovedKinds, ToolsAudit, BodyAudit, NeedsRepair;
    var allowed, session := AllowedTools(policy), SessionOf(body);
    ToolPathsPlain();
    WalkToTools(body);
    if finding in MediaFindings(body, policy) {
      BodyAuditExact(body);
      var e := finding.removal;
      assert e in BodyAudit(body);
      PointerOfRender(body, e.path);
    } else if finding in ToolFindings(Tools(body), allowed, TOOLS_PATH) {
      NoToolsNoFindings(Tools(body), allowed, TOOLS_PATH);
      ToolFindingPoints(body, Tools(body), allowed, TOOLS_PATH, finding);
    } else if finding in ToolFindings(Tools(session), allowed, SESSION_TOOLS_PATH) {
      NoToolsNoFindings(Tools(session), allowed, SESSION_TOOLS_PATH);
      ToolFindingPoints(body, Tools(session), allowed, SESSION_TOOLS_PATH, finding);
    }
  }

  lemma NoToolsNoFindings(tools: seq<Json>, allowed: set<string>, prefix: seq<Step>)
    ensures tools == [] ==> ToolFindings(tools, allowed, prefix) == []
  {
  }

  // ---------- No two records share a path ----------

  predicate DistinctFindings(findings: seq<Finding>) {
    forall i, j | 0 <= i < j < |findings| && !findings[i].ChoiceRepaired? && !findings[j].ChoiceRepaired? ::
      PathOf(findings[i]) != PathOf(findings[j])
  }

  lemma DistinctFindingsConcat(a: seq<Finding>, b: seq<Finding>)
    requires DistinctFindings(a) && DistinctFindings(b)
    requires forall f <- a, g <- b | !f.ChoiceRepaired? && !g.ChoiceRepaired? :: PathOf(f) != PathOf(g)
    ensures DistinctFindings(a + b)
  {
    forall i, j | 0 <= i < j < |a + b| && !(a + b)[i].ChoiceRepaired? && !(a + b)[j].ChoiceRepaired?
      ensures PathOf((a + b)[i]) != PathOf((a + b)[j])
    {
      if i < |a| <= j {
        assert a[i] in a && b[j - |a|] in b;
      }
    }
  }

  lemma ToolFindingsDistinct(tools: seq<Json>, allowed: set<string>, prefix: seq<Step>)
    ensures DistinctFindings(ToolFindings(tools, allowed, prefix))
    ensures forall f <- ToolFindings(tools, allowed, prefix) ::
              f.ToolRemoved? && |f.path| == |prefix| + 1 && f.path[..|prefix|] == prefix
  {
    hide HostedKind;
    ToolsAuditExact(tools, allowed);
    var findings := ToolFindings(tools, allowed, prefix);
    forall i, j | 0 <= i < j < |findings|
      ensures PathOf(findings[i]) != PathOf(findings[j])
    {
      assert PathOf(findings[i])[|prefix|] != PathOf(findings[j])[|prefix|];
    }
  }

  lemma MediaPathIsNoToolPath(body: Json, e: Removal)
    requires e in BodyAudit(body)
    ensures |e.path| >= 2 && e.path[0] != Key("tools") && (e.path[0] == Key("session") ==> e.path[1] != Key("tools"))
  {
    hide References, BodyAudit;
    var p, r := BodyAuditSound(body, e);
    NotMedia("tools");
    if FieldSurface(body, p, MEDIA_FIELDS, true) {
      assert ItemSurface(body.GetArray(p[0].name).value, p[1..], true);
    } else {
      assert Surface(body.GetObject(p[0].name).value, p[1..], true);
    }
    assert |p| >= 2 && e.path[0] == p[0] && e.path[1] == p[1];
    if p[0] == Key("session") {
      NotMedia("session");
      assert Surface(body.GetObject("session").value, p[1..], true);
    }
  }

  lemma FindingPathsDistinct(body: Json, policy: DelegatedFetchPolicy)
    ensures DistinctFindings(Findings(body, policy))
  {
    hide References, BodyAudit, ToolsAudit, NeedsRepair, HostedKind;
    var allowed, session := AllowedTools(policy), SessionOf(body);
    var media := MediaFindings(body, policy);
    var tools := ToolFindings(Tools(body), allowed, TOOLS_PATH);
    var inner := ToolFindings(Tools(session), allowed, SESSION_TOOLS_PATH);
    BodyAuditDistinct(body);
    ToolFindingsDistinct(Tools(body), allowed, TOOLS_PATH);
    ToolFindingsDistinct(Tools(session), allowed, SESSION_TOOLS_PATH);
    forall f <- media, g <- tools + inner
      ensures PathOf(f) != PathOf(g)
    {
      assert f.removal in BodyAudit(body);
      MediaPathIsNoToolPath(body, f.removal);
      if g in tools {
        assert g.path[..1][0] == Key("tools");
      } else {
        assert g.path[..2][0] == Key("session") && g.path[..2][1] == Key("tools");
      }
    }
    assert forall f <- tools, g <- inner :: |PathOf(f)| != |PathOf(g)|;
    var topChoice, innerChoice := ChoiceFindings(body, allowed), ChoiceFindings(session, allowed);
    DistinctFindingsConcat(media, tools);
    DistinctFindingsConcat(media + tools, topChoice);
    DistinctFindingsConcat(media + tools + topChoice, inner);
    DistinctFindingsConcat(media + tools + topChoice + inner, innerChoice);
  }

  // ---------- The theorems about a whole call ----------

  /**
   Every record of a removed URI or tool is, as a JSON Pointer into the original body, exactly what
   was removed; and no two of them are the same string.
   */
  lemma AuditExact(body: Json, policy: DelegatedFetchPolicy)
    ensures forall finding <- Findings(body, policy) :: PointsAtRemoved(body, AllowedTools(policy), finding)
    ensures var findings := Findings(body, policy);
            forall i, j | 0 <= i < j < |findings| && !findings[i].ChoiceRepaired? && !findings[j].ChoiceRepaired? ::
              Reports(findings)[i].fieldPath != Reports(findings)[j].fieldPath
  {
    hide PointsAtRemoved, Report, Findings, Render, PathOf, PlainStep;
    var findings := Findings(body, policy);
    forall finding <- findings
      ensures PointsAtRemoved(body, AllowedTools(policy), finding)
    {
      FindingsPoint(body, policy, finding);
    }
    FindingPathsDistinct(body, policy);
    forall i, j | 0 <= i < j < |findings| && !findings[i].ChoiceRepaired? && !findings[j].ChoiceRepaired?
      ensures Report(findings[i]).fieldPath != Report(findings[j]).fieldPath
    {
      FindingsPoint(body, policy, findings[i]);
      FindingsPoint(body, policy, findings[j]);
      if Render(PathOf(findings[i])) == Render(PathOf(findings[j])) {
        RenderInjective(PathOf(findings[i]), PathOf(findings[j]));
      }
    }
  }

  /** Every hosted tool that is not allowed has its record, at the top level and in a session update. */
  lemma EveryHostedToolIsRecorded(body: Json, policy: DelegatedFetchPolicy, i: nat)
    ensures i < |Tools(body)| && HostedKind(Tools(body)[i], AllowedTools(policy)).Some? ==>
              ToolRemoved(TOOLS_PATH + [At(i)], HostedKind(Tools(body)[i], AllowedTools(policy)).value)
              in Findings(body, policy)
    ensures var tools := Tools(SessionOf(body));
            i < |tools| && HostedKind(tools[i], AllowedTools(policy)).Some? ==>
              ToolRemoved(SESSION_TOOLS_PATH + [At(i)], HostedKind(tools[i], AllowedTools(policy)).value)
              in Findings(body, policy)
  {
    hide HostedKind, NeedsRepair, BodyAudit;
    ToolIsRecorded(Tools(body), AllowedTools(policy), TOOLS_PATH, i);
    ToolIsRecorded(Tools(SessionOf(body)), AllowedTools(policy), SESSION_TOOLS_PATH, i);
  }

  lemma ToolIsRecorded(tools: seq<Json>, allowed: set<string>, prefix: seq<Step>, i: nat)
    ensures i < |tools| && HostedKind(tools[i], allowed).Some? ==>
              ToolRemoved(prefix + [At(i)], HostedKind(tools[i], allowed).value) in ToolFindings(tools, allowed, prefix)
  {
    hide HostedKind;
    ToolsAuditExact(tools, allowed);
    if i < |tools| && HostedKind(tools[i], allowed).Some? {
      var audit := ToolsAudit(tools, allowed);
      var k :| 0 <= k < |audit| && audit[k] == ToolRemoval(i, HostedKind(tools[i], allowed).value);
      assert ToolFindings(tools, allowed, prefix)[k] == ToolRemoved(prefix + [At(i)], audit[k].kind);
    }
  }

  /**
   What a provider receives: no remote media at any surface when remote content is denied, and no
   hosted tool outside the allowlist at the top level or in a session update.
   */
  lemma SanitizedIsClean(body: Json, policy: DelegatedFetchPolicy)
    ensures !policy.allowRemoteContent ==> ReferenceFree(Sanitized(body, policy))
    ensures HostFree(Tools(Sanitized(body, policy)), AllowedTools(policy))
    ensures HostFree(Tools(SessionOf(Sanitized(body, policy))), AllowedTools(policy))
  {
    hide StripEverywhere, StripTools, HostedKind;
    var allowed, media, result := AllowedTools(policy), AfterMedia(body, policy), Sanitized(body, policy);
    StripEverywhereCommute(media, allowed);
    CleanBodyFree(body);
    CleanBodyUnchanged(media);
    CleanBodyUnchanged(result);
    StripEverywhereParts(media, allowed);
    StripToolsIsLargestFreeSublist(Tools(media), allowed);
    StripToolsIsLargestFreeSublist(Tools(SessionOf(media)), allowed);
  }

  /** The parts of a stripped body. */
  lemma StripEverywhereParts(v: Json, allowed: set<string>)
    ensures var w := StripEverywhere(v, allowed);
            && Tools(w) == StripTools(Tools(v), allowed)
            && Tools(SessionOf(w)) == StripTools(Tools(SessionOf(v)), allowed)
            && SessionOf(w) == StripHosted(SessionOf(v), allowed)
            && w.Get("tool_choice") == StripHosted(v, allowed).Get("tool_choice")
            && (!IsSessionUpdate(v) ==> w.Get("session") == v.Get("session"))
            && forall k | k !in ["tools", "tool_choice", "session"] :: w.Get(k) == v.Get(k)
  {
    hide StripHosted, StripTools, RemovedKinds, HostedKind, ToolsAudit, NeedsRepair;
    assert "session" != "tools" && "session" != "tool_choice" && "session" != "type";
    assert "type" !in ["tools", "tool_choice", "session"];
    ChoiceIsUsable(v, allowed);
    ChoiceIsUsable(SessionOf(v), allowed);
    StripHostedGet(v, allowed, "session");
    StripHostedGet(v, allowed, "type");
    StripHostedUnchanged(Null, allowed);
    RemovedKindsNone(allowed);
    forall k | k !in ["tools", "tool_choice", "session"]
      ensures StripEverywhere(v, allowed).Get(k) == v.Get(k)
    {
      StripHostedGet(v, allowed, k);
    }
  }

  /** Media cleaning leaves the tool surfaces alone. */
  lemma MediaKeepsTools(body: Json, policy: DelegatedFetchPolicy)
    ensures var media := AfterMedia(body, policy);
            && Tools(media) == Tools(body) && media.Get("tool_choice") == body.Get("tool_choice")
            && (IsSessionUpdate(media) <==> IsSessionUpdate(body))
            && Tools(SessionOf(media)) == Tools(SessionOf(body))
            && SessionOf(media).Get("tool_choice") == SessionOf(body).Get("tool_choice")
  {
    hide CleanBody;
    assert "type" in ["type", "tools", "tool_choice"] && "tool_choice" in ["type", "tools", "tool_choice"];
    CleanBodyMembers(body);
    CleanBodyMembers(SessionOf(body));
  }

  /**
   Minimal change: outside `tools`, `tool_choice` and, in a session update, `session`, the result is
   the largest reference-free trimming of the body (or the body itself when remote content is
   allowed). Of the session, too, only those two members change. Both tool arrays are the longest
   sublists free of hosted tools that are not allowed.
   */
  lemma OnlySurfacesChange(body: Json, policy: DelegatedFetchPolicy)
    ensures var result, media := Sanitized(body, policy), AfterMedia(body, policy);
            && (policy.allowRemoteContent ==> media == body)
            && (!policy.allowRemoteContent ==>
                  && TrimmedBody(body, media) && ReferenceFree(media)
                  && forall b | TrimmedBody(body, b) && ReferenceFree(b) :: TrimmedBody(media, b))
            && (forall k | k !in ["tools", "tool_choice", "session"] :: result.Get(k) == media.Get(k))
            && (!IsSessionUpdate(body) ==> result.Get("session") == media.Get("session"))
            && (forall k | k !in ["tools", "tool_choice"] :: SessionOf(result).Get(k) == SessionOf(media).Get(k))
    ensures LongestHostFree(Tools(body), Tools(Sanitized(body, policy)), AllowedTools(policy))
    ensures LongestHostFree(Tools(SessionOf(body)), Tools(SessionOf(Sanitized(body, policy))), AllowedTools(policy))
  {
    hide StripEverywhere, StripHosted, StripTools, HostedKind, TrimmedBody;
    var allowed, media := AllowedTools(policy), AfterMedia(body, policy);
    CleanBodyIsLargestFreeTrimming(body);
    MediaKeepsTools(body, policy);
    StripEverywhereParts(media, allowed);
    StripToolsIsLargestFreeSublist(Tools(body), allowed);
    StripToolsIsLargestFreeSublist(Tools(SessionOf(body)), allowed);
    forall k | k !in ["tools", "tool_choice"]
      ensures StripHosted(SessionOf(media), allowed).Get(k) == SessionOf(media).Get(k)
    {
      StripHostedGet(SessionOf(media), allowed, k);
    }
  }

  /** `kept` is the longest sublist of `tools` without a hosted tool that is not allowed. */
  ghost predicate LongestHostFree(tools: seq<Json>, kept: seq<Json>, allowed: set<string>) {
    && Sublist(tools, kept) && HostFree(kept, allowed)
    && forall b | Sublist(tools, b) && HostFree(b, allowed) :: Sublist(kept, b)
  }

  /** The `tool_choice` of the body, and that of a session update, can be used with the tools that remain. */
  lemma ResultChoiceIsUsable(body: Json, policy: DelegatedFetchPolicy)
    ensures var result, allowed := Sanitized(body, policy), AllowedTools(policy);
            && ChoiceUsable(body.Get("tool_choice"), result.Get("tool_choice"),
                            RemovedKinds(Tools(body), allowed), Tools(result))
            && ChoiceUsable(SessionOf(body).Get("tool_choice"), SessionOf(result).Get("tool_choice"),
                            RemovedKinds(Tools(SessionOf(body)), allowed), Tools(SessionOf(result)))
  {
    hide StripEverywhere, StripHosted, StripTools, HostedKind, RemovedKinds, ChoiceUsable;
    var allowed, media := AllowedTools(policy), AfterMedia(body, policy);
    MediaKeepsTools(body, policy);
    StripEverywhereParts(media, allowed);
    ChoiceIsUsable(media, allowed);
    ChoiceIsUsable(SessionOf(media), allowed);
  }
}
