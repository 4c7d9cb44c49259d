/**
 The tool half of the sanitizer in the protocols' own words: which tools are hosted, which texts
 are the same up to letter case, when a choice is lost, and what the records read.
 */
module ToolMeaning {
  import opened Wrappers
  import opened Sequences
  import opened Text
  import opened JsonPointer
  import opened MediaSurfaces
  import opened ServerTools
  import opened BodySanitizer

  // ---------- Texts up to letter case ----------

  predicate SameLetter(c: char, d: char) {
    || c == d
    || ('A' <= c <= 'Z' && d as int - c as int == 'a' as int - 'A' as int)
    || ('A' <= d <= 'Z' && c as int - d as int == 'a' as int - 'A' as int)
  }

  predicate SameText(a: string, b: string) { |a| == |b| && forall i | 0 <= i < |a| :: SameLetter(a[i], b[i]) }

  lemma SameTextExact(a: string, b: string)
    ensures SameText(a, b) <==> Lower(a) == Lower(b)
  {
    if Lower(a) == Lower(b) {
      forall i | 0 <= i < |a|
        ensures SameLetter(a[i], b[i])
      {
        assert LowerChar(a[i]) == Lower(a)[i] == Lower(b)[i] == LowerChar(b[i]);
      }
    }
    if SameText(a, b) {
      forall i | 0 <= i < |a|
        ensures Lower(a)[i] == Lower(b)[i]
      {
        assert SameLetter(a[i], b[i]);
      }
    }
  }

  // ---------- Hosted tools ----------

  /** A tool of this declared type runs at the provider, and the policy does not allow it. */
  predicate HostedAs(tool: Json, policy: DelegatedFetchPolicy, kind: string) {
    && tool.Get("type") == Some(String(kind))
    && !SameText(kind, "function") && !SameText(kind, "custom")
    && forall name <- policy.allowedServerTools :: !SameText(kind, name)
  }

  ghost predicate Hosted(tool: Json, policy: DelegatedFetchPolicy) { exists kind :: HostedAs(tool, policy, kind) }

  lemma AllowedExact(policy: DelegatedFetchPolicy, kind: string)
    ensures Lower(kind) in AllowedTools(policy) <==> exists name <- policy.allowedServerTools :: SameText(kind, name)
  {
    hide SameText, Lower;
    forall name: string
      ensures SameText(kind, name) <==> Lower(kind) == Lower(name)
    {
      SameTextExact(kind, name);
    }
  }

  lemma ClientSideNames()
    ensures Lower("function") == "function" && Lower("custom") == "custom"
  {
  }

  /** Which tools are taken for hosted ones, and under which type they are recorded. */
  lemma HostedExact(tool: Json, policy: DelegatedFetchPolicy, kind: string)
    ensures HostedKind(tool, AllowedTools(policy)) == Some(kind) <==> HostedAs(tool, policy, kind)
  {
    hide SameText, Lower, AllowedTools;
    ClientSideNames();
    AllowedExact(policy, kind);
    SameTextExact(kind, "function");
    SameTextExact(kind, "custom");
  }

  lemma HostedSome(tool: Json, policy: DelegatedFetchPolicy)
    ensures Hosted(tool, policy) <==> HostedKind(tool, AllowedTools(policy)).Some?
  {
    hide HostedKind, HostedAs;
    var kind := HostedKind(tool, AllowedTools(policy));
    if kind.Some? {
      HostedExact(tool, policy, kind.value);
    }
    if Hosted(tool, policy) {
      var name :| HostedAs(tool, policy, name);
      HostedExact(tool, policy, name);
    }
  }

  // ---------- Tool lists ----------

  /** `b` is `a` without its hosted tools, in order; `kept` are the original indices. */
  ghost predicate ClientTools(a: seq<Json>, b: seq<Json>, kept: seq<nat>, policy: DelegatedFetchPolicy) {
    && |kept| == |b|
    && (forall i, j | 0 <= i < j < |kept| :: kept[i] < kept[j])
    && (forall i: nat | i < |a| :: i in kept <==> !Hosted(a[i], policy))
    && forall j | 0 <= j < |b| :: kept[j] < |a| && b[j] == a[kept[j]]
  }

  /** `rest` are the elements of `tools` at `kept`, all from `first` on. */
  predicate Picked(tools: seq<Json>, first: nat, kept: seq<nat>, rest: seq<Json>) {
    && |kept| == |rest|
    && (forall i, j | 0 <= i < j < |kept| :: kept[i] < kept[j])
    && forall j | 0 <= j < |rest| :: first <= kept[j] < |tools| && rest[j] == tools[kept[j]]
  }

  lemma PickedFirst(tools: seq<Json>, first: nat, kept: seq<nat>, rest: seq<Json>)
    requires first < |tools| && Picked(tools, first + 1, kept, rest)
    ensures Picked(tools, first, kept, rest) && Picked(tools, first, [first] + kept, [tools[first]] + rest)
  {
  }

  lemma {:induction false} StripKeepsClientTools(tools: seq<Json>, policy: DelegatedFetchPolicy, first: nat)
    returns (kept: seq<nat>)
    requires first <= |tools|
    ensures Picked(tools, first, kept, StripTools(tools[first..], AllowedTools(policy)))
    ensures forall i: nat | first <= i < |tools| :: i in kept <==> !Hosted(tools[i], policy)
    decreases |tools| - first
  {
    hide Hosted, HostedKind, AllowedTools, Picked;
    if first == |tools| {
      kept := [];
      assert Picked(tools, first, [], []) by { NonePicked(tools, first); }
    } else {
      var later := StripKeepsClientTools(tools, policy, first + 1);
      HostedSome(tools[first], policy);
      assert tools[first..][1..] == tools[first + 1..];
      var rest := StripTools(tools[first + 1..], AllowedTools(policy));
      PickedFirst(tools, first, later, rest);
      NotBelow(tools, first + 1, later, rest);
      kept := if Hosted(tools[first], policy) then later else [first] + later;
    }
  }

  lemma NonePicked(tools: seq<Json>, first: nat)
    ensures Picked(tools, first, [], [])
  {
  }

  lemma NotBelow(tools: seq<Json>, first: nat, kept: seq<nat>, rest: seq<Json>)
    requires Picked(tools, first, kept, rest)
    ensures forall i: nat | i < first :: i !in kept
  {
  }

  /** The tool list of a request or of a session. */
  function ToolList(v: Json): seq<Json> {
    match v.Get("tools")
    case Some(Array(tools)) => tools
    case _ => []
  }

  /** The session that a realtime frame updates. */
  function UpdatedSession(body: Json): Json {
    if body.Get("type") == Some(String("session.update")) && body.Get("session").Some?
    then body.Get("session").value else Null
  }

  lemma ListsExact(body: Json)
    ensures UpdatedSession(body) == SessionOf(body) && ToolList(body) == Tools(body)
  {
  }

  lemma ToolsMemberStays(v: Json, policy: DelegatedFetchPolicy)
    ensures Sanitized(v, policy).GetArray("tools").Some? <==> v.GetArray("tools").Some?
  {
    hide StripHosted, CleanBody, StripTools, RemovedKinds, AllowedTools;
    var media, allowed := AfterMedia(v, policy), AllowedTools(policy);
    assert "tools" in ["type", "tools", "tool_choice"] && "tools" != "session";
    CleanBodyMembers(v);
    StripHostedMembers(media, allowed);
    assert StripSession(StripHosted(media, allowed), allowed).Get("tools") == StripHosted(media, allowed).Get("tools");
  }

  /** What stays of either tool list. */
  lemma ClientToolsStay(body: Json, policy: DelegatedFetchPolicy)
    ensures var result := Sanitized(body, policy);
            && (result.GetArray("tools").Some? <==> body.GetArray("tools").Some?)
            && (exists kept :: ClientTools(ToolList(body), ToolList(result), kept, policy))
            && exists kept ::
                 ClientTools(ToolList(UpdatedSession(body)), ToolList(UpdatedSession(result)), kept, policy)
  {
    hide StripEverywhere, StripTools, Hosted, AfterMedia, AllowedTools;
    var result, session := Sanitized(body, policy), UpdatedSession(body);
    ListsExact(body);
    ListsExact(result);
    ListsExact(session);
    ListsExact(UpdatedSession(result));
    MediaKeepsTools(body, policy);
    StripEverywhereParts(AfterMedia(body, policy), AllowedTools(policy));
    ToolsMemberStays(body, policy);
    var kept := StripKeepsClientTools(ToolList(body), policy, 0);
    var inner := StripKeepsClientTools(ToolList(session), policy, 0);
    assert ToolList(body)[0..] == ToolList(body) && ToolList(session)[0..] == ToolList(session);
    assert ClientTools(ToolList(body), ToolList(result), kept, policy);
    assert ClientTools(ToolList(session), ToolList(UpdatedSession(result)), inner, policy);
  }

  // ---------- The choice ----------

  /** `word` is what the choice says, or the type or name it gives. */
  predicate Says(choice: Json, word: string) {
    || choice == String(word)
    || (choice.Object? && (choice.Get("type") == Some(String(word)) || choice.Get("name") == Some(String(word))))
  }

  /** The choice means a tool of the list that is hosted. */
  ghost predicate MeansHosted(choice: Json, tools: seq<Json>, policy: DelegatedFetchPolicy) {
    exists word, kind, tool ::
      Says(choice, word) && tool in tools && HostedAs(tool, policy, kind) && SameText(word, kind)
  }

  /** Some tool is hosted, and the choice means one, or none is left for a choice that needs one. */
  ghost predicate ChoiceLost(v: Json, policy: DelegatedFetchPolicy) {
    && v.Get("tool_choice").Some? && (exists tool <- ToolList(v) :: Hosted(tool, policy))
    && var choice := v.Get("tool_choice").value;
       || MeansHosted(choice, ToolList(v), policy)
       || (&& (forall tool <- ToolList(v) :: Hosted(tool, policy))
           && choice != String("auto") && choice != String("none"))
  }

  lemma RemovedExact(tools: seq<Json>, policy: DelegatedFetchPolicy, kind: string)
    ensures kind in RemovedKinds(tools, AllowedTools(policy))
            <==> exists tool, name :: tool in tools && HostedAs(tool, policy, name) && Lower(name) == kind
  {
    hide HostedKind, HostedAs, AllowedTools, Lower;
    var allowed := AllowedTools(policy);
    if kind in RemovedKinds(tools, allowed) {
      var tool :| tool in tools && HostedKind(tool, allowed).Some? && Lower(HostedKind(tool, allowed).value) == kind;
      HostedExact(tool, policy, HostedKind(tool, allowed).value);
    }
    if tool, name :| tool in tools && HostedAs(tool, policy, name) && Lower(name) == kind {
      HostedExact(tool, policy, name);
    }
  }

  lemma NamesExact(choice: Json, kinds: set<string>)
    ensures Names(choice, kinds) <==> exists word :: Says(choice, word) && Lower(word) in kinds
  {
    hide Lower;
    match choice {
      case String(text) => assert Says(choice, text);
      case Object(_) =>
        forall word: string
          ensures choice.Get("type") == Some(String(word)) ==> Says(choice, word)
          ensures choice.Get("name") == Some(String(word)) ==> Says(choice, word)
        {
        }
        if choice.GetStr("type").Some? {
          assert choice.Get("type") == Some(String(choice.GetStr("type").value));
        }
        if choice.GetStr("name").Some? {
          assert choice.Get("name") == Some(String(choice.GetStr("name").value));
        }
      case _ =>
    }
  }

  lemma MeansExact(choice: Json, tools: seq<Json>, policy: DelegatedFetchPolicy)
    ensures MeansHosted(choice, tools, policy) <==> Names(choice, RemovedKinds(tools, AllowedTools(policy)))
  {
    hide Says, HostedAs, SameText, Lower, Names, RemovedKinds, AllowedTools;
    var kinds := RemovedKinds(tools, AllowedTools(policy));
    NamesExact(choice, kinds);
    if MeansHosted(choice, tools, policy) {
      var word, kind, tool :|
        Says(choice, word) && tool in tools && HostedAs(tool, policy, kind) && SameText(word, kind);
      SameTextExact(word, kind);
      RemovedExact(tools, policy, Lower(word));
    }
    if word :| Says(choice, word) && Lower(word) in kinds {
      RemovedExact(tools, policy, Lower(word));
      var tool, kind :| tool in tools && HostedAs(tool, policy, kind) && Lower(kind) == Lower(word);
      SameTextExact(word, kind);
    }
  }

  lemma {:induction false} NoneStay(tools: seq<Json>, policy: DelegatedFetchPolicy)
    ensures StripTools(tools, AllowedTools(policy)) == [] <==> forall tool <- tools :: Hosted(tool, policy)
    ensures RemovedKinds(tools, AllowedTools(policy)) == {} <==> forall tool <- tools :: !Hosted(tool, policy)
    decreases |tools|
  {
    hide Hosted, HostedKind, AllowedTools, Lower;
    if tools != [] {
      NoneStay(tools[1..], policy);
      HostedSome(tools[0], policy);
      RemovedKindsCons(tools, AllowedTools(policy));
      assert forall tool :: tool in tools <==> tool == tools[0] || tool in tools[1..];
    }
  }

  /** When a choice must be replaced. */
  lemma ChoiceLostExact(v: Json, policy: DelegatedFetchPolicy)
    ensures var allowed := AllowedTools(policy);
            ChoiceLost(v, policy) <==> NeedsRepair(Stripped(v, allowed), RemovedKinds(Tools(v), allowed))
  {
    hide MeansHosted, Hosted, RemovedKinds, StripTools, AllowedTools, Names;
    ListsExact(v);
    NoneStay(Tools(v), policy);
    assert "tools" != "tool_choice";
    if v.Get("tool_choice").Some? {
      MeansExact(v.Get("tool_choice").value, Tools(v), policy);
    }
  }

  /** A lost choice becomes "auto", at the top level and in an updated session; any other stays. */
  lemma ChoiceExact(body: Json, policy: DelegatedFetchPolicy)
    ensures var result, session := Sanitized(body, policy), UpdatedSession(body);
            && result.Get("tool_choice")
               == (if ChoiceLost(body, policy) then Some(String("auto")) else body.Get("tool_choice"))
            && UpdatedSession(result).Get("tool_choice")
               == (if ChoiceLost(session, policy) then Some(String("auto")) else session.Get("tool_choice"))
  {
    hide StripEverywhere, StripHosted, AfterMedia, AllowedTools, ChoiceLost;
    var media, allowed := AfterMedia(body, policy), AllowedTools(policy);
    ListsExact(body);
    ListsExact(Sanitized(body, policy));
    MediaKeepsTools(body, policy);
    StripEverywhereParts(media, allowed);
    ChoiceAfterStrip(media, policy);
    ChoiceAfterStrip(SessionOf(media), policy);
    SameChoice(media, body, policy);
    SameChoice(SessionOf(media), SessionOf(body), policy);
  }

  lemma ChoiceAfterStrip(v: Json, policy: DelegatedFetchPolicy)
    ensures StripHosted(v, AllowedTools(policy)).Get("tool_choice")
         == if ChoiceLost(v, policy) then Some(String("auto")) else v.Get("tool_choice")
  {
    hide ChoiceLost, RemovedKinds, StripTools, AllowedTools, Names;
    assert "tools" != "tool_choice";
    ChoiceLostExact(v, policy);
  }

  lemma SameChoice(v: Json, w: Json, policy: DelegatedFetchPolicy)
    requires Tools(v) == Tools(w) && v.Get("tool_choice") == w.Get("tool_choice")
    ensures ChoiceLost(v, policy) == ChoiceLost(w, policy)
  {
    hide MeansHosted, Hosted;
    ListsExact(v);
    ListsExact(w);
  }

  // ---------- The records ----------

  /** The records without a URI: one for each hosted tool by its index, and one for each lost choice. */
  ghost predicate ToolRecord(body: Json, policy: DelegatedFetchPolicy, item: StrippedItem) {
    || HostedRecord(ToolList(body), policy, "/tools/", item)
    || HostedRecord(ToolList(UpdatedSession(body)), policy, "/session/tools/", item)
    || (&& (ChoiceLost(body, policy) || ChoiceLost(UpdatedSession(body), policy))
        && item.fieldPath == "/tool_choice" && item.capability == "tool_choice_normalized")
  }

  ghost predicate HostedRecord(tools: seq<Json>, policy: DelegatedFetchPolicy, prefix: string, item: StrippedItem) {
    exists i: nat, kind ::
      && i < |tools| && HostedAs(tools[i], policy, kind)
      && item.fieldPath == prefix + Decimal(i) && item.capability == "server_tool:" + kind
  }

  lemma RenderIndex(i: nat)
    ensures Render(TOOLS_PATH + [At(i)]) == "/tools/" + Decimal(i)
  {
    hide Decimal;
    var path := [Key("tools"), At(i)];
    assert TOOLS_PATH + [At(i)] == path && path[1..] == [At(i)] && [At(i)][1..] == [];
    Assoc("/", "tools", "/");
    Assoc("/" + "tools", "/", Decimal(i));
  }

  lemma RenderSessionIndex(i: nat)
    ensures Render(SESSION_TOOLS_PATH + [At(i)]) == "/session/tools/" + Decimal(i)
  {
    hide Decimal;
    RenderIndex(i);
    var path := [Key("session")] + (TOOLS_PATH + [At(i)]);
    assert SESSION_TOOLS_PATH + [At(i)] == path;
    ConsParts(Key("session"), TOOLS_PATH + [At(i)]);
    assert "/session/tools/" == "/" + "session" + "/tools/";
    Assoc("/" + "session", "/tools/", Decimal(i));
  }

  /** The records of one list. */
  lemma HostedRecorded(tools: seq<Json>, policy: DelegatedFetchPolicy, prefix: seq<Step>, shown: string,
                       item: StrippedItem)
    requires item.uri.None? && forall i: nat :: Render(prefix + [At(i)]) == shown + Decimal(i)
    ensures item in Reports(ToolFindings(tools, AllowedTools(policy), prefix))
            <==> HostedRecord(tools, policy, shown, item)
  {
    hide HostedKind, HostedAs, AllowedTools, Render, Decimal, ToolsAudit;
    var allowed := AllowedTools(policy);
    var findings, audit := ToolFindings(tools, allowed, prefix), ToolsAudit(tools, allowed);
    ToolsAuditExact(tools, allowed);
    if item in Reports(findings) {
      var k :| 0 <= k < |findings| && Reports(findings)[k] == item;
      assert findings[k] == ToolRemoved(prefix + [At(audit[k].index)], audit[k].kind);
      assert audit[k] in audit;
      HostedExact(tools[audit[k].index], policy, audit[k].kind);
    }
    if i: nat, kind :|
      && i < |tools| && HostedAs(tools[i], policy, kind)
      && item.fieldPath == shown + Decimal(i) && item.capability == "server_tool:" + kind
    {
      HostedExact(tools[i], policy, kind);
      assert ToolRemoval(i, kind) in audit;
      var k :| 0 <= k < |audit| && audit[k] == ToolRemoval(i, kind);
      assert findings[k] == ToolRemoved(prefix + [At(i)], kind);
      assert Reports(findings)[k] == item;
    }
  }

  lemma ReportsJoin(a: seq<Finding>, b: seq<Finding>)
    ensures Reports(a + b) == Reports(a) + Reports(b)
  {
    hide Report;
  }

  lemma ChoiceRecorded(v: Json, policy: DelegatedFetchPolicy, item: StrippedItem)
    requires item.uri.None?
    ensures item in Reports(ChoiceFindings(v, AllowedTools(policy)))
            <==> && ChoiceLost(v, policy)
                 && item.fieldPath == "/tool_choice" && item.capability == "tool_choice_normalized"
  {
    hide ChoiceLost, AllowedTools, NeedsRepair, Stripped;
    ChoiceLostExact(v, policy);
    var findings := ChoiceFindings(v, AllowedTools(policy));
    assert findings != [] ==> Reports(findings)[0] == Report(ChoiceRepaired);
  }

  lemma MediaHasUri(body: Json, policy: DelegatedFetchPolicy, item: StrippedItem)
    requires item in Reports(MediaFindings(body, policy))
    ensures item.uri.Some?
  {
    hide BodyAudit, Render;
    var findings := MediaFindings(body, policy);
    var i :| 0 <= i < |findings| && Reports(findings)[i] == item;
  }

  /** The records that carry no URI are exactly these. */
  lemma ToolsRecordedExactly(body: Json, policy: DelegatedFetchPolicy, item: StrippedItem)
    requires item.uri.None?
    ensures item in Reports(Findings(body, policy)) <==> ToolRecord(body, policy, item)
  {
    hide MediaFindings, ToolFindings, ChoiceFindings, HostedRecord, ChoiceLost, AllowedTools, Render, Decimal, Report;
    ListsExact(body);
    ListsExact(SessionOf(body));
    var session, allowed := SessionOf(body), AllowedTools(policy);
    var media := MediaFindings(body, policy);
    var tools, choice := ToolFindings(Tools(body), allowed, TOOLS_PATH), ChoiceFindings(body, allowed);
    var more, last := ToolFindings(Tools(session), allowed, SESSION_TOOLS_PATH), ChoiceFindings(session, allowed);
    ReportsJoin(media, tools);
    ReportsJoin(media + tools, choice);
    ReportsJoin(media + tools + choice, more);
    ReportsJoin(media + tools + choice + more, last);
    if item in Reports(media) {
      MediaHasUri(body, policy, item);
    }
    forall i: nat
      ensures Render(TOOLS_PATH + [At(i)]) == "/tools/" + Decimal(i)
      ensures Render(SESSION_TOOLS_PATH + [At(i)]) == "/session/tools/" + Decimal(i)
    {
      RenderIndex(i);
      RenderSessionIndex(i);
    }
    HostedRecorded(Tools(body), policy, TOOLS_PATH, "/tools/", item);
    HostedRecorded(Tools(session), policy, SESSION_TOOLS_PATH, "/session/tools/", item);
    ChoiceRecorded(body, policy, item);
    ChoiceRecorded(session, policy, item);
  }

  // ---------- Two policies ----------

  /**
   Sanitizing for a policy after sanitizing for another one that allows remote content if it does, and
   every tool it names in some letter case, is sanitizing for it alone.
   */
  lemma AbsorptionSpelled(body: Json, strict: DelegatedFetchPolicy, loose: DelegatedFetchPolicy)
    requires strict.allowRemoteContent ==> loose.allowRemoteContent
    requires forall name <- strict.allowedServerTools ::
               exists other <- loose.allowedServerTools :: SameText(name, other)
    ensures Sanitized(Sanitized(body, loose), strict) == Sanitized(body, strict)
  {
    hide SameText, Sanitized;
    forall kind | kind in AllowedTools(strict)
      ensures kind in AllowedTools(loose)
    {
      var name :| name in strict.allowedServerTools && Lower(name) == kind;
      AllowedExact(loose, name);
    }
    Absorption(body, strict, loose);
  }
}
