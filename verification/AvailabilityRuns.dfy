/**
 Whole runs of the availability store: the nested map, empty slots and all, behaves as one flat map
 from (provider, model); what is reported agrees with what is listed; and entries set by a probe
 come from probes alone.
 */
module AvailabilityRuns {
  import opened Wrappers
  import opened AvailabilityStore

  // ---------- Runs ----------

  datatype Op =
    | Deactivate(provider: string, models: seq<string>, d: Deactivation)
    | Activate(provider: string, some: Option<seq<string>>)
    | ReplaceActive(provider: string, active: seq<string>, universe: seq<string>, d: Deactivation)
    | ApplyProbe(provider: string, served: seq<string>, universe: seq<string>, d: Deactivation)

  function Step(e: Entries, op: Op): Entries {
    match op
    case Deactivate(p, models, d) => Deactivated(e, p, models, d)
    case Activate(p, models) => Activated(e, p, models)
    case ReplaceActive(p, active, universe, d) => Replaced(e, p, active, universe, d)
    case ApplyProbe(p, served, universe, d) => Probed(e, p, served, universe, d)
  }

  function Run(e: Entries, ops: seq<Op>): Entries
    decreases |ops|
  {
    if ops == [] then e else Run(Step(e, ops[0]), ops[1..])
  }

  // ---------- The flat store ----------

  type Flat = map<(string, string), Deactivation>

  function Flatten(e: Entries): (flat: Flat)
    ensures forall p, m :: (p, m) in flat <==> Lookup(e, p, m).Some?
    ensures forall p, m :: (p, m) in flat ==> Lookup(e, p, m) == Some(flat[(p, m)])
  {
    map k | k in (set p, m | p in e && m in e[p] :: (p, m)) :: e[k.0][k.1]
  }

  function FlatLookup(flat: Flat, provider: string, model: string): Option<Deactivation> {
    if (provider, model) in flat then Some(flat[(provider, model)]) else None
  }

  /** What an operation makes of the entry `found` of one model: nothing is said of slots. */
  function Entry(op: Op, provider: string, model: string, found: Option<Deactivation>): Option<Deactivation> {
    if provider != op.provider then found
    else match op
    case Deactivate(_, models, d) => if model in models then Some(d) else found
    case Activate(_, models) => if models.None? || model in models.value then None else found
    case ReplaceActive(_, active, universe, d) =>
      if model in active then None else if model in universe then Some(d) else found
    case ApplyProbe(_, served, universe, d) =>
      if model in served then None
      else if model in universe && (found.None? || found.value.setBy == PROBE) then Some(d)
      else found
  }

  /** The models an operation mentions; those it may give an entry. */
  function Mentioned(op: Op): set<string> {
    match op
    case Deactivate(_, models, _) => set m | m in models
    case Activate(_, _) => {}
    case ReplaceActive(_, _, universe, _) => set m | m in universe
    case ApplyProbe(_, _, universe, _) => set m | m in universe
  }

  function FlatStep(flat: Flat, op: Op): Flat {
    map k | k in flat.Keys + (set m | m in Mentioned(op) :: (op.provider, m))
            && Entry(op, k.0, k.1, FlatLookup(flat, k.0, k.1)).Some? ::
      Entry(op, k.0, k.1, FlatLookup(flat, k.0, k.1)).value
  }

  function FlatRun(flat: Flat, ops: seq<Op>): Flat
    decreases |ops|
  {
    if ops == [] then flat else FlatRun(FlatStep(flat, ops[0]), ops[1..])
  }

  /** Every operation acts on each entry on its own. */
  lemma StepEntry(e: Entries, op: Op, provider: string, model: string)
    ensures Lookup(Step(e, op), provider, model) == Entry(op, provider, model, Lookup(e, provider, model))
  {
    match op
    case ReplaceActive(_, active, universe, _) => MissingMembers(universe, active);
    case _ =>
  }

  lemma EntryOfUnmentioned(op: Op, provider: string, model: string)
    requires provider != op.provider || model !in Mentioned(op)
    ensures Entry(op, provider, model, None).None?
  {
  }

  lemma FlatStepEntry(flat: Flat, op: Op, provider: string, model: string)
    ensures FlatLookup(FlatStep(flat, op), provider, model)
            == Entry(op, provider, model, FlatLookup(flat, provider, model))
  {
    hide Entry, Mentioned;
    var k := (provider, model);
    if k !in flat && !(provider == op.provider && model in Mentioned(op)) {
      EntryOfUnmentioned(op, provider, model);
    }
    assert provider == op.provider && model in Mentioned(op)
           <==> k in set m | m in Mentioned(op) :: (op.provider, m);
  }

  lemma SameFlat(a: Flat, b: Flat)
    requires forall p, m :: FlatLookup(a, p, m) == FlatLookup(b, p, m)
    ensures a == b
  {
    forall k: (string, string)
      ensures k in a <==> k in b
      ensures k in a ==> a[k] == b[k]
    {
      assert FlatLookup(a, k.0, k.1) == FlatLookup(b, k.0, k.1) && (k.0, k.1) == k;
    }
  }

  lemma FlatStepCommutes(e: Entries, op: Op)
    ensures Flatten(Step(e, op)) == FlatStep(Flatten(e), op)
  {
    hide Step, FlatStep, Entry, Lookup;
    forall p, m
      ensures FlatLookup(Flatten(Step(e, op)), p, m) == FlatLookup(FlatStep(Flatten(e), op), p, m)
    {
      StepEntry(e, op, p, m);
      FlatStepEntry(Flatten(e), op, p, m);
      FlattenLookup(e, p, m);
      FlattenLookup(Step(e, op), p, m);
    }
    SameFlat(Flatten(Step(e, op)), FlatStep(Flatten(e), op));
  }

  lemma FlattenLookup(e: Entries, provider: string, model: string)
    ensures FlatLookup(Flatten(e), provider, model) == Lookup(e, provider, model)
  {
  }

  /** Over every run the nested store is the flat one: empty slots are never observed. */
  lemma {:induction false} RunRefinesFlat(e: Entries, ops: seq<Op>)
    ensures Flatten(Run(e, ops)) == FlatRun(Flatten(e), ops)
    decreases |ops|
  {
    hide Step, FlatStep, Flatten;
    if ops != [] {
      FlatStepCommutes(e, ops[0]);
      RunRefinesFlat(Step(e, ops[0]), ops[1..]);
    }
  }

  /** A model is reported unavailable exactly when the snapshot of the same instant lists it. */
  lemma UnavailableIffListed(e: Entries, provider: string, model: string, now: int)
    ensures Unavailable(e, provider, model, now) == Lookup(Snapshot(e, now), provider, model)
    ensures forall p <- Snapshot(e, now).Keys :: Snapshot(e, now)[p] != map[]
  {
    if provider in e && Unexpired(e[provider], now) == map[] {
      assert model !in Unexpired(e[provider], now);
    }
  }

  lemma SameSlot(a: Entries, b: Entries, provider: string)
    requires forall m :: Lookup(a, provider, m) == Lookup(b, provider, m)
    ensures SlotOf(a, provider) == SlotOf(b, provider)
  {
    var s, t := SlotOf(a, provider), SlotOf(b, provider);
    forall m
      ensures m in s <==> m in t
      ensures m in s ==> s[m] == t[m]
    {
      assert Lookup(a, provider, m) == Lookup(b, provider, m);
    }
  }

  /** What is reported depends on the flat store alone. */
  lemma ReportsAreFlat(a: Entries, b: Entries, now: int)
    requires Flatten(a) == Flatten(b)
    ensures Snapshot(a, now) == Snapshot(b, now)
    ensures forall p, m :: Unavailable(a, p, m, now) == Unavailable(b, p, m, now)
  {
    hide Flatten;
    forall p, m
      ensures Lookup(a, p, m) == Lookup(b, p, m)
    {
      FlattenLookup(a, p, m);
      FlattenLookup(b, p, m);
    }
    forall p
      ensures SlotOf(a, p) == SlotOf(b, p)
    {
      SameSlot(a, b, p);
    }
    assert forall p :: p in Snapshot(a, now) <==> Unexpired(SlotOf(a, p), now) != map[];
    assert forall p :: p in Snapshot(b, now) <==> Unexpired(SlotOf(b, p), now) != map[];
    assert Snapshot(a, now).Keys == Snapshot(b, now).Keys;
  }

  // ---------- Probes ----------

  /** One probe: what it leaves of each model's entry. */
  lemma ProbeEffect(e: Entries, provider: string, served: seq<string>, universe: seq<string>, d: Deactivation)
    ensures var after := Probed(e, provider, served, universe, d);
            && (forall p, m | p != provider :: Lookup(after, p, m) == Lookup(e, p, m))
            && (forall m <- served :: Lookup(after, provider, m).None?)
            && (forall m | m !in served && Lookup(e, provider, m).Some?
                           && Lookup(e, provider, m).value.setBy != PROBE ::
                  Lookup(after, provider, m) == Lookup(e, provider, m))
            && (forall m <- universe | m !in served ::
                  var found := Lookup(e, provider, m);
                  Lookup(after, provider, m)
                  == if found.Some? && found.value.setBy != PROBE then found else Some(d))
  {
    hide Step, Lookup;
    var op := ApplyProbe(provider, served, universe, d);
    forall p, m
      ensures Lookup(Step(e, op), p, m) == Entry(op, p, m, Lookup(e, p, m))
    {
      StepEntry(e, op, p, m);
    }
    assert Step(e, op) == Probed(e, provider, served, universe, d) by { ProbeStep(e, provider, served, universe, d); }
  }

  lemma ProbeStep(e: Entries, provider: string, served: seq<string>, universe: seq<string>, d: Deactivation)
    ensures Step(e, ApplyProbe(provider, served, universe, d)) == Probed(e, provider, served, universe, d)
  {
  }

  /**
   What a probe achieves for a model it finds missing: the model is reported unavailable from then
   on, unless another writer's entry holds it whose time has run out. Such an entry is not
   overwritten, though it no longer counts.
   */
  lemma MissingModelReported(
      e: Entries, provider: string, served: seq<string>, universe: seq<string>, d: Deactivation, model: string,
      now: int)
    requires model in universe && model !in served && d.setBy == PROBE && d.until.None?
    ensures var found := Lookup(e, provider, model);
            Unavailable(Probed(e, provider, served, universe, d), provider, model, now).Some?
            <==> !(&& found.Some? && found.value.setBy != PROBE
                   && found.value.until.Some? && found.value.until.value <= now)
  {
    hide Lookup, Probed;
    ProbeEffect(e, provider, served, universe, d);
  }

  lemma ExpiredEntryHidesMissingModel()
    ensures var lapsed := Deactivation(Some("loadout"), Some(0), "operator", 0);
            var e: Entries := map["local" := map["qwen" := lapsed]];
            var after := Probed(e, "local", [], ["qwen"], Deactivation(Some("probe"), None, PROBE, 1));
            Unavailable(after, "local", "qwen", 1).None? && Unavailable(after, "local", "qwen", 100).None?
  {
    var lapsed := Deactivation(Some("loadout"), Some(0), "operator", 0);
    var e: Entries := map["local" := map["qwen" := lapsed]];
    var d := Deactivation(Some("probe"), None, PROBE, 1);
    assert "operator"[0] == 'o' && PROBE[0] == 'p' && "qwen" in ["qwen"];
    assert Lookup(e, "local", "qwen") == Some(lapsed);
    MissingModelReported(e, "local", [], ["qwen"], d, "qwen", 1);
    MissingModelReported(e, "local", [], ["qwen"], d, "qwen", 100);
  }

  /**
   An operator's entry survives a probe exactly when the model is not served: a served model loses
   whatever entry it has.
   */
  lemma OperatorEntrySurvives(
      e: Entries, provider: string, served: seq<string>, universe: seq<string>, d: Deactivation, model: string)
    requires Lookup(e, provider, model).Some? && Lookup(e, provider, model).value.setBy != PROBE
    ensures Lookup(Probed(e, provider, served, universe, d), provider, model) == Lookup(e, provider, model)
            <==> model !in served
  {
    hide Lookup, Probed;
    ProbeEffect(e, provider, served, universe, d);
  }

  lemma ServedOperatorEntryIsLost()
    ensures var held := Deactivation(Some("loadout"), None, "operator", 0);
            var e: Entries := map["local" := map["qwen" := held]];
            var d := Deactivation(Some("probe"), None, PROBE, 1);
            Lookup(e, "local", "qwen") == Some(held)
            && Lookup(Probed(e, "local", ["qwen"], ["qwen"], d), "local", "qwen") == None
  {
    var held := Deactivation(Some("loadout"), None, "operator", 0);
    var e: Entries := map["local" := map["qwen" := held]];
    assert "operator"[0] == 'o' && PROBE[0] == 'p';
    assert "qwen" in ["qwen"];
    OperatorEntrySurvives(e, "local", ["qwen"], ["qwen"], Deactivation(Some("probe"), None, PROBE, 1), "qwen");
    ProbeEffect(e, "local", ["qwen"], ["qwen"], Deactivation(Some("probe"), None, PROBE, 1));
  }

  /** Only probes write in the probe's name. */
  predicate Honest(op: Op) {
    op.Activate? || (op.d.setBy == PROBE <==> op.ApplyProbe?)
  }

  predicate AllHonest(ops: seq<Op>) { forall op <- ops :: Honest(op) }

  /** The probe at `i` set the entry, and nothing after it touched the model. */
  ghost predicate SetBy(ops: seq<Op>, i: nat, provider: string, model: string, d: Deactivation) {
    && i < |ops| && ops[i].ApplyProbe? && ops[i].provider == provider && ops[i].d == d
    && model in ops[i].universe && model !in ops[i].served
    && forall j | i < j < |ops| :: Entry(ops[j], provider, model, Some(d)) == Some(d)
  }

  lemma {:induction false} RunAppend(e: Entries, ops: seq<Op>, op: Op)
    ensures Run(e, ops + [op]) == Step(Run(e, ops), op)
    decreases |ops|
  {
    hide Step;
    if ops == [] {
      assert ops + [op] == [op];
      assert Run(e, [op]) == Run(Step(e, op), []);
    } else {
      assert (ops + [op])[1..] == ops[1..] + [op];
      RunAppend(Step(e, ops[0]), ops[1..], op);
    }
  }

  /** Every entry in a probe's name was set by a probe of the run that found the model unserved. */
  lemma {:induction false} ProbeProvenance(ops: seq<Op>, provider: string, model: string)
    requires AllHonest(ops)
    ensures var found := Lookup(Run(map[], ops), provider, model);
            found.Some? && found.value.setBy == PROBE ==> exists i :: SetBy(ops, i, provider, model, found.value)
    decreases |ops|
  {
    hide Step, Lookup;
    var found := Lookup(Run(map[], ops), provider, model);
    if ops == [] {
      assert found.None? by { EmptyLookup(provider, model); }
    } else if found.Some? && found.value.setBy == PROBE {
      var earlier, last := ops[..|ops| - 1], ops[|ops| - 1];
      assert ops == earlier + [last] && last in ops && forall op <- earlier :: op in ops;
      RunAppend(map[], earlier, last);
      StepEntry(Run(map[], earlier), last, provider, model);
      var before := Lookup(Run(map[], earlier), provider, model);
      ProbeProvenance(earlier, provider, model);
      if found == before {
        var i :| SetBy(earlier, i, provider, model, found.value);
        assert Entry(last, provider, model, Some(found.value)) == Some(found.value);
        assert SetBy(ops, i, provider, model, found.value);
      } else {
        assert SetBy(ops, |ops| - 1, provider, model, found.value);
      }
    }
  }

  lemma EmptyLookup(provider: string, model: string)
    ensures Lookup(map[], provider, model).None?
  {
  }
}
