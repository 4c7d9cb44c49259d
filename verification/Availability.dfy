/**
 The store of deactivated models: provider -> model -> deactivation, plus the last probe outcome
 per provider. Every operation is a function on the entries; the class `Availability` updates them
 in place, counting as it goes, and is proved to compute these functions. A count returned is the
 number of models whose entry differs before and after.
 */
module AvailabilityStore {
  import opened Wrappers

  /** Times are instants on one clock. */
  datatype Deactivation = Deactivation(reason: Option<string>, until: Option<int>, setBy: string, setAt: int)
  {
    predicate Expired(now: int) { until.Some? && now >= until.value }
  }

  type Slot = map<string, Deactivation>
  type Entries = map<string, Slot>

  datatype ProbeStatus = ProbeStatus(at: int, ok: bool, error: Option<string>, served: seq<string>)

  const PROBE := "probe"

  /** What a probe gives as its reason. */
  function ProbeReason(error: Option<string>): string {
    if error.Some? then "Runtime did not answer its model list: " + error.value
    else "Not served by the runtime (availability probe)"
  }

  // ---------- The operations, as functions ----------

  /** The slot of a provider; an absent provider is as good as an empty one. */
  function SlotOf(e: Entries, provider: string): Slot {
    if provider in e then e[provider] else map[]
  }

  function Lookup(e: Entries, provider: string, model: string): Option<Deactivation> {
    var slot := SlotOf(e, provider);
    if model in slot then Some(slot[model]) else None
  }

  function SlotWith(slot: Slot, models: seq<string>, d: Deactivation): Slot {
    map m | m in slot.Keys + (set x | x in models) :: if m in models then d else slot[m]
  }

  function SlotWithout(slot: Slot, models: seq<string>): Slot {
    map m | m in slot && m !in models :: slot[m]
  }

  function Deactivated(e: Entries, provider: string, models: seq<string>, d: Deactivation): Entries {
    e[provider := SlotWith(SlotOf(e, provider), models, d)]
  }

  /** `slot` stored for the provider, or no entry at all when it is empty. */
  function Stored(e: Entries, provider: string, slot: Slot): Entries {
    if slot == map[] then e - {provider} else e[provider := slot]
  }

  function Activated(e: Entries, provider: string, models: Option<seq<string>>): Entries {
    if provider !in e then e
    else Stored(e, provider, if models.Some? then SlotWithout(e[provider], models.value) else map[])
  }

  /** The models of the universe that an announce leaves out. */
  function Missing(universe: seq<string>, active: seq<string>): seq<string> {
    if universe == [] then []
    else (if universe[0] in active then [] else [universe[0]]) + Missing(universe[1..], active)
  }

  lemma {:induction false} MissingMembers(universe: seq<string>, active: seq<string>)
    ensures forall m :: m in Missing(universe, active) <==> m in universe && m !in active
    decreases |universe|
  {
    if universe != [] {
      MissingMembers(universe[1..], active);
    }
  }

  /** The second phase of an announce; it never removes the provider's slot. */
  function Announced(e: Entries, provider: string, active: seq<string>): Entries {
    if provider in e then e[provider := SlotWithout(e[provider], active)] else e
  }

  function Replaced(e: Entries, provider: string, active: seq<string>, universe: seq<string>, d: Deactivation): Entries
  {
    Announced(Deactivated(e, provider, Missing(universe, active), d), provider, active)
  }

  /** Whether a probe may set the entry of `model`: there is none, or a probe set it. */
  predicate ProbeManaged(slot: Slot, model: string) { model in slot ==> slot[model].setBy == PROBE }

  function ProbedSlot(slot: Slot, served: seq<string>, universe: seq<string>, d: Deactivation): Slot {
    map m | m in slot.Keys + (set x | x in universe) && m !in served ::
      if m in universe && ProbeManaged(slot, m) then d else slot[m]
  }

  function Probed(e: Entries, provider: string, served: seq<string>, universe: seq<string>, d: Deactivation): Entries {
    Stored(e, provider, ProbedSlot(SlotOf(e, provider), served, universe, d))
  }

  // ---------- What the store reports ----------

  /** Why a model is unavailable right now, if it is. */
  function Unavailable(e: Entries, provider: string, model: string, now: int): Option<Deactivation> {
    var found := Lookup(e, provider, model);
    if found.Some? && !found.value.Expired(now) then found else None
  }

  function Unexpired(slot: Slot, now: int): Slot {
    map m | m in slot && !slot[m].Expired(now) :: slot[m]
  }

  /** All currently deactivated models; providers without any are left out. */
  function Snapshot(e: Entries, now: int): Entries {
    map p | p in e && Unexpired(e[p], now) != map[] :: Unexpired(e[p], now)
  }

  // ---------- Counting ----------

  /** The models whose entry differs. */
  function Differing(a: Slot, b: Slot): set<string> {
    set m | m in a.Keys + b.Keys && !(m in a && m in b && a[m] == b[m])
  }

  lemma DifferingFromNone(slot: Slot)
    ensures |Differing(slot, map[])| == |slot|
  {
    assert Differing(slot, map[]) == slot.Keys;
  }

  lemma SetOne(slot: Slot, before: Slot, model: string, d: Deactivation)
    requires model !in Differing(before, slot)
    requires !(model in slot && slot[model] == d)
    ensures |Differing(before, slot[model := d])| == |Differing(before, slot)| + 1
  {
    var next := slot[model := d];
    assert forall m | m != model :: (m in next <==> m in slot) && (m in slot ==> next[m] == slot[m]);
    assert Differing(before, next) == Differing(before, slot) + {model};
  }

  lemma DropOne(slot: Slot, before: Slot, model: string)
    requires model !in Differing(before, slot) && model in slot
    ensures |Differing(before, slot - {model})| == |Differing(before, slot)| + 1
  {
    assert Differing(before, slot - {model}) == Differing(before, slot) + {model};
  }

  lemma SlotWithNone(slot: Slot, d: Deactivation)
    ensures SlotWith(slot, [], d) == slot && Differing(slot, slot) == {}
  {
  }

  lemma SlotWithNext(before: Slot, models: seq<string>, i: nat, d: Deactivation)
    requires i < |models|
    ensures var slot, next := SlotWith(before, models[..i], d), SlotWith(before, models[..i + 1], d);
            && next == slot[models[i] := d]
            && |Differing(before, next)|
               == |Differing(before, slot)| + (if models[i] in slot && slot[models[i]] == d then 0 else 1)
  {
    var slot, model := SlotWith(before, models[..i], d), models[i];
    assert models[..i + 1] == models[..i] + [model];
    assert SlotWith(before, models[..i + 1], d) == slot[model := d];
    if model in slot && slot[model] == d {
      assert slot[model := d] == slot;
    } else {
      SetOne(slot, before, model, d);
    }
  }

  lemma SlotWithoutNone(slot: Slot)
    ensures SlotWithout(slot, []) == slot && Differing(slot, slot) == {}
  {
  }

  lemma SlotWithoutNext(before: Slot, models: seq<string>, i: nat)
    requires i < |models|
    ensures var slot, next := SlotWithout(before, models[..i]), SlotWithout(before, models[..i + 1]);
            && next == slot - {models[i]}
            && |Differing(before, next)| == |Differing(before, slot)| + (if models[i] in slot then 1 else 0)
  {
    var slot, model := SlotWithout(before, models[..i]), models[i];
    assert models[..i + 1] == models[..i] + [model];
    assert SlotWithout(before, models[..i + 1]) == slot - {model};
    if model in slot {
      DropOne(slot, before, model);
    } else {
      assert slot - {model} == slot;
    }
  }

  /** A slot after a probe's first loop. */
  function SetByProbe(slot: Slot, served: seq<string>, universe: seq<string>, d: Deactivation): Slot {
    map m | m in slot.Keys + (set x | x in universe && x !in served) ::
      if m in universe && m !in served && ProbeManaged(slot, m) then d else slot[m]
  }

  lemma SetByProbeNone(slot: Slot, served: seq<string>, d: Deactivation)
    ensures SetByProbe(slot, served, [], d) == slot && Differing(slot, slot) == {}
  {
  }

  lemma SetByProbeNext(before: Slot, served: seq<string>, universe: seq<string>, i: nat, d: Deactivation)
    requires i < |universe| && d.setBy == PROBE
    ensures var slot := SetByProbe(before, served, universe[..i], d);
            var next := SetByProbe(before, served, universe[..i + 1], d);
            var sets := universe[i] !in served && ProbeManaged(slot, universe[i]);
            && next == (if sets then slot[universe[i] := d] else slot)
            && |Differing(before, next)|
               == |Differing(before, slot)|
                  + (if sets && !(universe[i] in slot && slot[universe[i]] == d) then 1 else 0)
  {
    var slot, model := SetByProbe(before, served, universe[..i], d), universe[i];
    assert universe[..i + 1] == universe[..i] + [model];
    var sets := model !in served && ProbeManaged(slot, model);
    assert SetByProbe(before, served, universe[..i + 1], d) == if sets then slot[model := d] else slot;
    if sets && !(model in slot && slot[model] == d) {
      SetOne(slot, before, model, d);
    } else if sets {
      assert slot[model := d] == slot;
    }
  }

  /** The two loops of a probe together, and what each of its two counts is about. */
  lemma ProbeLoops(before: Slot, served: seq<string>, universe: seq<string>, d: Deactivation)
    ensures var middle, after := SetByProbe(before, served, universe, d), ProbedSlot(before, served, universe, d);
            && after == SlotWithout(middle, served)
            && (set m | m in Differing(before, after) && m !in served) == Differing(before, middle)
            && (set m | m in middle && m in served && middle[m].setBy == PROBE)
               == (set m | m in before && m in served && before[m].setBy == PROBE)
  {
  }

  // ---------- The store ----------

  class Availability {
    var entries: Entries
    var probe: map<string, ProbeStatus>

    constructor ()
      ensures entries == map[] && probe == map[]
    {
      entries, probe := map[], map[];
    }

    method Deactivate(
        provider: string, models: seq<string>, reason: Option<string>, until: Option<int>, setBy: string, now: int)
      returns (changed: nat)
      modifies this`entries
      ensures entries == Deactivated(old(entries), provider, models, Deactivation(reason, until, setBy, now))
      ensures changed == |Differing(SlotOf(old(entries), provider), SlotOf(entries, provider))|
    {
      hide SlotWith, Differing;
      ghost var e, before := entries, SlotOf(entries, provider);
      var d := Deactivation(reason, until, setBy, now);
      changed := 0;
      entries := entries[provider := SlotOf(entries, provider)];
      SlotWithNone(before, d);
      assert models[..0] == [];
      for i := 0 to |models|
        invariant entries == e[provider := SlotWith(before, models[..i], d)]
        invariant changed == |Differing(before, entries[provider])|
      {
        var slot, model := entries[provider], models[i];
        SlotWithNext(before, models, i, d);
        if !(model in slot && slot[model] == d) {
          changed := changed + 1;
        }
        entries := entries[provider := slot[model := d]];
      }
      assert models[..|models|] == models;
    }

    /** Removes the entries of `models` from a slot, counting those that were there. */
    method RemoveModels(provider: string, models: seq<string>) returns (removed: nat)
      requires provider in entries
      modifies this`entries
      ensures entries == old(entries)[provider := SlotWithout(old(entries)[provider], models)]
      ensures removed == |Differing(old(entries)[provider], entries[provider])|
    {
      hide SlotWithout, Differing;
      ghost var e, before := entries, entries[provider];
      removed := 0;
      SlotWithoutNone(before);
      assert models[..0] == [];
      for i := 0 to |models|
        invariant provider in entries && entries == e[provider := SlotWithout(before, models[..i])]
        invariant removed == |Differing(before, entries[provider])|
      {
        var slot, model := entries[provider], models[i];
        SlotWithoutNext(before, models, i);
        if model in slot {
          removed := removed + 1;
        }
        entries := entries[provider := slot - {model}];
      }
      assert models[..|models|] == models;
    }

    method Activate(provider: string, models: Option<seq<string>>) returns (changed: nat)
      modifies this`entries
      ensures entries == Activated(old(entries), provider, models)
      ensures changed == |Differing(SlotOf(old(entries), provider), SlotOf(entries, provider))|
    {
      hide Differing, SlotWithout;
      DifferingFromNone(SlotOf(entries, provider));
      if provider !in entries {
        return 0;
      }
      if models.Some? {
        changed := RemoveModels(provider, models.value);
      } else {
        changed := |entries[provider]|;
        entries := entries[provider := map[]];
      }
      if entries[provider] == map[] {
        entries := entries - {provider};
        assert entries == old(entries) - {provider};
      }
    }

    method ReplaceActive(
        provider: string, active: seq<string>, universe: seq<string>,
        reason: Option<string>, until: Option<int>, setBy: string, now: int)
      returns (changed: nat)
      modifies this`entries
      ensures entries == Replaced(old(entries), provider, active, universe, Deactivation(reason, until, setBy, now))
      ensures changed == |Differing(SlotOf(old(entries), provider), SlotOf(entries, provider))|
    {
      ghost var before, d := SlotOf(entries, provider), Deactivation(reason, until, setBy, now);
      var deactivated := Missing(universe, active);
      MissingMembers(universe, active);
      changed := Deactivate(provider, deactivated, reason, until, setBy, now);
      ghost var middle := entries[provider];
      if provider !in entries {
        return;
      }
      var activated := RemoveModels(provider, active);
      TwoPhases(before, middle, entries[provider], deactivated, active, d);
      changed := changed + activated;
    }

    /** `error` is `None` when the runtime answered. */
    method ApplyProbe(
        provider: string, served: seq<string>, universe: seq<string>, error: Option<string>, now: int)
      returns (deactivated: nat, reactivated: nat)
      modifies this
      ensures entries == Probed(old(entries), provider, served, universe,
                                Deactivation(Some(ProbeReason(error)), None, PROBE, now))
      ensures probe == old(probe)[provider := ProbeStatus(now, error.None?, error, served)]
      ensures deactivated
           == |set m | m in Differing(SlotOf(old(entries), provider), SlotOf(entries, provider)) && m !in served|
      ensures reactivated
           == |set m | m in SlotOf(old(entries), provider) && m in served
                       && SlotOf(old(entries), provider)[m].setBy == PROBE|
    {
      hide SetByProbe, ProbedSlot, SlotWithout, Differing, ProbeReason;
      ghost var before := SlotOf(entries, provider);
      var d := Deactivation(Some(ProbeReason(error)), None, PROBE, now);
      ProbeLoops(before, served, universe, d);
      deactivated := ProbeUniverse(provider, served, universe, d);
      reactivated := ProbeServed(provider, served);
      if entries[provider] == map[] {
        entries := entries - {provider};
        assert entries == old(entries) - {provider};
      }
      probe := probe[provider := ProbeStatus(now, error.None?, error, served)];
    }

    /** The first loop of a probe: deactivates the unserved models of the universe that it may. */
    method ProbeUniverse(provider: string, served: seq<string>, universe: seq<string>, d: Deactivation)
      returns (deactivated: nat)
      requires d.setBy == PROBE
      modifies this`entries
      ensures var before := SlotOf(old(entries), provider);
              && entries == old(entries)[provider := SetByProbe(before, served, universe, d)]
              && deactivated == |Differing(before, entries[provider])|
    {
      hide SetByProbe, Differing;
      ghost var e, before := entries, SlotOf(entries, provider);
      deactivated := 0;
      entries := entries[provider := SlotOf(entries, provider)];
      SetByProbeNone(before, served, d);
      assert universe[..0] == [];
      for i := 0 to |universe|
        invariant entries == e[provider := SetByProbe(before, served, universe[..i], d)]
        invariant deactivated == |Differing(before, entries[provider])|
      {
        var slot, model := entries[provider], universe[i];
        SetByProbeNext(before, served, universe, i, d);
        if model in served {
          continue;
        }
        if ProbeManaged(slot, model) && !(model in slot && slot[model] == d) {
          deactivated := deactivated + 1;
          entries := entries[provider := slot[model := d]];
        } else {
          assert model in slot && slot[model] == d ==> slot[model := d] == slot;
        }
      }
      assert universe[..|universe|] == universe;
    }

    /** The second loop of a probe: removes every entry of a served model. */
    method ProbeServed(provider: string, served: seq<string>) returns (reactivated: nat)
      requires provider in entries
      modifies this`entries
      ensures entries == old(entries)[provider := SlotWithout(old(entries)[provider], served)]
      ensures reactivated
           == |set m | m in old(entries)[provider] && m in served && old(entries)[provider][m].setBy == PROBE|
    {
      ghost var e, before := entries, entries[provider];
      reactivated := 0;
      ghost var counted := {};
      assert SlotWithout(before, []) == before;
      for i := 0 to |served|
        invariant provider in entries && entries == e[provider := SlotWithout(before, served[..i])]
        invariant counted == set m | m in before && m in served[..i] && before[m].setBy == PROBE
        invariant reactivated == |counted|
      {
        var slot, model := entries[provider], served[i];
        assert served[..i + 1] == served[..i] + [model];
        assert SlotWithout(before, served[..i + 1]) == slot - {model};
        if model in slot && slot[model].setBy == PROBE {
          counted := counted + {model};
          reactivated := reactivated + 1;
        }
        entries := entries[provider := slot - {model}];
      }
      assert served[..|served|] == served;
    }
  }

  /** The two phases of an announce change different models, so their counts add up. */
  lemma TwoPhases(
      before: Slot, middle: Slot, after: Slot, deactivated: seq<string>, active: seq<string>, d: Deactivation)
    requires middle == SlotWith(before, deactivated, d) && after == SlotWithout(middle, active)
    requires forall m <- deactivated :: m !in active
    ensures |Differing(before, after)| == |Differing(before, middle)| + |Differing(middle, after)|
  {
    assert Differing(before, after) == Differing(before, middle) + Differing(middle, after);
    assert Differing(before, middle) !! Differing(middle, after);
  }
}
