/**
 What both reports say after each operation, in plain times and literal writers: which entry holds a
 model, and until when.
 */
module AvailabilityMeaning {
  import opened Wrappers
  import opened AvailabilityStore
  import opened AvailabilityRuns

  /** `d` is what both reports give for the model at `now`. */
  predicate Reported(e: Entries, provider: string, model: string, now: int, d: Deactivation) {
    && Unavailable(e, provider, model, now) == Some(d)
    && provider in Snapshot(e, now) && model in Snapshot(e, now)[provider] && Snapshot(e, now)[provider][model] == d
  }

  /** Neither report mentions the model at `now`. */
  predicate Offered(e: Entries, provider: string, model: string, now: int) {
    && Unavailable(e, provider, model, now).None?
    && !(provider in Snapshot(e, now) && model in Snapshot(e, now)[provider])
  }

  /** `d` holds the model as long as its time runs, for ever without one, and not a moment longer. */
  ghost predicate HeldBy(e: Entries, provider: string, model: string, d: Deactivation) {
    forall now: int ::
      if d.until.None? || now < d.until.value then Reported(e, provider, model, now, d)
      else Offered(e, provider, model, now)
  }

  ghost predicate Free(e: Entries, provider: string, model: string) {
    forall now: int :: Offered(e, provider, model, now)
  }

  /** The reports before and after say the same of the model. */
  ghost predicate SameReports(e: Entries, after: Entries, provider: string, model: string) {
    forall now: int, d ::
      && (Reported(e, provider, model, now, d) <==> Reported(after, provider, model, now, d))
      && (Offered(e, provider, model, now) <==> Offered(after, provider, model, now))
  }

  /** The two reports agree, so one of them tells. */
  lemma OneReportTells(e: Entries, provider: string, model: string, now: int)
    ensures forall d :: Reported(e, provider, model, now, d) <==> Unavailable(e, provider, model, now) == Some(d)
    ensures Offered(e, provider, model, now) <==> Unavailable(e, provider, model, now).None?
  {
    hide Snapshot, Unavailable;
    UnavailableIffListed(e, provider, model, now);
  }

  /** A stored entry holds its model; a model without one is free. */
  lemma EntryHolds(e: Entries, provider: string, model: string)
    ensures var found := Lookup(e, provider, model);
            if found.Some? then HeldBy(e, provider, model, found.value) else Free(e, provider, model)
  {
    hide Reported, Offered, Lookup;
    var found := Lookup(e, provider, model);
    forall now: int
      ensures found.Some? && (found.value.until.None? || now < found.value.until.value) ==>
                Reported(e, provider, model, now, found.value)
      ensures found.None? || (found.value.until.Some? && found.value.until.value <= now) ==>
                Offered(e, provider, model, now)
    {
      OneReportTells(e, provider, model, now);
    }
  }

  lemma SameEntry(e: Entries, after: Entries, provider: string, model: string)
    requires Lookup(e, provider, model) == Lookup(after, provider, model)
    ensures SameReports(e, after, provider, model)
  {
    hide Reported, Offered, Lookup;
    forall now: int, d
      ensures Reported(e, provider, model, now, d) <==> Reported(after, provider, model, now, d)
      ensures Offered(e, provider, model, now) <==> Offered(after, provider, model, now)
    {
      OneReportTells(e, provider, model, now);
      OneReportTells(after, provider, model, now);
    }
  }

  /** A deactivation holds each of its models until its own time, and touches no other model. */
  lemma AfterDeactivate(e: Entries, provider: string, models: seq<string>, d: Deactivation, p: string, m: string)
    ensures var after := Deactivated(e, provider, models, d);
            if p == provider && m in models then HeldBy(after, p, m, d) else SameReports(e, after, p, m)
  {
    hide Deactivated, Lookup, HeldBy, Free, SameReports;
    After(e, Deactivate(provider, models, d), p, m);
    assert Step(e, Deactivate(provider, models, d)) == Deactivated(e, provider, models, d);
  }

  /** An activation frees the models it names, or all of the provider. */
  lemma AfterActivate(e: Entries, provider: string, models: Option<seq<string>>, p: string, m: string)
    ensures var after := Activated(e, provider, models);
            if p == provider && (models.None? || m in models.value) then Free(after, p, m)
            else SameReports(e, after, p, m)
  {
    hide Activated, Lookup, HeldBy, Free, SameReports;
    After(e, Activate(provider, models), p, m);
    assert Step(e, Activate(provider, models)) == Activated(e, provider, models);
  }

  /** An announce frees what is active and holds the rest of the universe. */
  lemma AfterAnnounce(
      e: Entries, provider: string, active: seq<string>, universe: seq<string>, d: Deactivation, p: string, m: string)
    ensures var after := Replaced(e, provider, active, universe, d);
            if p == provider && m in active then Free(after, p, m)
            else if p == provider && m in universe then HeldBy(after, p, m, d)
            else SameReports(e, after, p, m)
  {
    hide Replaced, Lookup, HeldBy, Free, SameReports;
    After(e, ReplaceActive(provider, active, universe, d), p, m);
    assert Step(e, ReplaceActive(provider, active, universe, d)) == Replaced(e, provider, active, universe, d);
  }

  /**
   A probe frees what is served; of the rest of the universe it holds the models that have no entry
   or one in the name "probe", whose time may have run out as well.
   */
  lemma AfterProbe(
      e: Entries, provider: string, served: seq<string>, universe: seq<string>, error: Option<string>, at: int,
      p: string, m: string)
    ensures var d := Deactivation(Some(ProbeReason(error)), None, "probe", at);
            var after := Probed(e, provider, served, universe, d);
            var found := Lookup(e, provider, m);
            if p == provider && m in served then Free(after, p, m)
            else if p == provider && m in universe && (found.None? || found.value.setBy == "probe")
            then HeldBy(after, p, m, d)
            else SameReports(e, after, p, m)
  {
    hide Probed, Lookup, HeldBy, Free, SameReports, ProbeReason;
    var d := Deactivation(Some(ProbeReason(error)), None, "probe", at);
    var op := ApplyProbe(provider, served, universe, d);
    After(e, op, p, m);
    ProbeStep(e, provider, served, universe, d);
  }

  /** What the reports say after an operation is what becomes of the entry. */
  lemma After(e: Entries, op: Op, p: string, m: string)
    ensures var found, next := Lookup(e, p, m), Entry(op, p, m, Lookup(e, p, m));
            && (next == found ==> SameReports(e, Step(e, op), p, m))
            && (if next.Some? then HeldBy(Step(e, op), p, m, next.value) else Free(Step(e, op), p, m))
  {
    hide Step, Lookup, Entry, HeldBy, Free, SameReports;
    StepEntry(e, op, p, m);
    EntryHolds(Step(e, op), p, m);
    if Lookup(e, p, m) == Lookup(Step(e, op), p, m) {
      SameEntry(e, Step(e, op), p, m);
    }
  }

  /** The reason a probe leaves, word by word. */
  lemma ProbeReasonSpelled(error: string)
    ensures ProbeReason(None) == "Not served by the runtime (availability probe)"
    ensures ProbeReason(Some(error)) == "Runtime did not answer its model list: " + error
  {
  }
}
