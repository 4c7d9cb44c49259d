/**
 Concurrent announces. `replace_active` takes the write lock twice: first to deactivate what the
 announce leaves out, then to re-activate what it lists. Any number of announces for one provider
 and universe may interleave between these two locked phases. A schedule is the order in which
 tasks take their next locked phase.
 */
module ConcurrentAnnounces {
  import opened Wrappers
  import opened AvailabilityStore

  datatype Announce = Announce(active: seq<string>, d: Deactivation)

  /** The announces under way, all for one provider and one universe. */
  datatype Setting = Setting(provider: string, universe: seq<string>, announces: seq<Announce>)

  /** `pc[i]` counts the locked phases task `i` has been through. */
  datatype State = State(entries: Entries, pc: seq<nat>)

  datatype Event = Off(task: nat) | On(task: nat)

  predicate Fits(pc: seq<nat>, n: nat) { |pc| == n && forall i | 0 <= i < n :: pc[i] <= 2 }

  predicate Enabled(pc: seq<nat>, task: nat) { task < |pc| && pc[task] < 2 }

  predicate Finished(pc: seq<nat>) { forall i | 0 <= i < |pc| :: pc[i] == 2 }

  predicate Lists(c: Setting, task: nat, model: string)
    requires task < |c.announces|
  {
    model in c.announces[task].active
  }

  /** Within the universe, announce `i` lists nothing that `j` does not. */
  predicate Below(c: Setting, i: nat, j: nat)
    requires i < |c.announces| && j < |c.announces|
  {
    forall m <- c.universe :: Lists(c, i, m) ==> Lists(c, j, m)
  }

  /** Task `task` takes its next locked phase. */
  function Advance(c: Setting, s: State, task: nat): State
    requires Fits(s.pc, |c.announces|) && Enabled(s.pc, task)
  {
    var announce := c.announces[task];
    var after := if s.pc[task] == 0
                 then Deactivated(s.entries, c.provider, Missing(c.universe, announce.active), announce.d)
                 else Announced(s.entries, c.provider, announce.active);
    State(after, s.pc[task := s.pc[task] + 1])
  }

  predicate Runs(pc: seq<nat>, schedule: seq<nat>)
    decreases |schedule|
  {
    schedule == [] || (Enabled(pc, schedule[0]) && Runs(Next(pc, schedule[0]), schedule[1..]))
  }

  function Next(pc: seq<nat>, task: nat): seq<nat>
    requires Enabled(pc, task)
  {
    pc[task := pc[task] + 1]
  }

  function Exec(c: Setting, s: State, schedule: seq<nat>): (after: State)
    requires Fits(s.pc, |c.announces|) && Runs(s.pc, schedule)
    ensures Fits(after.pc, |c.announces|)
    decreases |schedule|
  {
    if schedule == [] then s else Exec(c, Advance(c, s, schedule[0]), schedule[1..])
  }

  function Event1(pc: seq<nat>, task: nat): Event
    requires Enabled(pc, task)
  {
    if pc[task] == 0 then Off(task) else On(task)
  }

  /** The phases a schedule goes through. */
  function Events(pc: seq<nat>, schedule: seq<nat>): (events: seq<Event>)
    requires Runs(pc, schedule)
    ensures |events| == |schedule| && forall e <- events :: e.task < |pc|
    decreases |schedule|
  {
    if schedule == [] then []
    else [Event1(pc, schedule[0])] + Events(Next(pc, schedule[0]), schedule[1..])
  }

  // ---------- What a sequence of phases makes of one model ----------

  predicate TurnsOff(c: Setting, e: Event, model: string) {
    e.Off? && e.task < |c.announces| && model in c.universe && model !in c.announces[e.task].active
  }

  predicate TurnsOn(c: Setting, e: Event, model: string) {
    e.On? && e.task < |c.announces| && model in c.announces[e.task].active
  }

  function After(c: Setting, events: seq<Event>, model: string, before: Option<Deactivation>): Option<Deactivation>
    decreases |events|
  {
    if events == [] then before
    else
      var e := events[0];
      After(c, events[1..], model,
            if TurnsOff(c, e, model) then Some(c.announces[e.task].d)
            else if TurnsOn(c, e, model) then None
            else before)
  }

  lemma {:induction false} ExecLookup(c: Setting, s: State, schedule: seq<nat>, model: string)
    requires Fits(s.pc, |c.announces|) && Runs(s.pc, schedule)
    ensures Lookup(Exec(c, s, schedule).entries, c.provider, model)
         == After(c, Events(s.pc, schedule), model, Lookup(s.entries, c.provider, model))
    decreases |schedule|
  {
    if schedule != [] {
      var task := schedule[0];
      MissingMembers(c.universe, c.announces[task].active);
      ExecLookup(c, Advance(c, s, task), schedule[1..], model);
      var events := Events(s.pc, schedule);
      assert events[0] == Event1(s.pc, task) && events[1..] == Events(Next(s.pc, task), schedule[1..]);
    }
  }

  /** Event `k` turns the model on, and no later event turns it off. */
  ghost predicate LeavesOn(c: Setting, events: seq<Event>, k: nat, model: string) {
    k < |events| && TurnsOn(c, events[k], model) && forall j | k < j < |events| :: !TurnsOff(c, events[j], model)
  }

  ghost predicate NeverTurned(c: Setting, events: seq<Event>, model: string) {
    forall e <- events :: !TurnsOff(c, e, model) && !TurnsOn(c, e, model)
  }

  /** The last event that matters decides. */
  lemma {:induction false} AfterExact(c: Setting, events: seq<Event>, model: string, before: Option<Deactivation>)
    ensures After(c, events, model, before).None?
            <==> (exists k: nat :: LeavesOn(c, events, k, model))
                 || ((forall e <- events :: !TurnsOff(c, e, model)) && before.None?)
    decreases |events|
  {
    hide TurnsOff, TurnsOn;
    if events != [] {
      var e, rest := events[0], events[1..];
      TurnsOneWay(c, e, model);
      var now := if TurnsOff(c, e, model) then Some(c.announces[e.task].d)
                 else if TurnsOn(c, e, model) then None else before;
      AfterExact(c, rest, model, now);
      assert forall x :: x in events <==> x == e || x in rest;
      if k: nat :| LeavesOn(c, rest, k, model) {
        assert LeavesOn(c, events, k + 1, model);
      }
      if k: nat :| LeavesOn(c, events, k, model) {
        if k > 0 {
          assert LeavesOn(c, rest, k - 1, model);
        } else {
          assert forall x <- rest :: !TurnsOff(c, x, model);
        }
      }
      if TurnsOn(c, e, model) && forall x <- rest :: !TurnsOff(c, x, model) {
        assert LeavesOn(c, events, 0, model);
      }
    }
  }

  /** An entry left by a sequence of phases that touch the model was set by one of them. */
  lemma {:induction false} AfterSource(c: Setting, events: seq<Event>, model: string, before: Option<Deactivation>)
    ensures NeverTurned(c, events, model) ==> After(c, events, model, before) == before
    ensures !NeverTurned(c, events, model) && After(c, events, model, before).Some? ==>
              exists e <- events ::
                TurnsOff(c, e, model) && After(c, events, model, before) == Some(c.announces[e.task].d)
    decreases |events|
  {
    hide TurnsOff, TurnsOn;
    if events != [] {
      var e, rest := events[0], events[1..];
      TurnsOneWay(c, e, model);
      var now := if TurnsOff(c, e, model) then Some(c.announces[e.task].d)
                 else if TurnsOn(c, e, model) then None else before;
      AfterSource(c, rest, model, now);
      assert forall x :: x in events <==> x == e || x in rest;
    }
  }

  lemma TurnsOneWay(c: Setting, e: Event, model: string)
    ensures !(TurnsOff(c, e, model) && TurnsOn(c, e, model))
    ensures TurnsOff(c, e, model) || TurnsOn(c, e, model) ==> e.task < |c.announces|
  {
  }

  // ---------- Complete runs ----------

  /** Where a schedule leads, for the program counters alone. */
  function EndPc(pc: seq<nat>, schedule: seq<nat>): seq<nat>
    requires Runs(pc, schedule)
    decreases |schedule|
  {
    if schedule == [] then pc else EndPc(Next(pc, schedule[0]), schedule[1..])
  }

  lemma {:induction false} ExecPc(c: Setting, s: State, schedule: seq<nat>)
    requires Fits(s.pc, |c.announces|) && Runs(s.pc, schedule)
    ensures Exec(c, s, schedule).pc == EndPc(s.pc, schedule)
    decreases |schedule|
  {
    hide Deactivated, Announced;
    if schedule != [] {
      ExecPc(c, Advance(c, s, schedule[0]), schedule[1..]);
    }
  }

  /** Every task not yet finished gets to its second phase, and to its first if it has not begun. */
  lemma {:induction false} AllPhasesHappen(pc: seq<nat>, schedule: seq<nat>, task: nat)
    requires Fits(pc, |pc|) && Runs(pc, schedule) && Finished(EndPc(pc, schedule)) && task < |pc|
    ensures pc[task] < 2 ==> On(task) in Events(pc, schedule)
    ensures pc[task] == 0 ==> Off(task) in Events(pc, schedule)
    decreases |schedule|
  {
    if schedule != [] {
      AllPhasesHappen(Next(pc, schedule[0]), schedule[1..], task);
    }
  }

  /** A first phase is always followed by the same task's second phase. */
  lemma {:induction false} OffThenOn(pc: seq<nat>, schedule: seq<nat>, k: nat)
    requires Fits(pc, |pc|) && Runs(pc, schedule) && Finished(EndPc(pc, schedule))
    requires k < |schedule| && Events(pc, schedule)[k].Off?
    ensures exists j :: k < j < |schedule| && Events(pc, schedule)[j] == On(Events(pc, schedule)[k].task)
    decreases |schedule|
  {
    var events, rest := Events(pc, schedule), Events(Next(pc, schedule[0]), schedule[1..]);
    assert events == [events[0]] + rest;
    if k == 0 {
      AllPhasesHappen(Next(pc, schedule[0]), schedule[1..], schedule[0]);
      var i :| 0 <= i < |rest| && rest[i] == On(schedule[0]);
      assert events[i + 1] == rest[i];
    } else {
      OffThenOn(Next(pc, schedule[0]), schedule[1..], k - 1);
      var i :| k - 1 < i < |rest| && rest[i] == On(rest[k - 1].task);
      assert events[i + 1] == rest[i];
    }
  }

  /** All tasks start from some entries, and every one of them finishes. */
  ghost predicate CompleteRun(c: Setting, entries: Entries, schedule: seq<nat>) {
    && |c.announces| > 0
    && Runs(NoneBegun(c), schedule) && Finished(Exec(c, State(entries, NoneBegun(c)), schedule).pc)
  }

  function NoneBegun(c: Setting): (pc: seq<nat>)
    ensures Fits(pc, |c.announces|)
  {
    seq(|c.announces|, i => 0)
  }

  ghost function Final(c: Setting, entries: Entries, schedule: seq<nat>, model: string): Option<Deactivation>
    requires CompleteRun(c, entries, schedule)
  {
    Lookup(Exec(c, State(entries, NoneBegun(c)), schedule).entries, c.provider, model)
  }

  /**
   After all announces have finished, a model of the universe is available exactly when some
   announce that lists it re-activated it and no announce that leaves it out deactivated it later.
   */
  lemma AvailabilityExact(c: Setting, entries: Entries, schedule: seq<nat>, model: string)
    requires CompleteRun(c, entries, schedule) && model in c.universe
    ensures Final(c, entries, schedule, model).None?
            <==> exists k: nat :: LeavesOn(c, Events(NoneBegun(c), schedule), k, model)
    ensures Final(c, entries, schedule, model).Some? ==>
              exists i | 0 <= i < |c.announces| ::
                model !in c.announces[i].active && Final(c, entries, schedule, model) == Some(c.announces[i].d)
  {
    hide Lookup, Exec, Events;
    var pc := NoneBegun(c);
    var s := State(entries, pc);
    var events := Events(pc, schedule);
    ExecLookup(c, s, schedule, model);
    AfterExact(c, events, model, Lookup(entries, c.provider, model));
    AfterSource(c, events, model, Lookup(entries, c.provider, model));
    ExecPc(c, s, schedule);
    AllPhasesHappen(pc, schedule, 0);
    if model in c.announces[0].active && forall e <- events :: !TurnsOff(c, e, model) {
      var k :| 0 <= k < |events| && events[k] == On(0);
      assert LeavesOn(c, events, k, model);
    }
    assert TurnsOff(c, Off(0), model) || TurnsOn(c, On(0), model);
  }

  /** The announce whose second phase comes last. */
  function LastFinisher(schedule: seq<nat>): nat
    requires schedule != []
  {
    schedule[|schedule| - 1]
  }

  lemma LastEventIsOn(c: Setting, entries: Entries, schedule: seq<nat>)
    requires CompleteRun(c, entries, schedule)
    ensures schedule != [] && LastFinisher(schedule) < |c.announces|
    ensures Events(NoneBegun(c), schedule)[|schedule| - 1] == On(LastFinisher(schedule))
  {
    hide Exec;
    var pc := NoneBegun(c);
    var events := Events(pc, schedule);
    ExecPc(c, State(entries, pc), schedule);
    AllPhasesHappen(pc, schedule, 0);
    EventTask(pc, schedule, |schedule| - 1);
    if events[|schedule| - 1].Off? {
      OffThenOn(pc, schedule, |schedule| - 1);
    }
  }

  lemma {:induction false} EventTask(pc: seq<nat>, schedule: seq<nat>, k: nat)
    requires Runs(pc, schedule) && k < |schedule|
    ensures Events(pc, schedule)[k].task == schedule[k]
    decreases |schedule|
  {
    if k > 0 {
      EventTask(Next(pc, schedule[0]), schedule[1..], k - 1);
    }
  }

  /**
   Whatever the interleaving: the last finisher's whole active set is available, models every
   announce lists are available, and universe models no announce lists are deactivated.
   */
  lemma AnnouncesConverge(c: Setting, entries: Entries, schedule: seq<nat>, model: string)
    requires CompleteRun(c, entries, schedule)
    ensures schedule != [] && LastFinisher(schedule) < |c.announces|
    ensures model in c.announces[LastFinisher(schedule)].active ==> Final(c, entries, schedule, model).None?
    ensures (forall a <- c.announces :: model in a.active) ==> Final(c, entries, schedule, model).None?
    ensures model in c.universe && (forall a <- c.announces :: model !in a.active) ==>
              Final(c, entries, schedule, model).Some?
  {
    hide Lookup, Exec, Events, Runs;
    var pc := NoneBegun(c);
    var events := Events(pc, schedule);
    LastEventIsOn(c, entries, schedule);
    ExecLookup(c, State(entries, pc), schedule, model);
    AfterExact(c, events, model, Lookup(entries, c.provider, model));
    var last := |schedule| - 1;
    if model in c.announces[LastFinisher(schedule)].active {
      assert LeavesOn(c, events, last, model);
    }
    if model in c.universe && forall a <- c.announces :: model !in a.active {
      AvailabilityExact(c, entries, schedule, model);
    }
  }
}
