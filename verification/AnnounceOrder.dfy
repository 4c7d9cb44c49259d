/**
 Two announces that overlap: exactly when they end as one after the other would have left things.
 The condition compares the two active sets before anything runs.
 */
module AnnounceOrder {
  import opened Wrappers
  import opened AvailabilityStore
  import opened ConcurrentAnnounces

  // ---------- Schedules of two announces ----------

  /** Both phases of one announce, then both phases of the other. */
  function Sequential(first: nat): seq<nat>
    requires first <= 1
  {
    [first, first, 1 - first, 1 - first]
  }

  /** Both first phases, then both second phases. */
  function Overlapped(off: nat, on: nat): seq<nat>
    requires off <= 1 && on <= 1
  {
    [off, 1 - off, on, 1 - on]
  }

  /** What one task's step makes of the program counters of two. */
  function Stepped(x: nat, y: nat, task: nat): (nat, nat) { if task == 0 then (x + 1, y) else (x, y + 1) }

  /** A step of a run of two that is not over. */
  lemma Unroll(x: nat, y: nat, schedule: seq<nat>) returns (task: nat, rest: seq<nat>, x2: nat, y2: nat)
    requires x <= 2 && y <= 2 && x + y < 4 && Runs([x, y], schedule) && Finished(EndPc([x, y], schedule))
    ensures schedule == [task] + rest && task <= 1 && (x2, y2) == Stepped(x, y, task) && x2 <= 2 && y2 <= 2
    ensures Runs([x2, y2], rest) && Finished(EndPc([x2, y2], rest))
  {
    assert [x, y][0] == x && [x, y][1] == y && !Finished([x, y]);
    task, rest := schedule[0], schedule[1..];
    assert Enabled([x, y], task) && task <= 1;
    var next := Next([x, y], task);
    x2, y2 := Stepped(x, y, task).0, Stepped(x, y, task).1;
    assert next == [x2, y2];
  }

  lemma AtEnd(schedule: seq<nat>)
    requires Runs([2, 2], schedule)
    ensures schedule == []
  {
  }

  /** Four steps bring two announces to their end. */
  lemma FourSteps(c: Setting, entries: Entries, schedule: seq<nat>)
    requires |c.announces| == 2 && CompleteRun(c, entries, schedule)
    ensures |schedule| == 4 && schedule[0] <= 1 && schedule[2] <= 1
    ensures schedule
            == if schedule[0] == schedule[1] then Sequential(schedule[0]) else Overlapped(schedule[0], schedule[2])
  {
    hide Runs, EndPc, Exec, Finished;
    var pc := NoneBegun(c);
    ExecPc(c, State(entries, pc), schedule);
    assert pc == [0, 0];
    var t0, r0, x0, y0 := Unroll(0, 0, schedule);
    var t1, r1, x1, y1 := Unroll(x0, y0, r0);
    var t2, r2, x2, y2 := Unroll(x1, y1, r1);
    var t3, r3, x3, y3 := Unroll(x2, y2, r2);
    AtEnd(r3);
    assert schedule == [t0, t1, t2, t3];
  }

  /** Four locked phases, one by one. */
  lemma FourPhases(pc: seq<nat>, t: seq<nat>)
    requires |t| == 4 && Enabled(pc, t[0]) && Enabled(Next(pc, t[0]), t[1])
    requires Enabled(Next(Next(pc, t[0]), t[1]), t[2]) && Enabled(Next(Next(Next(pc, t[0]), t[1]), t[2]), t[3])
    ensures Runs(pc, t)
    ensures var pc1 := Next(pc, t[0]); var pc2 := Next(pc1, t[1]); var pc3 := Next(pc2, t[2]);
            && EndPc(pc, t) == Next(pc3, t[3])
            && Events(pc, t) == [Event1(pc, t[0]), Event1(pc1, t[1]), Event1(pc2, t[2]), Event1(pc3, t[3])]
  {
    hide Enabled, Next, Event1;
    var pc1 := Next(pc, t[0]);
    var pc2 := Next(pc1, t[1]);
    var pc3 := Next(pc2, t[2]);
    assert t[1..][0] == t[1] && t[1..][1..] == t[2..] && t[2..][0] == t[2] && t[2..][1..] == t[3..];
    assert t[3..][0] == t[3] && t[3..][1..] == [];
    assert EndPc(Next(pc3, t[3]), []) == Next(pc3, t[3]);
    assert Runs(pc3, t[3..]) && EndPc(pc3, t[3..]) == Next(pc3, t[3]) && Events(pc3, t[3..]) == [Event1(pc3, t[3])];
    assert Runs(pc2, t[2..]) && EndPc(pc2, t[2..]) == EndPc(pc3, t[3..]);
    assert Runs(pc1, t[1..]) && EndPc(pc1, t[1..]) == EndPc(pc2, t[2..]);
    assert Runs(pc2, t[2..]) && Events(pc2, t[2..]) == [Event1(pc2, t[2])] + Events(pc3, t[3..]);
    assert Runs(pc1, t[1..]) && Events(pc1, t[1..]) == [Event1(pc1, t[1])] + Events(pc2, t[2..]);
  }

  lemma SequentialRun(c: Setting, entries: Entries, first: nat)
    requires |c.announces| == 2 && first <= 1
    ensures CompleteRun(c, entries, Sequential(first))
    ensures Events(NoneBegun(c), Sequential(first)) == [Off(first), On(first), Off(1 - first), On(1 - first)]
  {
    hide Runs, Exec, Events, EndPc;
    var pc := NoneBegun(c);
    FourPhases(pc, Sequential(first));
    ExecPc(c, State(entries, pc), Sequential(first));
  }

  lemma OverlappedRun(c: Setting, entries: Entries, off: nat, on: nat)
    requires |c.announces| == 2 && off <= 1 && on <= 1
    ensures CompleteRun(c, entries, Overlapped(off, on))
    ensures Events(NoneBegun(c), Overlapped(off, on)) == [Off(off), Off(1 - off), On(on), On(1 - on)]
  {
    hide Runs, Exec, Events, EndPc;
    var pc := NoneBegun(c);
    FourPhases(pc, Overlapped(off, on));
    ExecPc(c, State(entries, pc), Overlapped(off, on));
  }

  // ---------- What four phases leave ----------

  /** What one phase makes of one model's entry. */
  function Turned(c: Setting, e: Event, model: string, before: Option<Deactivation>): Option<Deactivation> {
    if TurnsOff(c, e, model) then Some(c.announces[e.task].d) else if TurnsOn(c, e, model) then None else before
  }

  lemma AfterFour(c: Setting, e: seq<Event>, model: string, before: Option<Deactivation>)
    requires |e| == 4
    ensures After(c, e, model, before)
            == Turned(c, e[3], model, Turned(c, e[2], model, Turned(c, e[1], model, Turned(c, e[0], model, before))))
  {
    hide TurnsOff, TurnsOn;
    assert e[1..][0] == e[1] && e[1..][1..] == e[2..] && e[2..][0] == e[2] && e[2..][1..] == e[3..];
    assert e[3..][0] == e[3] && e[3..][1..] == [];
    var x0 := Turned(c, e[0], model, before);
    var x1 := Turned(c, e[1], model, x0);
    var x2 := Turned(c, e[2], model, x1);
    assert After(c, e[3..], model, x2) == After(c, [], model, Turned(c, e[3], model, x2));
    assert After(c, e[2..], model, x1) == After(c, e[3..], model, x2);
    assert After(c, e[1..], model, x0) == After(c, e[2..], model, x1);
  }

  lemma FinalOfFour(c: Setting, entries: Entries, schedule: seq<nat>, e: seq<Event>, model: string)
    requires CompleteRun(c, entries, schedule) && e == Events(NoneBegun(c), schedule) && |e| == 4
    ensures Final(c, entries, schedule, model)
            == Turned(c, e[3], model, Turned(c, e[2], model, Turned(c, e[1], model,
                 Turned(c, e[0], model, Lookup(entries, c.provider, model)))))
  {
    hide Runs, Exec, Events, Lookup, TurnsOff, TurnsOn, Turned;
    ExecLookup(c, State(entries, NoneBegun(c)), schedule, model);
    AfterFour(c, e, model, Lookup(entries, c.provider, model));
  }

  /** One announce after the other: the second decides, but for models it does not concern. */
  lemma SequentialFinal(c: Setting, entries: Entries, first: nat, model: string)
    requires |c.announces| == 2 && first <= 1
    ensures CompleteRun(c, entries, Sequential(first))
    ensures Final(c, entries, Sequential(first), model)
            == if Lists(c, 1 - first, model) then None
               else if model in c.universe then Some(c.announces[1 - first].d)
               else if Lists(c, first, model) then None
               else Lookup(entries, c.provider, model)
  {
    hide Runs, Exec, Events, Lookup, CompleteRun, Final;
    SequentialRun(c, entries, first);
    FinalOfFour(c, entries, Sequential(first), [Off(first), On(first), Off(1 - first), On(1 - first)], model);
  }

  /** Two that overlap: whatever either lists is available; the rest carries the second deactivation. */
  lemma OverlappedFinal(c: Setting, entries: Entries, off: nat, on: nat, model: string)
    requires |c.announces| == 2 && off <= 1 && on <= 1
    ensures CompleteRun(c, entries, Overlapped(off, on))
    ensures Final(c, entries, Overlapped(off, on), model)
            == if Lists(c, 0, model) || Lists(c, 1, model) then None
               else if model in c.universe then Some(c.announces[1 - off].d)
               else Lookup(entries, c.provider, model)
  {
    hide Runs, Exec, Events, Lookup, CompleteRun, Final;
    OverlappedRun(c, entries, off, on);
    FinalOfFour(c, entries, Overlapped(off, on), [Off(off), Off(1 - off), On(on), On(1 - on)], model);
  }

  // ---------- Exactly when the overlap does not show ----------

  /** Two complete runs leave the same models available. */
  ghost predicate SameAvailability(c: Setting, entries: Entries, s: seq<nat>, t: seq<nat>)
    requires CompleteRun(c, entries, s) && CompleteRun(c, entries, t)
  {
    forall m :: Final(c, entries, s, m).None? <==> Final(c, entries, t, m).None?
  }

  /** An entry but for the instant it was set at, which the clock gives when the lock is held. */
  function Timeless(entry: Option<Deactivation>): Option<Deactivation> {
    if entry.Some? then Some(entry.value.(setAt := 0)) else None
  }

  /** Two complete runs leave the same entries for the provider, but for the instants they were set at. */
  ghost predicate SameEntries(c: Setting, entries: Entries, s: seq<nat>, t: seq<nat>)
    requires CompleteRun(c, entries, s) && CompleteRun(c, entries, t)
  {
    forall m :: Timeless(Final(c, entries, s, m)) == Timeless(Final(c, entries, t, m))
  }

  /** Some order of the two, one after the other, leaves the same models available. */
  ghost predicate AvailabilityOfSomeOrder(c: Setting, entries: Entries, schedule: seq<nat>)
    requires |c.announces| == 2 && CompleteRun(c, entries, schedule)
  {
    SequentialRun(c, entries, 0);
    SequentialRun(c, entries, 1);
    || SameAvailability(c, entries, schedule, Sequential(0))
    || SameAvailability(c, entries, schedule, Sequential(1))
  }

  ghost predicate EntriesOfSomeOrder(c: Setting, entries: Entries, schedule: seq<nat>)
    requires |c.announces| == 2 && CompleteRun(c, entries, schedule)
  {
    SequentialRun(c, entries, 0);
    SequentialRun(c, entries, 1);
    SameEntries(c, entries, schedule, Sequential(0)) || SameEntries(c, entries, schedule, Sequential(1))
  }

  /** Within the universe, announce `first` lists nothing that the other does not. */
  predicate Within(c: Setting, first: nat)
    requires |c.announces| == 2 && first <= 1
  {
    Below(c, first, 1 - first)
  }

  /** Some model of the universe is listed by neither announce. */
  predicate LeavesOut(c: Setting)
    requires |c.announces| == 2
  {
    exists m <- c.universe :: !Lists(c, 0, m) && !Lists(c, 1, m)
  }

  /** Announce `first` alone lists the model, which is of the universe. */
  predicate Alone(c: Setting, first: nat, model: string)
    requires |c.announces| == 2 && first <= 1
  {
    model in c.universe && Lists(c, first, model) && !Lists(c, 1 - first, model)
  }

  predicate Neither(c: Setting, model: string)
    requires |c.announces| == 2
  {
    model in c.universe && !Lists(c, 0, model) && !Lists(c, 1, model)
  }

  /** One model, in an overlapped and in a sequential run. */
  lemma AgreeAt(c: Setting, entries: Entries, off: nat, on: nat, first: nat, model: string)
    requires |c.announces| == 2 && off <= 1 && on <= 1 && first <= 1
    ensures CompleteRun(c, entries, Overlapped(off, on)) && CompleteRun(c, entries, Sequential(first))
    ensures var x, y := Final(c, entries, Overlapped(off, on), model), Final(c, entries, Sequential(first), model);
            && ((x.None? <==> y.None?) <==> !Alone(c, first, model))
            && (Timeless(x) == Timeless(y) <==>
                  && !Alone(c, first, model)
                  && (Neither(c, model) ==>
                        Timeless(Some(c.announces[1 - off].d)) == Timeless(Some(c.announces[1 - first].d))))
  {
    hide CompleteRun, Final, Lookup, Lists;
    OverlappedFinal(c, entries, off, on, model);
    SequentialFinal(c, entries, first, model);
  }

  lemma OverlapAgainst(c: Setting, entries: Entries, off: nat, on: nat, first: nat)
    requires |c.announces| == 2 && off <= 1 && on <= 1 && first <= 1
    ensures CompleteRun(c, entries, Overlapped(off, on)) && CompleteRun(c, entries, Sequential(first))
    ensures SameAvailability(c, entries, Overlapped(off, on), Sequential(first)) <==> Within(c, first)
    ensures SameEntries(c, entries, Overlapped(off, on), Sequential(first)) <==>
              Within(c, first)
              && (LeavesOut(c) ==> Timeless(Some(c.announces[1 - off].d)) == Timeless(Some(c.announces[1 - first].d)))
  {
    hide CompleteRun, Final, Timeless, Alone, Neither, Within, LeavesOut;
    OverlappedRun(c, entries, off, on);
    SequentialRun(c, entries, first);
    forall m
      ensures var x, y := Final(c, entries, Overlapped(off, on), m), Final(c, entries, Sequential(first), m);
              && ((x.None? <==> y.None?) <==> !Alone(c, first, m))
              && (Timeless(x) == Timeless(y) <==>
                    && !Alone(c, first, m)
                    && (Neither(c, m) ==>
                          Timeless(Some(c.announces[1 - off].d)) == Timeless(Some(c.announces[1 - first].d))))
    {
      AgreeAt(c, entries, off, on, first, m);
    }
    WithinAlone(c, first);
  }

  lemma WithinAlone(c: Setting, first: nat)
    requires |c.announces| == 2 && first <= 1
    ensures Within(c, first) <==> forall m: string :: !Alone(c, first, m)
    ensures LeavesOut(c) <==> exists m: string :: Neither(c, m)
  {
    hide Lists;
    if LeavesOut(c) {
      var m :| m in c.universe && !Lists(c, 0, m) && !Lists(c, 1, m);
      assert Neither(c, m);
    }
    if forall m: string :: !Alone(c, first, m) {
      forall m <- c.universe | Lists(c, first, m)
        ensures Lists(c, 1 - first, m)
      {
        assert !Alone(c, first, m);
      }
    }
  }

  /**
   Every interleaving of two announces leaves the models available that one order of the two would,
   if and only if they do not overlap, or within the universe one active set contains the other.
   */
  lemma OverlapExact(c: Setting, entries: Entries, schedule: seq<nat>)
    requires |c.announces| == 2 && CompleteRun(c, entries, schedule)
    ensures |schedule| == 4
    ensures AvailabilityOfSomeOrder(c, entries, schedule)
            <==> schedule[0] == schedule[1] || Within(c, 0) || Within(c, 1)
  {
    hide CompleteRun, SameAvailability, SameEntries, Within, LeavesOut;
    FourSteps(c, entries, schedule);
    OverlapAgainst(c, entries, schedule[0], schedule[2], 0);
    OverlapAgainst(c, entries, schedule[0], schedule[2], 1);
    SameAsItself(c, entries, schedule);
  }

  /**
   The same for the entries, but for the instants they were set at: besides, the models that neither
   announce lists must carry the deactivation of the one that comes second in that order.
   */
  lemma OverlapEntriesExact(c: Setting, entries: Entries, schedule: seq<nat>)
    requires |c.announces| == 2 && CompleteRun(c, entries, schedule)
    ensures |schedule| == 4 && schedule[0] <= 1
    ensures EntriesOfSomeOrder(c, entries, schedule)
            <==> || schedule[0] == schedule[1]
                 || Within(c, schedule[0])
                 || (Within(c, 1 - schedule[0])
                     && (LeavesOut(c) ==> Timeless(Some(c.announces[0].d)) == Timeless(Some(c.announces[1].d))))
  {
    hide CompleteRun, SameAvailability, SameEntries, Within, LeavesOut;
    FourSteps(c, entries, schedule);
    OverlapAgainst(c, entries, schedule[0], schedule[2], schedule[0]);
    OverlapAgainst(c, entries, schedule[0], schedule[2], 1 - schedule[0]);
    SameAsItself(c, entries, schedule);
  }

  lemma SameAsItself(c: Setting, entries: Entries, schedule: seq<nat>)
    requires CompleteRun(c, entries, schedule)
    ensures SameAvailability(c, entries, schedule, schedule) && SameEntries(c, entries, schedule, schedule)
  {
  }

  /** Two announces, one listing "a" and one listing "b", are such a pair. */
  function Crossed(d: Deactivation): Setting {
    Setting("p", ["a", "b"], [Announce(["a"], d), Announce(["b"], d)])
  }

  /** Phase by phase, they leave both models available, which neither order does. */
  lemma AnnouncesAreNotAtomic(d: Deactivation)
    ensures var c, schedule := Crossed(d), Overlapped(0, 0);
            && CompleteRun(c, map[], schedule) && !AvailabilityOfSomeOrder(c, map[], schedule)
            && Final(c, map[], schedule, "a").None? && Final(c, map[], schedule, "b").None?
  {
    hide CompleteRun, AvailabilityOfSomeOrder, Final;
    var c := Crossed(d);
    assert "a"[0] != "b"[0] && "a" in c.universe && "b" in c.universe;
    assert Lists(c, 0, "a") && !Lists(c, 1, "a") && Lists(c, 1, "b") && !Lists(c, 0, "b");
    OverlappedFinal(c, map[], 0, 0, "a");
    OverlappedFinal(c, map[], 0, 0, "b");
    OverlapExact(c, map[], Overlapped(0, 0));
  }
}
