/**
 Any number of announces whose active sets form a chain: however they interleave, what is available in
 the end is what one of them listed.
 */
module AnnounceChain {
  import opened Wrappers
  import opened AvailabilityStore
  import opened ConcurrentAnnounces

  predicate Chain(c: Setting) {
    forall i, j | 0 <= i < |c.announces| && 0 <= j < |c.announces| :: Below(c, i, j) || Below(c, j, i)
  }

  ghost predicate Available(c: Setting, entries: Entries, schedule: seq<nat>, model: string)
    requires CompleteRun(c, entries, schedule)
  {
    Final(c, entries, schedule, model).None?
  }

  /** Everything that announce `i` lists in the universe is available in the end. */
  ghost predicate Served(c: Setting, entries: Entries, schedule: seq<nat>, i: nat)
    requires CompleteRun(c, entries, schedule) && i < |c.announces|
  {
    forall m <- c.universe :: Lists(c, i, m) ==> Available(c, entries, schedule, m)
  }

  /** The smallest of the first `n` active sets that list the model, if there is one. */
  lemma {:induction false} SmallestListing(c: Setting, model: string, n: nat) returns (found: Option<nat>)
    requires Chain(c) && n <= |c.announces|
    ensures found.None? ==> forall j | 0 <= j < n :: !Lists(c, j, model)
    ensures found.Some? ==>
              && found.value < n && Lists(c, found.value, model)
              && forall j | 0 <= j < n && Lists(c, j, model) :: Below(c, found.value, j)
    decreases n
  {
    if n == 0 {
      found := None;
    } else {
      found := SmallestListing(c, model, n - 1);
      if Lists(c, n - 1, model) && (found.None? || !Below(c, found.value, n - 1)) {
        if found.Some? {
          forall j | 0 <= j < n && Lists(c, j, model)
            ensures Below(c, n - 1, j)
          {
            assert Below(c, n - 1, found.value) && Below(c, n - 1, n - 1);
          }
        }
        found := Some(n - 1);
      }
    }
  }

  /** The largest of the first `n` active sets that are all available, if there is one. */
  lemma {:induction false} LargestServed(c: Setting, entries: Entries, schedule: seq<nat>, n: nat)
      returns (found: Option<nat>)
    requires CompleteRun(c, entries, schedule) && Chain(c) && n <= |c.announces|
    ensures found.None? ==> forall j | 0 <= j < n :: !Served(c, entries, schedule, j)
    ensures found.Some? ==>
              && found.value < n && Served(c, entries, schedule, found.value)
              && forall j | 0 <= j < n && Served(c, entries, schedule, j) :: Below(c, j, found.value)
    decreases n
  {
    hide CompleteRun, Served;
    if n == 0 {
      found := None;
    } else {
      found := LargestServed(c, entries, schedule, n - 1);
      if Served(c, entries, schedule, n - 1) && (found.None? || !Below(c, n - 1, found.value)) {
        if found.Some? {
          forall j | 0 <= j < n && Served(c, entries, schedule, j)
            ensures Below(c, j, n - 1)
          {
            assert Below(c, found.value, n - 1) && Below(c, n - 1, n - 1);
          }
        }
        found := Some(n - 1);
      }
    }
  }

  /** With a model that is available, so is all that the smallest active set listing it lists. */
  lemma AvailableWithSmallest(c: Setting, entries: Entries, schedule: seq<nat>, model: string, t: nat)
    requires CompleteRun(c, entries, schedule) && Chain(c)
    requires model in c.universe && Available(c, entries, schedule, model)
    requires t < |c.announces| && Lists(c, t, model)
    requires forall j | 0 <= j < |c.announces| && Lists(c, j, model) :: Below(c, t, j)
    ensures Served(c, entries, schedule, t)
  {
    hide Final, Exec, Events, Runs;
    var events := Events(NoneBegun(c), schedule);
    AvailabilityExact(c, entries, schedule, model);
    var k: nat :| LeavesOn(c, events, k, model);
    forall other <- c.universe | Lists(c, t, other)
      ensures Available(c, entries, schedule, other)
    {
      StaysOn(c, events, k, model, other, t);
      AvailabilityExact(c, entries, schedule, other);
    }
  }

  lemma StaysOn(c: Setting, events: seq<Event>, k: nat, model: string, other: string, t: nat)
    requires Chain(c) && model in c.universe && other in c.universe && LeavesOn(c, events, k, model)
    requires t < |c.announces| && Lists(c, t, model) && Lists(c, t, other)
    requires forall j | 0 <= j < |c.announces| && Lists(c, j, model) :: Below(c, t, j)
    ensures LeavesOn(c, events, k, other)
  {
    assert Lists(c, events[k].task, model) && Below(c, t, events[k].task);
    assert Lists(c, events[k].task, other);
    forall j | k < j < |events|
      ensures !TurnsOff(c, events[j], other)
    {
      if TurnsOff(c, events[j], other) {
        OffOfBoth(c, events[j], model, other, t);
      }
    }
  }

  lemma OffOfBoth(c: Setting, e: Event, model: string, other: string, t: nat)
    requires model in c.universe && other in c.universe && TurnsOff(c, e, other)
    requires t < |c.announces| && Lists(c, t, other)
    requires forall j | 0 <= j < |c.announces| && Lists(c, j, model) :: Below(c, t, j)
    ensures TurnsOff(c, e, model)
  {
    if Lists(c, e.task, model) {
      BelowLists(c, t, e.task, other);
    }
  }

  /**
   Any number of announces: if within the universe their active sets form a chain, every interleaving
   leaves exactly the active set of one of them available.
   */
  lemma ChainEndsAsOne(c: Setting, entries: Entries, schedule: seq<nat>) returns (i: nat)
    requires CompleteRun(c, entries, schedule) && Chain(c)
    ensures i < |c.announces|
    ensures forall m <- c.universe :: Final(c, entries, schedule, m).None? <==> Lists(c, i, m)
  {
    hide CompleteRun, Final, Below;
    var last := LastServed(c, entries, schedule);
    var found := LargestServed(c, entries, schedule, |c.announces|);
    i := found.value;
    forall m <- c.universe | Available(c, entries, schedule, m)
      ensures Lists(c, i, m)
    {
      var t := AvailableIsListed(c, entries, schedule, m);
      AvailableWithSmallest(c, entries, schedule, m, t);
      BelowLists(c, t, i, m);
    }
  }

  lemma BelowLists(c: Setting, i: nat, j: nat, model: string)
    requires i < |c.announces| && j < |c.announces| && Below(c, i, j) && model in c.universe && Lists(c, i, model)
    ensures Lists(c, j, model)
  {
  }

  /** The last finisher's active set is served. */
  lemma LastServed(c: Setting, entries: Entries, schedule: seq<nat>) returns (i: nat)
    requires CompleteRun(c, entries, schedule)
    ensures i < |c.announces| && Served(c, entries, schedule, i)
  {
    hide CompleteRun, Final;
    LastEventIsOn(c, entries, schedule);
    i := LastFinisher(schedule);
    forall m <- c.universe | Lists(c, i, m)
      ensures Available(c, entries, schedule, m)
    {
      AnnouncesConverge(c, entries, schedule, m);
    }
  }

  lemma AvailableIsListed(c: Setting, entries: Entries, schedule: seq<nat>, model: string) returns (t: nat)
    requires CompleteRun(c, entries, schedule) && Chain(c)
    requires model in c.universe && Available(c, entries, schedule, model)
    ensures t < |c.announces| && Lists(c, t, model)
    ensures forall j | 0 <= j < |c.announces| && Lists(c, j, model) :: Below(c, t, j)
  {
    hide Final, Exec, Events, Runs, Below;
    AvailabilityExact(c, entries, schedule, model);
    var events := Events(NoneBegun(c), schedule);
    var k: nat :| LeavesOn(c, events, k, model);
    assert Lists(c, events[k].task, model);
    var found := SmallestListing(c, model, |c.announces|);
    t := found.value;
  }

  // ---------- One after the other ----------

  /** Both phases of each announce in turn. */
  function InTurn(order: seq<nat>): seq<nat> {
    if order == [] then [] else [order[0], order[0]] + InTurn(order[1..])
  }

  /** The announces below `n` but for `i`. */
  function Others(n: nat, i: nat): seq<nat> {
    if n == 0 then [] else Others(n - 1, i) + (if n - 1 == i then [] else [n - 1])
  }

  /** All announces one after the other, `i` last. */
  function LastIs(c: Setting, i: nat): seq<nat> { InTurn(Others(|c.announces|, i) + [i]) }

  lemma {:induction false} OthersListed(n: nat, i: nat)
    ensures forall t: nat :: t in Others(n, i) <==> t < n && t != i
    ensures forall j, k | 0 <= j < k < |Others(n, i)| :: Others(n, i)[j] != Others(n, i)[k]
    decreases n
  {
    if n > 0 {
      OthersListed(n - 1, i);
      var o := Others(n, i);
      forall j, k | 0 <= j < k < |o|
        ensures o[j] != o[k]
      {
        assert k == |Others(n - 1, i)| ==> o[j] in Others(n - 1, i);
      }
    }
  }

  lemma {:induction false} InTurnRuns(pc: seq<nat>, order: seq<nat>)
    requires (forall t <- order :: t < |pc| && pc[t] == 0) && forall j, k | 0 <= j < k < |order| :: order[j] != order[k]
    ensures Runs(pc, InTurn(order)) && |EndPc(pc, InTurn(order))| == |pc|
    ensures forall t | 0 <= t < |pc| :: EndPc(pc, InTurn(order))[t] == if t in order then 2 else pc[t]
    decreases |order|
  {
    if order != [] {
      var t, rest := order[0], order[1..];
      assert t in order;
      var pc1 := Next(pc, t);
      var pc2 := Next(pc1, t);
      assert forall x <- rest :: x in order;
      assert t !in rest;
      InTurnRuns(pc2, rest);
      var s := InTurn(order);
      assert s == [t] + ([t] + InTurn(rest)) && s[1..] == [t] + InTurn(rest) && s[1..][1..] == InTurn(rest);
      TwoSteps(pc, t, InTurn(rest));
      assert forall x :: x in order <==> x == t || x in rest;
    }
  }

  lemma TwoSteps(pc: seq<nat>, t: nat, schedule: seq<nat>)
    requires t < |pc| && pc[t] == 0 && Runs(Next(Next(pc, t), t), schedule)
    ensures Runs(pc, [t] + ([t] + schedule))
    ensures EndPc(pc, [t] + ([t] + schedule)) == EndPc(Next(Next(pc, t), t), schedule)
  {
    var s := [t] + ([t] + schedule);
    assert s[1..] == [t] + schedule && s[1..][1..] == schedule;
  }

  /** Such a schedule is a complete run, and its last two phases are those of `i`. */
  lemma LastIsRun(c: Setting, entries: Entries, i: nat)
    requires i < |c.announces|
    ensures CompleteRun(c, entries, LastIs(c, i))
    ensures var s := LastIs(c, i); |s| >= 2 && s[|s| - 2] == s[|s| - 1] == i
  {
    hide Runs, Exec, EndPc, InTurn;
    var order := Others(|c.announces|, i) + [i];
    OthersListed(|c.announces|, i);
    OrderDistinct(|c.announces|, i);
    assert forall t <- order :: t in Others(|c.announces|, i) || t == i;
    assert forall t | 0 <= t < |c.announces| :: t in order && NoneBegun(c)[t] == 0;
    InTurnRuns(NoneBegun(c), order);
    ExecPc(c, State(entries, NoneBegun(c)), LastIs(c, i));
    InTurnEnds(Others(|c.announces|, i), i);
  }

  lemma OrderDistinct(n: nat, i: nat)
    ensures var order := Others(n, i) + [i]; forall j, k | 0 <= j < k < |order| :: order[j] != order[k]
  {
    OthersListed(n, i);
    var order := Others(n, i) + [i];
    forall j, k | 0 <= j < k < |order|
      ensures order[j] != order[k]
    {
      assert order[j] in Others(n, i);
    }
  }

  lemma {:induction false} InTurnEnds(order: seq<nat>, i: nat)
    ensures var s := InTurn(order + [i]); |s| >= 2 && s[|s| - 2] == s[|s| - 1] == i
    decreases |order|
  {
    if order == [] {
      assert order + [i] == [i];
      assert InTurn([i]) == [i, i] + InTurn([]);
    } else {
      assert (order + [i])[1..] == order[1..] + [i];
      InTurnEnds(order[1..], i);
    }
  }

  // ---------- What runs leave of a model outside the universe ----------

  /** Outside the universe nothing is deactivated: what some announce lists is available. */
  lemma OutsideUniverse(c: Setting, entries: Entries, schedule: seq<nat>, model: string)
    requires CompleteRun(c, entries, schedule) && model !in c.universe
    ensures Final(c, entries, schedule, model).None?
            <==> (exists t: nat | t < |c.announces| :: Lists(c, t, model)) || Lookup(entries, c.provider, model).None?
  {
    hide Runs, Exec, Events, Lookup;
    var pc := NoneBegun(c);
    var events := Events(pc, schedule);
    ExecLookup(c, State(entries, pc), schedule, model);
    AfterExact(c, events, model, Lookup(entries, c.provider, model));
    ExecPc(c, State(entries, pc), schedule);
    if t: nat :| t < |c.announces| && Lists(c, t, model) {
      AllPhasesHappen(pc, schedule, t);
      var k :| 0 <= k < |events| && events[k] == On(t);
      assert LeavesOn(c, events, k, model);
    }
    if k: nat :| LeavesOn(c, events, k, model) {
      assert Lists(c, events[k].task, model);
    }
  }

  /** Where the last two phases are those of one announce, within the universe it alone decides. */
  lemma LastDecides(c: Setting, entries: Entries, schedule: seq<nat>, i: nat, model: string)
    requires CompleteRun(c, entries, schedule) && i < |c.announces| && model in c.universe
    requires |schedule| >= 2 && schedule[|schedule| - 2] == schedule[|schedule| - 1] == i
    ensures Final(c, entries, schedule, model).None? <==> Lists(c, i, model)
  {
    hide Runs, Exec, Events, Lookup;
    if Lists(c, i, model) {
      AnnouncesConverge(c, entries, schedule, model);
    } else {
      var events := Events(NoneBegun(c), schedule);
      LastTwoEvents(c, entries, schedule, i);
      AvailabilityExact(c, entries, schedule, model);
      var off := |schedule| - 2;
      assert TurnsOff(c, events[off], model);
      forall k: nat
        ensures !LeavesOn(c, events, k, model)
      {
        TurnsOneWay(c, events[off], model);
        assert !TurnsOn(c, events[|schedule| - 1], model);
      }
    }
  }

  lemma LastTwoEvents(c: Setting, entries: Entries, schedule: seq<nat>, i: nat)
    requires CompleteRun(c, entries, schedule)
    requires |schedule| >= 2 && schedule[|schedule| - 2] == schedule[|schedule| - 1] == i
    ensures i < |c.announces|
    ensures var events := Events(NoneBegun(c), schedule);
            events[|schedule| - 2] == Off(i) && events[|schedule| - 1] == On(i)
  {
    hide Exec;
    var pc := NoneBegun(c);
    ExecPc(c, State(entries, pc), schedule);
    LastEventIsOn(c, entries, schedule);
    EventsEndOffOn(pc, schedule, i);
  }

  /** Two phases of one announce in a row at the end are its first and its second. */
  lemma {:induction false} EventsEndOffOn(pc: seq<nat>, schedule: seq<nat>, i: nat)
    requires Fits(pc, |pc|) && Runs(pc, schedule) && |schedule| >= 2
    requires schedule[|schedule| - 2] == schedule[|schedule| - 1] == i
    ensures Events(pc, schedule)[|schedule| - 2] == Off(i)
    decreases |schedule|
  {
    if |schedule| > 2 {
      var rest := schedule[1..];
      assert rest[|rest| - 2] == rest[|rest| - 1] == i;
      EventsEndOffOn(Next(pc, schedule[0]), rest, i);
      assert Events(pc, schedule)[|schedule| - 2] == Events(Next(pc, schedule[0]), rest)[|rest| - 2];
    } else {
      assert schedule[1..][0] == schedule[1] && Enabled(Next(pc, schedule[0]), schedule[1]);
    }
  }

  /**
   Any number of announces: if within the universe their active sets form a chain, every interleaving
   leaves the same models available, in the universe and outside, as one after the other would, with
   one of them last.
   */
  lemma ChainEndsAsSequence(c: Setting, entries: Entries, schedule: seq<nat>) returns (i: nat)
    requires CompleteRun(c, entries, schedule) && Chain(c)
    ensures i < |c.announces| && CompleteRun(c, entries, LastIs(c, i))
    ensures forall m :: Final(c, entries, schedule, m).None? <==> Final(c, entries, LastIs(c, i), m).None?
  {
    hide CompleteRun, Final, LastIs, Lists, Chain, Lookup;
    i := ChainEndsAsOne(c, entries, schedule);
    LastIsRun(c, entries, i);
    forall m
      ensures Final(c, entries, schedule, m).None? <==> Final(c, entries, LastIs(c, i), m).None?
    {
      if m in c.universe {
        LastDecides(c, entries, LastIs(c, i), i, m);
      } else {
        OutsideUniverse(c, entries, schedule, m);
        OutsideUniverse(c, entries, LastIs(c, i), m);
      }
    }
  }
}
