/**
 The sliding window that throttles device claims. Instants are nanoseconds of a monotonic clock that
 is read while the deque is locked, so the readings of a run never decrease.
 */
module ClaimWindow {

  const CLAIMS_PER_MINUTE := 60
  const WINDOW := 60_000_000_000

  /** `saturating_duration_since`. */
  function Since(now: nat, at: nat): nat { if at <= now then now - at else 0 }

  /** The deque once the expired claims in front are popped. */
  function Popped(claims: seq<nat>, now: nat): seq<nat> {
    if claims != [] && Since(now, claims[0]) >= WINDOW then Popped(claims[1..], now) else claims
  }

  function Claimed(claims: seq<nat>, now: nat): seq<nat> {
    var live := Popped(claims, now);
    if |live| >= CLAIMS_PER_MINUTE then live else live + [now]
  }

  /** The deque after a run of calls at the given readings of the clock. */
  function Deque(clocks: seq<nat>): seq<nat> {
    if clocks == [] then [] else Claimed(Deque(clocks[..|clocks| - 1]), clocks[|clocks| - 1])
  }

  class Claims {
    var claims: seq<nat>
    ghost var clocks: seq<nat>

    ghost predicate Valid()
      reads this
    {
      claims == Deque(clocks)
    }

    constructor ()
      ensures Valid() && clocks == []
    {
      claims, clocks := [], [];
    }

    /** The critical section of `redeem`: whether the claim goes through. */
    method Redeem(now: nat) returns (allowed: bool)
      requires Valid()
      modifies this
      ensures Valid() && clocks == old(clocks) + [now]
      ensures Nondecreasing(clocks) ==> (allowed <==> Admits(Admitted(old(clocks)), now))
      // In nanoseconds: the sixtieth admitted claim before this one is at least a minute old.
      ensures Nondecreasing(clocks) ==>
                var admitted := Admitted(old(clocks));
                allowed <==> |admitted| < 60 || admitted[|admitted| - 60] + 60_000_000_000 <= now
    {
      hide Admits, Nondecreasing, Admitted;
      while claims != [] && Since(now, claims[0]) >= WINDOW
        invariant Popped(claims, now) == Popped(old(claims), now) && clocks == old(clocks)
        decreases |claims|
      {
        claims := claims[1..];
      }
      allowed := |claims| < CLAIMS_PER_MINUTE;
      clocks := clocks + [now];
      assert clocks[..|clocks| - 1] == old(clocks);
      if allowed {
        claims := claims + [now];
      }
      if Nondecreasing(clocks) {
        AdmissionExact(old(clocks), now);
        SixtiethBack(old(clocks), now);
      }
    }
  }

  // ---------- What a run admits ----------

  predicate Nondecreasing(clocks: seq<nat>) { forall i, j | 0 <= i < j < |clocks| :: clocks[i] <= clocks[j] }

  /** How many of the instants lie in the half-open window that starts at `from`. */
  function InWindow(instants: seq<nat>, from: int): nat {
    if instants == [] then 0
    else (if from <= instants[0] < from + WINDOW then 1 else 0) + InWindow(instants[1..], from)
  }

  /** Fewer than 60 claims were admitted in the 60 seconds up to and including `now`. */
  predicate Admits(admitted: seq<nat>, now: nat) { InWindow(admitted, now - WINDOW + 1) < CLAIMS_PER_MINUTE }

  /** The instants of the claims admitted in a run, by that rule alone. */
  function Admitted(clocks: seq<nat>): seq<nat> {
    if clocks == [] then []
    else
      var before, now := Admitted(clocks[..|clocks| - 1]), clocks[|clocks| - 1];
      if Admits(before, now) then before + [now] else before
  }

  // ---------- The deque holds what it needs ----------

  lemma {:induction false} InWindowConcat(a: seq<nat>, b: seq<nat>, from: int)
    ensures InWindow(a + b, from) == InWindow(a, from) + InWindow(b, from)
    decreases |a|
  {
    if a == [] {
      assert a + b == b;
    } else {
      assert (a + b)[1..] == a[1..] + b;
      InWindowConcat(a[1..], b, from);
    }
  }

  lemma {:induction false} InWindowAll(a: seq<nat>, from: int)
    requires forall i | 0 <= i < |a| :: from <= a[i] < from + WINDOW
    ensures InWindow(a, from) == |a|
    decreases |a|
  {
    if a != [] {
      InWindowAll(a[1..], from);
    }
  }

  lemma {:induction false} InWindowNone(a: seq<nat>, from: int)
    requires forall i | 0 <= i < |a| :: a[i] < from
    ensures InWindow(a, from) == 0
    decreases |a|
  {
    if a != [] {
      InWindowNone(a[1..], from);
    }
  }

  lemma {:induction false} PoppedSplit(claims: seq<nat>, now: nat)
    requires Nondecreasing(claims) && forall i | 0 <= i < |claims| :: claims[i] <= now
    ensures exists k: nat :: IsSplit(claims, now, k)
    decreases |claims|
  {
    if claims != [] && Since(now, claims[0]) >= WINDOW {
      PoppedSplit(claims[1..], now);
      var k: nat :| IsSplit(claims[1..], now, k);
      assert claims[1..][k..] == claims[k + 1..];
      assert forall i | 0 < i < k + 1 :: claims[i] == claims[1..][i - 1];
      assert IsSplit(claims, now, k + 1);
    } else {
      assert claims[0..] == claims;
      assert IsSplit(claims, now, 0);
    }
  }

  /** Popping drops the first `k` claims, which are those out of the window that ends at `now`. */
  predicate IsSplit(claims: seq<nat>, now: nat, k: nat) {
    k <= |claims| && Popped(claims, now) == claims[k..]
    && (forall i | 0 <= i < k :: claims[i] + WINDOW <= now)
    && (forall i | k <= i < |claims| :: now < claims[i] + WINDOW)
  }

  /** The admitted instants are a rising list; the deque is its end, and only expired ones precede it. */
  ghost predicate IsTail(clocks: seq<nat>, gone: seq<nat>) {
    var now := if clocks == [] then 0 else clocks[|clocks| - 1];
    Admitted(clocks) == gone + Deque(clocks) && Nondecreasing(Admitted(clocks))
    && (forall at <- Admitted(clocks) :: at <= now) && (forall at <- gone :: at + WINDOW <= now)
  }

  lemma {:induction false} DequeIsTail(clocks: seq<nat>) returns (gone: seq<nat>)
    requires Nondecreasing(clocks)
    ensures IsTail(clocks, gone)
    decreases |clocks|
  {
    if clocks == [] {
      gone := [];
    } else {
      var before, now := clocks[..|clocks| - 1], clocks[|clocks| - 1];
      var earlier := DequeIsTail(before);
      gone := DequeStep(before, now, earlier);
      assert clocks == before + [now];
    }
  }

  lemma DequeStep(before: seq<nat>, now: nat, earlier: seq<nat>) returns (gone: seq<nat>)
    requires Nondecreasing(before + [now]) && IsTail(before, earlier)
    ensures IsTail(before + [now], gone)
    ensures Admits(Admitted(before), now) <==> |Popped(Deque(before), now)| < CLAIMS_PER_MINUTE
  {
    hide Admitted, Deque, Popped, InWindow, Nondecreasing;
    var deque, log := Deque(before), Admitted(before);
    LastReading(before, now);
    LogIsBefore(log, earlier, deque, now);
    PoppedSplit(deque, now);
    var k: nat :| IsSplit(deque, now, k);
    gone := TailStep(log, earlier, deque, now, k);
    OneMoreCall(before, now);
  }

  lemma LastReading(before: seq<nat>, now: nat)
    requires Nondecreasing(before + [now])
    ensures before != [] ==> before[|before| - 1] <= now
  {
    var clocks := before + [now];
    assert before != [] ==> clocks[|before| - 1] <= clocks[|before|];
  }

  lemma OneMoreCall(before: seq<nat>, now: nat)
    ensures Deque(before + [now]) == Claimed(Deque(before), now)
    ensures Admitted(before + [now])
            == if Admits(Admitted(before), now) then Admitted(before) + [now] else Admitted(before)
  {
    assert (before + [now])[..|before|] == before;
  }

  lemma TailStep(log: seq<nat>, earlier: seq<nat>, deque: seq<nat>, now: nat, k: nat) returns (gone: seq<nat>)
    requires log == earlier + deque && k <= |deque|
    requires forall at <- earlier :: at + WINDOW <= now
    requires forall i | 0 <= i < |deque| :: deque[i] <= now && (i < k <==> deque[i] + WINDOW <= now)
    ensures log == gone + deque[k..] && log + [now] == gone + (deque[k..] + [now])
    ensures (forall at <- gone :: at + WINDOW <= now)
    ensures InWindow(log, now - WINDOW + 1) == |deque[k..]|
  {
    gone := earlier + deque[..k];
    assert deque == deque[..k] + deque[k..];
    assert log == gone + deque[k..];
    assert log + [now] == gone + (deque[k..] + [now]);
    WindowOfSplit(gone, deque[k..], now);
  }

  lemma LogIsBefore(log: seq<nat>, earlier: seq<nat>, deque: seq<nat>, now: nat)
    requires log == earlier + deque && Nondecreasing(log) && forall at <- log :: at <= now
    ensures Nondecreasing(log + [now]) && Nondecreasing(deque) && forall i | 0 <= i < |deque| :: deque[i] <= now
  {
    forall i | 0 <= i < |deque|
      ensures deque[i] == log[|earlier| + i] && deque[i] <= now
    {
      assert log[|earlier| + i] in log;
    }
    assert forall i | 0 <= i < |log| :: log[i] in log;
  }

  lemma WindowOfSplit(gone: seq<nat>, live: seq<nat>, now: nat)
    requires forall at <- gone :: at + WINDOW <= now
    requires forall i | 0 <= i < |live| :: live[i] <= now < live[i] + WINDOW
    ensures InWindow(gone + live, now - WINDOW + 1) == |live|
  {
    InWindowConcat(gone, live, now - WINDOW + 1);
    assert forall i | 0 <= i < |gone| :: gone[i] in gone;
    InWindowNone(gone, now - WINDOW + 1);
    InWindowAll(live, now - WINDOW + 1);
  }

  // ---------- The theorems ----------

  /** The call at `now` admits exactly when fewer than 60 were admitted in the 60 seconds before. */
  lemma AdmissionExact(clocks: seq<nat>, now: nat)
    requires Nondecreasing(clocks + [now])
    ensures |Popped(Deque(clocks), now)| < CLAIMS_PER_MINUTE <==> Admits(Admitted(clocks), now)
  {
    hide Admits, Popped, Deque, Admitted, IsTail;
    assert (clocks + [now])[..|clocks|] == clocks;
    assert Nondecreasing(clocks) by {
      assert forall i | 0 <= i < |clocks| :: clocks[i] == (clocks + [now])[i];
    }
    var earlier := DequeIsTail(clocks);
    var gone := DequeStep(clocks, now, earlier);
  }

  /** No window of 60 seconds, wherever it starts, holds more than 60 admitted claims. */
  lemma {:induction false} WindowBound(clocks: seq<nat>, from: int)
    requires Nondecreasing(clocks)
    ensures InWindow(Admitted(clocks), from) <= CLAIMS_PER_MINUTE
    decreases |clocks|
  {
    if clocks != [] {
      var before, now := clocks[..|clocks| - 1], clocks[|clocks| - 1];
      WindowBound(before, from);
      if Admits(Admitted(before), now) {
        InWindowConcat(Admitted(before), [now], from);
        if from <= now < from + WINDOW {
          var gone := DequeIsTail(before);
          assert before != [] ==> before[|before| - 1] <= now;
          WindowShrinks(Admitted(before), from, now);
        }
      }
    }
  }

  /** Up to `now`, a window that holds `now` sees no more than the one that ends there. */
  lemma {:induction false} WindowShrinks(instants: seq<nat>, from: int, now: nat)
    requires from <= now < from + WINDOW && forall at <- instants :: at <= now
    ensures InWindow(instants, from) <= InWindow(instants, now - WINDOW + 1)
    decreases |instants|
  {
    if instants != [] {
      assert instants[0] in instants && forall at <- instants[1..] :: at in instants;
      WindowShrinks(instants[1..], from, now);
    }
  }

  /** The deque never holds more than 60 instants, whatever the clock does. */
  lemma {:induction false} DequeBound(clocks: seq<nat>)
    ensures |Deque(clocks)| <= CLAIMS_PER_MINUTE
    decreases |clocks|
  {
    if clocks != [] {
      DequeBound(clocks[..|clocks| - 1]);
      PoppedShorter(Deque(clocks[..|clocks| - 1]), clocks[|clocks| - 1]);
    }
  }

  lemma {:induction false} PoppedShorter(claims: seq<nat>, now: nat)
    ensures |Popped(claims, now)| <= |claims|
    decreases |claims|
  {
    if claims != [] && Since(now, claims[0]) >= WINDOW {
      PoppedShorter(claims[1..], now);
    }
  }

  // ---------- In nanoseconds ----------

  lemma {:induction false} InWindowAtMost(a: seq<nat>, from: int)
    ensures InWindow(a, from) <= |a|
    decreases |a|
  {
    if a != [] {
      InWindowAtMost(a[1..], from);
    }
  }

  lemma FewRecent(log: seq<nat>, n: nat, now: nat)
    requires Nondecreasing(log) && n < |log| && log[n] + WINDOW <= now
    ensures InWindow(log, now - WINDOW + 1) < |log| - n
  {
    hide InWindow;
    var from := now - WINDOW + 1;
    var past, recent := log[..n + 1], log[n + 1..];
    assert log == past + recent;
    InWindowConcat(past, recent, from);
    assert forall i | 0 <= i <= n :: past[i] == log[i] && log[i] <= log[n];
    InWindowNone(past, from);
    InWindowAtMost(recent, from);
  }

  lemma ManyRecent(log: seq<nat>, n: nat, now: nat)
    requires Nondecreasing(log) && n < |log| && now < log[n] + WINDOW && forall at <- log :: at <= now
    ensures InWindow(log, now - WINDOW + 1) >= |log| - n
  {
    hide InWindow;
    var from := now - WINDOW + 1;
    var recent := log[n..];
    assert log == log[..n] + recent;
    InWindowConcat(log[..n], recent, from);
    assert forall i | 0 <= i < |recent| :: recent[i] == log[n + i] && log[n + i] in log && log[n] <= log[n + i];
    InWindowAll(recent, from);
  }

  /** Of a rising list, the claims of the last minute are its end. */
  lemma LastSixty(log: seq<nat>, now: nat)
    requires Nondecreasing(log) && forall at <- log :: at <= now
    ensures InWindow(log, now - WINDOW + 1) < 60 <==> |log| < 60 || log[|log| - 60] + 60_000_000_000 <= now
  {
    hide InWindow, Nondecreasing;
    InWindowAtMost(log, now - WINDOW + 1);
    if |log| >= 60 {
      if log[|log| - 60] + WINDOW <= now {
        FewRecent(log, |log| - 60, now);
      } else {
        ManyRecent(log, |log| - 60, now);
      }
    }
  }

  /** A claim goes through exactly when the sixtieth admitted claim before it is at least a minute old. */
  lemma SixtiethBack(clocks: seq<nat>, now: nat)
    requires Nondecreasing(clocks + [now])
    ensures var admitted := Admitted(clocks);
            Admits(admitted, now) <==> |admitted| < 60 || admitted[|admitted| - 60] + 60_000_000_000 <= now
  {
    hide Admitted, Deque, InWindow;
    LastReading(clocks, now);
    assert Nondecreasing(clocks) by {
      assert forall i | 0 <= i < |clocks| :: clocks[i] == (clocks + [now])[i];
    }
    var gone := DequeIsTail(clocks);
    NothingAdmittedYet();
    LastSixty(Admitted(clocks), now);
  }

  lemma NothingAdmittedYet()
    ensures Admitted([]) == []
  {
  }

  /** Sixty claims after any admitted one, a minute has passed. */
  lemma {:induction false} SixtyApart(clocks: seq<nat>, i: nat)
    requires Nondecreasing(clocks) && i + 60 < |Admitted(clocks)|
    ensures Admitted(clocks)[i] + 60_000_000_000 <= Admitted(clocks)[i + 60]
    decreases |clocks|
  {
    hide Admits, InWindow;
    var before, now := clocks[..|clocks| - 1], clocks[|clocks| - 1];
    assert clocks == before + [now];
    SixtiethBack(before, now);
    if i + 60 < |Admitted(before)| {
      SixtyApart(before, i);
    }
  }

  /** A claim stays in front until it is a minute old; a clock that goes back makes none older. */
  lemma PoppedSpelled(claims: seq<nat>, now: nat)
    ensures claims == [] || now < claims[0] + 60_000_000_000 ==> Popped(claims, now) == claims
    ensures claims != [] && claims[0] + 60_000_000_000 <= now ==> Popped(claims, now) == Popped(claims[1..], now)
  {
  }
}
