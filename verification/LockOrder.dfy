/**
 The two read-write locks of the availability store, step by step. Tasks run any sequences of the
 store's operations. A lock request joins the lock's queue and is granted in arrival order, once it
 is compatible with the current holders (a fair lock: a reader waits behind a waiting writer).

 No reachable state is stuck, because `entries` is never requested while `probe` is held and a
 task holds nothing across operations or across `persist`; and every run is bounded.
 */
module LockOrder {

  datatype Lock = EntriesLock | ProbeLock
  datatype Mode = Read | Write
  datatype Action = Acquire(lock: Lock, mode: Mode) | Release(lock: Lock)

  /** How `lock` is held after the given actions. */
  datatype Held = Nothing | Holding(mode: Mode)

  function Holds(actions: seq<Action>, lock: Lock): Held
    decreases |actions|
  {
    if actions == [] then Nothing
    else
      var last := actions[|actions| - 1];
      if last.lock != lock then Holds(actions[..|actions| - 1], lock)
      else if last.Acquire? then Holding(last.mode) else Nothing
  }

  /** The discipline: nothing is requested while `probe` is held, nor twice; all is given back. */
  predicate Ordered(program: seq<Action>) {
    && (forall k | 0 <= k < |program| :: OrderedAt(program, k))
    && Holds(program, EntriesLock) == Nothing && Holds(program, ProbeLock) == Nothing
  }

  predicate OrderedAt(program: seq<Action>, k: nat)
    requires k < |program|
  {
    if program[k].Acquire?
    then Holds(program[..k], ProbeLock) == Nothing && Holds(program[..k], program[k].lock) == Nothing
    else Holds(program[..k], program[k].lock) != Nothing
  }

  // ---------- The store's operations ----------

  datatype StoreOp =
    | Unavailable | Snapshot | LastServed | ProbeSnapshot
    | Deactivate(persists: bool)
    | Activate(persists: bool)
    | ReplaceActive(persists: bool, persistsAgain: bool)
    | ApplyProbe(persists: bool)

  function Guarded(lock: Lock, mode: Mode): seq<Action> { [Acquire(lock, mode), Release(lock)] }

  /** Both locks, `entries` first; `first` is given back first. */
  function BothGuarded(mode: Mode, first: Lock): seq<Action> {
    [Acquire(EntriesLock, mode), Acquire(ProbeLock, mode), Release(first),
     Release(if first == EntriesLock then ProbeLock else EntriesLock)]
  }

  function Persist(persists: bool): seq<Action> {
    if persists then BothGuarded(Read, EntriesLock) else []
  }

  function Program(op: StoreOp): seq<Action> {
    match op
    case Unavailable | Snapshot => Guarded(EntriesLock, Read)
    case LastServed | ProbeSnapshot => Guarded(ProbeLock, Read)
    case Deactivate(persists) => Guarded(EntriesLock, Write) + Persist(persists)
    case Activate(persists) => Guarded(EntriesLock, Write) + Persist(persists)
    case ReplaceActive(persists, again) =>
      (Guarded(EntriesLock, Write) + Persist(persists)) + (Guarded(EntriesLock, Write) + Persist(again))
    case ApplyProbe(persists) =>
      BothGuarded(Write, ProbeLock) + (BothGuarded(Read, EntriesLock) + Persist(persists))
  }

  function Programs(ops: seq<StoreOp>): seq<Action> {
    if ops == [] then [] else Program(ops[0]) + Programs(ops[1..])
  }

  lemma {:induction false} HoldsConcat(a: seq<Action>, b: seq<Action>, lock: Lock)
    requires Holds(a, lock) == Nothing
    ensures Holds(a + b, lock) == Holds(b, lock)
    decreases |b|
  {
    if b == [] {
      assert a + b == a;
    } else {
      var front := b[..|b| - 1];
      assert (a + b)[..|a + b| - 1] == a + front;
      HoldsConcat(a, front, lock);
    }
  }

  lemma OrderedConcat(a: seq<Action>, b: seq<Action>)
    requires Ordered(a) && Ordered(b)
    ensures Ordered(a + b)
  {
    hide Holds;
    HoldsConcat(a, b, EntriesLock);
    HoldsConcat(a, b, ProbeLock);
    forall k | 0 <= k < |a + b|
      ensures OrderedAt(a + b, k)
    {
      if k < |a| {
        assert (a + b)[..k] == a[..k] && (a + b)[k] == a[k] && OrderedAt(a, k);
      } else {
        var j := k - |a|;
        assert (a + b)[..k] == a + b[..j] && (a + b)[k] == b[j] && OrderedAt(b, j);
        assert b[j].lock == EntriesLock || b[j].lock == ProbeLock;
        HoldsConcat(a, b[..j], EntriesLock);
        HoldsConcat(a, b[..j], ProbeLock);
      }
    }
  }

  lemma GuardedOrdered(lock: Lock, mode: Mode)
    ensures Ordered(Guarded(lock, mode))
  {
    var p := Guarded(lock, mode);
    assert p[..0] == [] && p[..1] == [p[0]] && [p[0]][..0] == [];
    assert OrderedAt(p, 0) && OrderedAt(p, 1);
    assert p[..|p| - 1] == p[..1];
  }

  lemma BothGuardedOrdered(mode: Mode, first: Lock)
    ensures Ordered(BothGuarded(mode, first))
  {
    var p := BothGuarded(mode, first);
    assert p[..0] == [] && p[..1][..0] == [] && p[..2][..1] == p[..1] && p[..3][..2] == p[..2] && p[..4] == p;
    assert p[..4][..3] == p[..3];
    forall l: Lock
      ensures Holds(p[..1], l) == if l == EntriesLock then Holding(mode) else Nothing
      ensures Holds(p[..2], l) == Holding(mode)
      ensures Holds(p[..3], l) == if l == first then Nothing else Holding(mode)
      ensures Holds(p[..4], l) == Nothing
    {
      assert p[..1][0] == p[0] && p[..2][1] == p[1] && p[..3][2] == p[2] && p[..4][3] == p[3];
    }
    assert OrderedAt(p, 0) && OrderedAt(p, 1) && OrderedAt(p, 2) && OrderedAt(p, 3);
  }

  lemma NothingOrdered()
    ensures Ordered([])
  {
  }

  lemma PersistOrdered(persists: bool)
    ensures Ordered(Persist(persists))
  {
    BothGuardedOrdered(Read, EntriesLock);
    NothingOrdered();
  }

  /** Every operation of the store keeps the discipline. */
  lemma ProgramOrdered(op: StoreOp)
    ensures Ordered(Program(op))
  {
    hide Ordered, Guarded, BothGuarded, Persist;
    GuardedOrdered(EntriesLock, Read);
    GuardedOrdered(ProbeLock, Read);
    GuardedOrdered(EntriesLock, Write);
    BothGuardedOrdered(Write, ProbeLock);
    BothGuardedOrdered(Read, EntriesLock);
    match op {
      case Deactivate(persists) =>
        PersistOrdered(persists);
        OrderedConcat(Guarded(EntriesLock, Write), Persist(persists));
      case Activate(persists) =>
        PersistOrdered(persists);
        OrderedConcat(Guarded(EntriesLock, Write), Persist(persists));
      case ReplaceActive(persists, again) =>
        PersistOrdered(persists);
        PersistOrdered(again);
        OrderedConcat(Guarded(EntriesLock, Write), Persist(persists));
        OrderedConcat(Guarded(EntriesLock, Write), Persist(again));
        OrderedConcat(Guarded(EntriesLock, Write) + Persist(persists), Guarded(EntriesLock, Write) + Persist(again));
      case ApplyProbe(persists) =>
        PersistOrdered(persists);
        OrderedConcat(BothGuarded(Read, EntriesLock), Persist(persists));
        OrderedConcat(BothGuarded(Write, ProbeLock), BothGuarded(Read, EntriesLock) + Persist(persists));
      case _ =>
    }
  }

  lemma {:induction false} ProgramsOrdered(ops: seq<StoreOp>)
    ensures Ordered(Programs(ops))
    decreases |ops|
  {
    hide Ordered, Program;
    if ops == [] {
      NothingOrdered();
    } else {
      ProgramOrdered(ops[0]);
      ProgramsOrdered(ops[1..]);
      OrderedConcat(Program(ops[0]), Programs(ops[1..]));
    }
  }

  /** The lock requests and releases of every operation, one by one. */
  lemma ProgramSpelled(op: StoreOp)
    ensures op.Unavailable? || op.Snapshot? ==> Program(op) == [Acquire(EntriesLock, Read), Release(EntriesLock)]
    ensures op.LastServed? || op.ProbeSnapshot? ==> Program(op) == [Acquire(ProbeLock, Read), Release(ProbeLock)]
    ensures (op.Deactivate? || op.Activate?) && !op.persists ==>
              Program(op) == [Acquire(EntriesLock, Write), Release(EntriesLock)]
    ensures (op.Deactivate? || op.Activate?) && op.persists ==>
              Program(op) == [Acquire(EntriesLock, Write), Release(EntriesLock), Acquire(EntriesLock, Read),
                              Acquire(ProbeLock, Read), Release(EntriesLock), Release(ProbeLock)]
    ensures op.ReplaceActive? ==> Program(op) == Program(Deactivate(op.persists)) + Program(Activate(op.persistsAgain))
    ensures op.ApplyProbe? && !op.persists ==>
              Program(op) == [Acquire(EntriesLock, Write), Acquire(ProbeLock, Write), Release(ProbeLock),
                              Release(EntriesLock), Acquire(EntriesLock, Read), Acquire(ProbeLock, Read),
                              Release(EntriesLock), Release(ProbeLock)]
    ensures op.ApplyProbe? && op.persists ==>
              Program(op) == Program(ApplyProbe(false))
                             + [Acquire(EntriesLock, Read), Acquire(ProbeLock, Read), Release(EntriesLock),
                                Release(ProbeLock)]
  {
  }

  /** A task runs its operations one after the other. */
  lemma {:induction false} ProgramsConcat(a: seq<StoreOp>, b: seq<StoreOp>)
    ensures Programs(a + b) == Programs(a) + Programs(b)
    ensures |a| == 1 ==> Programs(a) == Program(a[0])
    decreases |a|
  {
    hide Program;
    if a == [] {
      assert a + b == b;
    } else {
      assert (a + b)[0] == a[0] && (a + b)[1..] == a[1..] + b;
      ProgramsConcat(a[1..], b);
    }
  }

  // ---------- Tasks and steps ----------

  datatype Task = Task(program: seq<Action>, pc: nat, waiting: bool)
  {
    predicate Sound() {
      pc <= |program| && Ordered(program) && (waiting ==> pc < |program| && program[pc].Acquire?)
    }

    predicate Finished() { pc >= |program| }

    function Held(lock: Lock): Held {
      if pc <= |program| then Holds(program[..pc], lock) else Nothing
    }

    predicate WaitsFor(lock: Lock) {
      waiting && pc < |program| && program[pc].Acquire? && program[pc].lock == lock
    }
  }

  datatype State = State(tasks: seq<Task>, entriesQueue: seq<nat>, probeQueue: seq<nat>)
  {
    function Queue(lock: Lock): seq<nat> { if lock == EntriesLock then entriesQueue else probeQueue }

    function WithQueue(lock: Lock, queue: seq<nat>): State {
      if lock == EntriesLock then this.(entriesQueue := queue) else this.(probeQueue := queue)
    }

    function WithTask(t: nat, task: Task): State
      requires t < |tasks|
    {
      this.(tasks := tasks[t := task])
    }
  }

  datatype Step = Request(task: nat) | Grant(lock: Lock) | GiveBack(task: nat)

  ghost predicate QueueExact(s: State, lock: Lock) {
    && (forall t :: t in s.Queue(lock) <==> 0 <= t < |s.tasks| && s.tasks[t].WaitsFor(lock))
    && (forall i, j | 0 <= i < j < |s.Queue(lock)| :: s.Queue(lock)[i] != s.Queue(lock)[j])
  }

  /** A writer shares the lock with nobody. */
  ghost predicate Exclusive(s: State, lock: Lock) {
    forall t, u | 0 <= t < |s.tasks| && 0 <= u < |s.tasks| && t != u ::
      s.tasks[t].Held(lock) == Holding(Write) ==> s.tasks[u].Held(lock) == Nothing
  }

  ghost predicate Inv(s: State) {
    && (forall t | 0 <= t < |s.tasks| :: s.tasks[t].Sound())
    && (forall lock :: QueueExact(s, lock)) && (forall lock :: Exclusive(s, lock))
  }

  /** Whether the current holders of the lock admit one more in this mode. */
  predicate Admits(s: State, lock: Lock, mode: Mode) {
    forall t | 0 <= t < |s.tasks| ::
      if mode == Read then s.tasks[t].Held(lock) != Holding(Write) else s.tasks[t].Held(lock) == Nothing
  }

  predicate Enabled(s: State, step: Step) {
    match step
    case Request(t) =>
      t < |s.tasks| && var task := s.tasks[t]; !task.Finished() && !task.waiting && task.program[task.pc].Acquire?
    case GiveBack(t) =>
      t < |s.tasks| && var task := s.tasks[t]; !task.Finished() && !task.waiting && task.program[task.pc].Release?
    case Grant(lock) =>
      && s.Queue(lock) != []
      && var t := s.Queue(lock)[0];
         && t < |s.tasks| && s.tasks[t].WaitsFor(lock) && Admits(s, lock, s.tasks[t].program[s.tasks[t].pc].mode)
  }

  function Apply(s: State, step: Step): State
    requires Enabled(s, step)
  {
    match step
    case Request(t) =>
      var task := s.tasks[t];
      var lock := task.program[task.pc].lock;
      s.WithTask(t, task.(waiting := true)).WithQueue(lock, s.Queue(lock) + [t])
    case GiveBack(t) =>
      var task := s.tasks[t];
      s.WithTask(t, task.(pc := task.pc + 1))
    case Grant(lock) =>
      var t := s.Queue(lock)[0];
      var task := s.tasks[t];
      s.WithTask(t, task.(pc := task.pc + 1, waiting := false)).WithQueue(lock, s.Queue(lock)[1..])
  }

  // ---------- The invariant ----------

  lemma HoldsNext(task: Task, lock: Lock)
    requires task.pc < |task.program|
    ensures Holds(task.program[..task.pc + 1], lock)
         == if task.program[task.pc].lock != lock then task.Held(lock)
            else if task.program[task.pc].Acquire? then Holding(task.program[task.pc].mode) else Nothing
  {
    var p := task.program[..task.pc + 1];
    assert p[..|p| - 1] == task.program[..task.pc];
  }

  lemma RequestKeepsInv(s: State, t: nat)
    requires Inv(s) && Enabled(s, Request(t))
    ensures Inv(Apply(s, Request(t)))
  {
    hide Ordered, Holds;
    var after := Apply(s, Request(t));
    forall l: Lock
      ensures QueueExact(after, l) && Exclusive(after, l)
    {
      assert QueueExact(s, l) && Exclusive(s, l);
      assert t !in s.Queue(l);
      var lock := s.tasks[t].program[s.tasks[t].pc].lock;
      assert after.Queue(l) == if l == lock then s.Queue(l) + [t] else s.Queue(l);
      assert forall u: nat :: u in after.Queue(l) <==> u in s.Queue(l) || (l == lock && u == t);
      assert forall u | 0 <= u < |s.tasks| && u != t :: after.tasks[u] == s.tasks[u];
      assert after.tasks[t].WaitsFor(l) <==> l == lock;
      assert forall u | 0 <= u < |s.tasks| :: after.tasks[u].Held(l) == s.tasks[u].Held(l);
    }
  }

  lemma GiveBackKeepsInv(s: State, t: nat)
    requires Inv(s) && Enabled(s, GiveBack(t))
    ensures Inv(Apply(s, GiveBack(t)))
  {
    hide Ordered, Holds;
    var after := Apply(s, GiveBack(t));
    forall l: Lock
      ensures QueueExact(after, l) && Exclusive(after, l)
    {
      assert QueueExact(s, l) && Exclusive(s, l);
      HoldsNext(s.tasks[t], l);
    }
  }

  lemma QueueRest(s: State, lock: Lock)
    requires QueueExact(s, lock) && s.Queue(lock) != []
    ensures forall t :: t in s.Queue(lock)[1..] <==> t in s.Queue(lock) && t != s.Queue(lock)[0]
  {
    assert s.Queue(lock) == [s.Queue(lock)[0]] + s.Queue(lock)[1..];
    assert forall i | 0 <= i < |s.Queue(lock)[1..]| :: s.Queue(lock)[1..][i] == s.Queue(lock)[i + 1];
  }

  lemma GrantKeepsInv(s: State, lock: Lock)
    requires Inv(s) && Enabled(s, Grant(lock))
    ensures Inv(Apply(s, Grant(lock)))
  {
    hide Ordered, Holds;
    var after, t := Apply(s, Grant(lock)), s.Queue(lock)[0];
    assert QueueExact(s, lock);
    forall l: Lock
      ensures QueueExact(after, l) && Exclusive(after, l)
    {
      assert QueueExact(s, l) && Exclusive(s, l);
      HoldsNext(s.tasks[t], l);
      QueueRest(s, lock);
      assert forall u | 0 <= u < |s.tasks| && u != t :: after.tasks[u] == s.tasks[u];
      assert !after.tasks[t].WaitsFor(l);
      assert l != lock ==> t !in s.Queue(l);
    }
  }

  lemma StepKeepsInv(s: State, step: Step)
    requires Inv(s) && Enabled(s, step)
    ensures Inv(Apply(s, step))
  {
    hide Inv, Enabled, Apply;
    match step {
      case Request(t) => RequestKeepsInv(s, t);
      case Grant(lock) => GrantKeepsInv(s, lock);
      case GiveBack(t) => GiveBackKeepsInv(s, t);
    }
  }

  // ---------- No state is stuck ----------

  lemma HoldsOnlyWhenUnfinished(task: Task, lock: Lock)
    requires task.Sound() && task.Held(lock) != Nothing
    ensures !task.Finished()
    ensures lock == ProbeLock ==> !task.waiting
    ensures task.waiting ==> task.program[task.pc].lock == ProbeLock
  {
    hide Holds;
    assert task.program[..|task.program|] == task.program;
    assert task.pc < |task.program| ==> OrderedAt(task.program, task.pc);
  }

  lemma WaitsSomewhere(task: Task)
    requires task.Sound()
    ensures task.waiting ==> task.WaitsFor(task.program[task.pc].lock)
    ensures task.waiting ==> task.WaitsFor(EntriesLock) || task.WaitsFor(ProbeLock)
  {
    hide Ordered;
    if task.waiting {
      var lock := task.program[task.pc].lock;
      assert lock == EntriesLock || lock == ProbeLock;
    }
  }

  lemma Unadmitted(s: State, lock: Lock, mode: Mode) returns (t: nat)
    requires Inv(s) && !Admits(s, lock, mode)
    ensures t < |s.tasks| && s.tasks[t].Held(lock) != Nothing
  {
    t :| 0 <= t < |s.tasks| && s.tasks[t].Held(lock) != Nothing;
  }

  lemma RunnableMoves(s: State, t: nat) returns (step: Step)
    requires Inv(s) && t < |s.tasks| && !s.tasks[t].Finished() && !s.tasks[t].waiting
    ensures Enabled(s, step)
  {
    step := if s.tasks[t].program[s.tasks[t].pc].Acquire? then Request(t) else GiveBack(t);
  }

  /** The head of a non-empty queue is granted unless some task that holds the lock is in the way. */
  lemma QueueMoves(s: State, lock: Lock) returns (step: Step, holder: nat)
    requires Inv(s) && s.Queue(lock) != []
    ensures Enabled(s, step) || (holder < |s.tasks| && s.tasks[holder].Held(lock) != Nothing)
  {
    hide Holds, Ordered;
    assert QueueExact(s, lock);
    step, holder := Grant(lock), 0;
    assert s.Queue(lock)[0] in s.Queue(lock);
    var head := s.tasks[s.Queue(lock)[0]];
    if !Admits(s, lock, head.program[head.pc].mode) {
      holder := Unadmitted(s, lock, head.program[head.pc].mode);
    }
  }

  /** In every state that satisfies the invariant, an unfinished task means an enabled step. */
  lemma NeverStuck(s: State, t: nat) returns (step: Step)
    requires Inv(s) && t < |s.tasks| && !s.tasks[t].Finished()
    ensures Enabled(s, step)
  {
    hide Holds, Ordered, Enabled, Admits;
    if !s.tasks[t].waiting {
      step := RunnableMoves(s, t);
      return;
    }
    assert QueueExact(s, ProbeLock) && QueueExact(s, EntriesLock);
    WaitsSomewhere(s.tasks[t]);
    assert s.Queue(ProbeLock) == s.probeQueue && s.Queue(EntriesLock) == s.entriesQueue;
    if s.probeQueue != [] {
      var holder;
      step, holder := QueueMoves(s, ProbeLock);
      if !Enabled(s, step) {
        HoldsOnlyWhenUnfinished(s.tasks[holder], ProbeLock);
        step := RunnableMoves(s, holder);
      }
    } else {
      assert t in s.entriesQueue;
      var holder;
      step, holder := QueueMoves(s, EntriesLock);
      if !Enabled(s, step) {
        HoldsOnlyWhenUnfinished(s.tasks[holder], EntriesLock);
        assert holder !in s.probeQueue;
        WaitsSomewhere(s.tasks[holder]);
        step := RunnableMoves(s, holder);
      }
    }
  }

  // ---------- Runs ----------

  function Start(work: seq<seq<StoreOp>>): State {
    State(seq(|work|, t requires 0 <= t < |work| => Task(Programs(work[t]), 0, false)), [], [])
  }

  lemma StartInv(work: seq<seq<StoreOp>>)
    ensures Inv(Start(work))
  {
    hide Ordered, Programs;
    var s := Start(work);
    forall t | 0 <= t < |s.tasks|
      ensures s.tasks[t].Sound() && forall l :: s.tasks[t].Held(l) == Nothing
    {
      ProgramsOrdered(work[t]);
      assert s.tasks[t].program[..0] == [];
    }
  }

  /** `after` is reached from `s` in `steps` steps. */
  predicate Reaches(s: State, steps: seq<Step>, after: State)
    decreases |steps|
  {
    if steps == [] then s == after
    else Enabled(s, steps[0]) && Reaches(Apply(s, steps[0]), steps[1..], after)
  }

  function WorkOf(task: Task): int { 2 * (|task.program| - task.pc) - (if task.waiting then 1 else 0) }

  function Work(tasks: seq<Task>): int {
    if tasks == [] then 0 else WorkOf(tasks[0]) + Work(tasks[1..])
  }

  lemma {:induction false} WorkUpdate(tasks: seq<Task>, t: nat, task: Task)
    requires t < |tasks|
    ensures Work(tasks[t := task]) == Work(tasks) - WorkOf(tasks[t]) + WorkOf(task)
    decreases |tasks|
  {
    if t > 0 {
      assert tasks[t := task][1..] == tasks[1..][t - 1 := task];
      WorkUpdate(tasks[1..], t - 1, task);
    } else {
      assert tasks[t := task][1..] == tasks[1..];
    }
  }

  lemma {:induction false} WorkIsNatural(tasks: seq<Task>)
    requires forall t | 0 <= t < |tasks| :: tasks[t].Sound()
    ensures Work(tasks) >= 0
    decreases |tasks|
  {
    hide Ordered;
    if tasks != [] {
      WorkIsNatural(tasks[1..]);
    }
  }

  lemma StepWorks(s: State, step: Step)
    requires Inv(s) && Enabled(s, step)
    ensures Work(Apply(s, step).tasks) < Work(s.tasks)
  {
    hide Ordered, Admits, Work;
    match step {
      case Request(t) => WorkUpdate(s.tasks, t, s.tasks[t].(waiting := true));
      case GiveBack(t) => WorkUpdate(s.tasks, t, s.tasks[t].(pc := s.tasks[t].pc + 1));
      case Grant(lock) =>
        var t := s.Queue(lock)[0];
        WorkUpdate(s.tasks, t, s.tasks[t].(pc := s.tasks[t].pc + 1, waiting := false));
    }
  }

  lemma {:induction false} RunKeeps(s: State, steps: seq<Step>, after: State)
    requires Inv(s) && Reaches(s, steps, after)
    ensures Inv(after) && |steps| <= Work(s.tasks) - Work(after.tasks)
    decreases |steps|
  {
    hide Inv, Enabled, Apply, Work;
    if steps != [] {
      StepKeepsInv(s, steps[0]);
      StepWorks(s, steps[0]);
      RunKeeps(Apply(s, steps[0]), steps[1..], after);
    }
  }

  lemma {:induction false} RunKeepsPrograms(s: State, steps: seq<Step>, after: State)
    requires Reaches(s, steps, after)
    ensures |after.tasks| == |s.tasks| && forall t | 0 <= t < |s.tasks| :: after.tasks[t].program == s.tasks[t].program
    decreases |steps|
  {
    hide Enabled;
    if steps != [] {
      StepKeepsPrograms(s, steps[0]);
      RunKeepsPrograms(Apply(s, steps[0]), steps[1..], after);
    }
  }

  lemma StepKeepsPrograms(s: State, step: Step)
    requires Enabled(s, step)
    ensures var after := Apply(s, step);
            |after.tasks| == |s.tasks| && forall t | 0 <= t < |s.tasks| :: after.tasks[t].program == s.tasks[t].program
  {
    hide Admits;
  }

  /**
   Any number of tasks, each running any sequence of the store's operations: in every reachable
   state writers hold alone and an unfinished task means some step is enabled; and no run takes
   more steps than the work there is. So a run that goes as far as it can runs every task to the end.
   */
  lemma NoDeadlock(work: seq<seq<StoreOp>>, steps: seq<Step>, after: State)
    requires Reaches(Start(work), steps, after)
    ensures Inv(after) && |steps| <= Work(Start(work).tasks)
    ensures |after.tasks| == |work| && forall t | 0 <= t < |work| :: after.tasks[t].program == Programs(work[t])
    ensures (exists t | 0 <= t < |work| :: after.tasks[t].pc < |Programs(work[t])|) ==>
              exists step :: Enabled(after, step)
    ensures (forall step :: !Enabled(after, step)) ==>
              forall t | 0 <= t < |work| :: after.tasks[t].pc == |Programs(work[t])|
  {
    hide Inv, Enabled, Programs;
    StartInv(work);
    RunKeeps(Start(work), steps, after);
    RunKeepsPrograms(Start(work), steps, after);
    assert Work(after.tasks) >= 0 by { InvWork(after); }
    if t :| 0 <= t < |work| && after.tasks[t].pc < |Programs(work[t])| {
      var step := NeverStuck(after, t);
    }
    InvPc(after);
  }

  lemma InvPc(s: State)
    requires Inv(s)
    ensures forall t | 0 <= t < |s.tasks| :: s.tasks[t].pc <= |s.tasks[t].program|
  {
  }

  lemma InvWork(s: State)
    requires Inv(s)
    ensures Work(s.tasks) >= 0
  {
    WorkIsNatural(s.tasks);
  }
}
