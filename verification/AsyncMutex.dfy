/** `async_mutex`: a lock flag and a queue of waiters, both touched only inside a strand. */
module AsyncMutex {

  /** One call of `lock`; a coroutine that locks again later counts as another task. */
  type Task = nat

  /** Where a call of `lock` stands:
      - `Waiting`: suspended in the queue;
      - `Handed`: its timer was cancelled, it has not resumed yet;
      - `Holding`: `lock` returned;
      - `Releasing`: it called `unlock`, the posted section has not run yet;
      - `Done`: the posted section has run. */
  datatype Phase = Waiting | Handed | Holding | Releasing | Done

  // ---- The object ----

  class Mutex {
    var locked: bool
    var waiters: seq<Task>

    constructor ()
      ensures !locked && waiters == []
    {
      locked, waiters := false, [];
    }

    /** The strand section of `lock`: `true` if it returns at once. */
    method LockSection(t: Task) returns (acquired: bool)
      modifies this
      ensures acquired == !old(locked) && locked
      ensures waiters == if acquired then old(waiters) else old(waiters) + [t]
    {
      if !locked {
        locked := true;
        return true;
      }
      waiters := waiters + [t];
      acquired := false;
    }

    /** The section `unlock` posts: whom it wakes, if anybody. */
    method UnlockSection() returns (woken: seq<Task>)
      modifies this
      ensures woken == if old(locked) && old(waiters) != [] then [old(waiters)[0]] else []
      ensures waiters == old(waiters)[|woken|..]
      ensures locked == (old(locked) && old(waiters) != [])
    {
      woken := [];
      if !locked {
        assert old(waiters)[0..] == old(waiters);
        return;
      }
      if waiters == [] {
        locked := false;
        return;
      }
      woken, waiters := [waiters[0]], waiters[1..];
    }
  }

  // ---- The system: the mutex and every task that uses it ----

  /** `entered` records the order in which tasks reached the strand section of `lock`,
      `granted` the order in which they were given the mutex, `unlocks` how many posted
      sections have run. */
  datatype State = State(
    locked: bool,
    waiters: seq<Task>,
    phase: map<Task, Phase>,
    entered: seq<Task>,
    granted: seq<Task>,
    unlocks: nat)

  function Initial(): State {
    State(false, [], map[], [], [], 0)
  }

  datatype Step = Lock(t: Task) | Resume(t: Task) | Unlock(t: Task) | RunUnlock(t: Task)

  predicate InPhase(s: State, t: Task, p: Phase) {
    t in s.phase && s.phase[t] == p
  }

  /** A task unlocks only what it holds, and once. */
  predicate Enabled(s: State, step: Step) {
    match step
    case Lock(t) => t !in s.phase
    case Resume(t) => InPhase(s, t, Handed)
    case Unlock(t) => InPhase(s, t, Holding)
    case RunUnlock(t) => InPhase(s, t, Releasing)
  }

  function Next(s: State, step: Step): State {
    match step
    case Lock(t) =>
      if s.locked
      then s.(waiters := s.waiters + [t], phase := s.phase[t := Waiting], entered := s.entered + [t])
      else s.(locked := true, phase := s.phase[t := Holding], entered := s.entered + [t], granted := s.granted + [t])
    case Resume(t) => s.(phase := s.phase[t := Holding])
    case Unlock(t) => s.(phase := s.phase[t := Releasing])
    case RunUnlock(t) =>
      var r := s.(phase := s.phase[t := Done], unlocks := s.unlocks + 1);
      if !s.locked then r
      else if s.waiters == [] then r.(locked := false)
      else r.(waiters := s.waiters[1..], phase := r.phase[s.waiters[0] := Handed], granted := s.granted + [s.waiters[0]])
  }

  predicate ValidRun(s: State, run: seq<Step>)
    decreases |run|
  {
    run == [] || (Enabled(s, run[0]) && ValidRun(Next(s, run[0]), run[1..]))
  }

  function After(s: State, run: seq<Step>): State
    decreases |run|
  {
    if run == [] then s else After(Next(s, run[0]), run[1..])
  }

  /** The steps of the system are what the two sections of the object do. */
  method StepObject(m: Mutex, s: State, step: Step) returns (next: State)
    requires Enabled(s, step) && m.locked == s.locked && m.waiters == s.waiters
    modifies m
    ensures next == Next(s, step) && m.locked == next.locked && m.waiters == next.waiters
  {
    match step
    case Lock(t) =>
      var acquired := m.LockSection(t);
      next := s.(locked := true, waiters := m.waiters, entered := s.entered + [t],
                 phase := s.phase[t := if acquired then Holding else Waiting],
                 granted := if acquired then s.granted + [t] else s.granted);
    case Resume(t) => next := s.(phase := s.phase[t := Holding]);
    case Unlock(t) => next := s.(phase := s.phase[t := Releasing]);
    case RunUnlock(t) =>
      var woken := m.UnlockSection();
      next := s.(locked := m.locked, waiters := m.waiters, phase := s.phase[t := Done],
                 unlocks := s.unlocks + 1, granted := s.granted + woken);
      if woken != [] { next := next.(phase := next.phase[woken[0] := Handed]); }
      assert woken == [] ==> s.granted + woken == s.granted;
  }

  // ---- Mutual exclusion and no lost wake-up ----

  /** It has the mutex, has been handed it, or has yet to give it back. */
  predicate Owns(s: State, t: Task) {
    t in s.phase && (s.phase[t] == Handed || s.phase[t] == Holding || s.phase[t] == Releasing)
  }

  ghost predicate AtMostOneOwner(s: State) {
    forall t, u | Owns(s, t) && Owns(s, u) :: t == u
  }

  ghost predicate LockedExactly(s: State) {
    s.locked <==> exists t :: Owns(s, t)
  }

  predicate NoLostWakeUp(s: State) {
    s.waiters != [] ==> s.locked
  }

  ghost predicate QueueIsWaiting(s: State) {
    && (forall i | 0 <= i < |s.waiters| :: InPhase(s, s.waiters[i], Waiting))
    && (forall t | InPhase(s, t, Waiting) :: t in s.waiters)
    && (forall i, j | 0 <= i < j < |s.waiters| :: s.waiters[i] != s.waiters[j])
  }

  /** First come, first served: who entered is who was granted, then who waits, in order. */
  predicate Fifo(s: State) {
    s.entered == s.granted + s.waiters
  }

  predicate HistoryIsTasks(s: State) {
    && (forall i | 0 <= i < |s.entered| :: s.entered[i] in s.phase)
    && (forall i, j | 0 <= i < j < |s.entered| :: s.entered[i] != s.entered[j])
  }

  /** Every grant but the current owner's has been matched by an executed unlock. */
  predicate GrantsCounted(s: State) {
    |s.granted| == s.unlocks + if s.locked then 1 else 0
  }

  ghost predicate Inv(s: State) {
    && AtMostOneOwner(s) && LockedExactly(s) && NoLostWakeUp(s)
    && QueueIsWaiting(s) && Fifo(s) && HistoryIsTasks(s) && GrantsCounted(s)
  }

  lemma {:induction false} InitialInv()
    ensures Inv(Initial())
  {
  }

  lemma {:induction false} LockKeeps(s: State, t: Task)
    requires Inv(s) && Enabled(s, Lock(t))
    ensures Inv(Next(s, Lock(t)))
  {
    var n := Next(s, Lock(t));
    assert forall u | u != t :: Owns(n, u) <==> Owns(s, u);
    if s.locked {
      var o :| Owns(s, o);
      assert Owns(n, o);
      assert forall i | 0 <= i < |s.waiters| :: s.waiters[i] in s.phase;
      assert n.entered == n.granted + n.waiters;
    } else {
      assert Owns(n, t);
    }
  }

  lemma {:induction false} PhaseKeeps(s: State, step: Step)
    requires Inv(s) && Enabled(s, step) && (step.Resume? || step.Unlock?)
    ensures Inv(Next(s, step))
  {
    var n := Next(s, step);
    assert forall u :: Owns(n, u) <==> Owns(s, u);
    assert forall u :: InPhase(n, u, Waiting) <==> InPhase(s, u, Waiting);
  }

  lemma {:induction false} RunUnlockKeeps(s: State, t: Task)
    requires Inv(s) && Enabled(s, RunUnlock(t))
    ensures Inv(Next(s, RunUnlock(t)))
  {
    assert Owns(s, t);
    if s.waiters == [] { FreeKeeps(s, t); } else { HandOnKeeps(s, t); }
  }

  lemma {:induction false} FreeKeeps(s: State, t: Task)
    requires Inv(s) && Owns(s, t) && s.waiters == []
    ensures Inv(Next(s, RunUnlock(t)))
  {
    var n := Next(s, RunUnlock(t));
    assert forall u | u != t :: Owns(n, u) <==> Owns(s, u);
  }

  lemma {:induction false} HandOnKeeps(s: State, t: Task)
    requires Inv(s) && Owns(s, t) && s.waiters != []
    ensures Inv(Next(s, RunUnlock(t)))
  {
    hide AtMostOneOwner, LockedExactly, QueueIsWaiting;
    var n, w := Next(s, RunUnlock(t)), s.waiters[0];
    HandOnQueue(s, t);
    HandOnOwner(s, t);
    assert s.waiters == [w] + n.waiters;
    assert n.entered == n.granted + n.waiters;
  }

  lemma {:induction false} HandOnQueue(s: State, t: Task)
    requires QueueIsWaiting(s) && NoLostWakeUp(s) && Owns(s, t) && s.waiters != []
    ensures InPhase(s, s.waiters[0], Waiting) && QueueIsWaiting(Next(s, RunUnlock(t)))
  {
    var n, w := Next(s, RunUnlock(t)), s.waiters[0];
    assert InPhase(s, w, Waiting) && w != t;
    assert forall u | u != t && u != w :: InPhase(n, u, Waiting) <==> InPhase(s, u, Waiting);
    assert forall i | 0 <= i < |n.waiters| :: n.waiters[i] == s.waiters[i + 1];
    assert s.waiters == [w] + n.waiters;
  }

  lemma {:induction false} HandOnOwner(s: State, t: Task)
    requires AtMostOneOwner(s) && Owns(s, t) && s.locked && s.waiters != []
    requires InPhase(s, s.waiters[0], Waiting)
    ensures var n := Next(s, RunUnlock(t)); AtMostOneOwner(n) && LockedExactly(n)
  {
    var n, w := Next(s, RunUnlock(t)), s.waiters[0];
    assert Owns(n, w);
    assert forall u | u != t && u != w :: Owns(n, u) <==> Owns(s, u);
  }

  lemma {:induction false} StepKeeps(s: State, step: Step)
    requires Inv(s) && Enabled(s, step)
    ensures Inv(Next(s, step))
  {
    match step
    case Lock(t) => LockKeeps(s, t);
    case RunUnlock(t) => RunUnlockKeeps(s, t);
    case _ => PhaseKeeps(s, step);
  }

  lemma {:induction false} RunKeeps(s: State, run: seq<Step>)
    requires Inv(s) && ValidRun(s, run)
    ensures Inv(After(s, run))
    decreases |run|
  {
    if run != [] {
      StepKeeps(s, run[0]);
      RunKeeps(Next(s, run[0]), run[1..]);
    }
  }

  /** In every reachable state. */
  lemma {:induction false} MutualExclusion(run: seq<Step>)
    requires ValidRun(Initial(), run)
    ensures Inv(After(Initial(), run))
  {
    InitialInv();
    RunKeeps(Initial(), run);
  }

  // ---- Bounded bypass ----

  lemma {:induction false} HistoryGrows(s: State, run: seq<Step>)
    ensures s.entered <= After(s, run).entered && s.granted <= After(s, run).granted
    ensures s.unlocks <= After(s, run).unlocks
    decreases |run|
  {
    if run != [] {
      HistoryGrows(Next(s, run[0]), run[1..]);
    }
  }

  /** A waiter at position `k` of the queue is given the mutex by exactly the (k+1)-th
      unlock section executed from now on: not by an earlier one, and by that one at the
      latest, whatever else happens in between. */
  lemma {:induction false} GrantedByUnlock(s: State, run: seq<Step>, k: nat)
    requires Inv(s) && ValidRun(s, run) && k < |s.waiters|
    ensures s.waiters[k] in After(s, run).granted <==> After(s, run).unlocks >= s.unlocks + k + 1
  {
    var e := After(s, run);
    RunKeeps(s, run);
    HistoryGrows(s, run);
    var at := |s.granted| + k;
    assert s.entered[at] == s.waiters[k];
    assert e.entered[at] == s.waiters[k];
    assert s.locked;
    assert e.waiters == [] ==> |e.entered| == |e.granted|;
    if e.unlocks >= s.unlocks + k + 1 {
      assert |e.granted| > at;
      assert e.granted[at] == e.entered[at];
    }
    if s.waiters[k] in e.granted {
      var i :| 0 <= i < |e.granted| && e.granted[i] == s.waiters[k];
      assert e.entered[i] == e.entered[at];
      assert i == at;
    }
  }

  /** As long as anybody waits, somebody owns the mutex and has a step to take towards
      the next hand-off: no task sleeps while the mutex is free. */
  lemma {:induction false} OwnerCanMove(s: State) returns (t: Task)
    requires Inv(s) && s.waiters != []
    ensures Owns(s, t) && (Enabled(s, Resume(t)) || Enabled(s, Unlock(t)) || Enabled(s, RunUnlock(t)))
  {
    t :| Owns(s, t);
  }

  // ---- Unlocks by tasks that do not own the mutex ----

  /** Steps look at nothing but the flag, the queue and the phases. */
  lemma {:induction false} CounterIsPassive(s: State, u: nat, run: seq<Step>)
    ensures var r := s.(unlocks := u);
            && (ValidRun(s, run) <==> ValidRun(r, run))
            && AtMostOneOwner(After(s, run)) == AtMostOneOwner(After(r, run))
    decreases |run|
  {
    var r := s.(unlocks := u);
    if run == [] {
      assert forall t :: Owns(s, t) <==> Owns(r, t);
    } else {
      assert Enabled(s, run[0]) <==> Enabled(r, run[0]);
      assert Next(r, run[0]) == Next(s, run[0]).(unlocks := Next(r, run[0]).unlocks);
      CounterIsPassive(Next(s, run[0]), Next(r, run[0]).unlocks, run[1..]);
    }
  }

  /** The owner's own section, whether or not it has called `unlock` in order. */
  lemma {:induction false} OwnersUnlockKeeps(s: State, t: Task)
    requires Inv(s) && Owns(s, t)
    ensures Inv(Next(s, RunUnlock(t)))
  {
    var r := s.(phase := s.phase[t := Releasing]);
    assert forall u :: Owns(r, u) <==> Owns(s, u);
    assert forall u :: InPhase(r, u, Waiting) <==> InPhase(s, u, Waiting);
    RunUnlockKeeps(r, t);
    assert r.phase[t := Done] == s.phase[t := Done];
  }

  /** A section that finds the mutex free does nothing but end. */
  lemma {:induction false} FreeUnlockKeeps(s: State, t: Task)
    requires Inv(s) && !s.locked && !InPhase(s, t, Waiting)
    ensures Inv(Next(s, RunUnlock(t)).(unlocks := s.unlocks))
  {
    var r := Next(s, RunUnlock(t)).(unlocks := s.unlocks);
    assert forall u :: Owns(r, u) ==> Owns(s, u);
    assert forall u | u != t :: InPhase(r, u, Waiting) <==> InPhase(s, u, Waiting);
  }

  lemma {:induction false} FreshTask(phase: map<Task, Phase>) returns (t: Task)
    ensures t !in phase
  {
    t := AboveAll(phase.Keys);
  }

  lemma {:induction false} AboveAll(tasks: set<Task>) returns (top: Task)
    ensures forall t | t in tasks :: t < top
  {
    if tasks == {} { return 0; }
    var t :| t in tasks;
    var rest := AboveAll(tasks - {t});
    assert forall x | x in tasks :: x == t || x in tasks - {t};
    top := if rest <= t then t + 1 else rest;
  }

  /** A run that ends with two owners, after a section that takes the mutex from its owner:
      nothing more is needed if somebody waits, one `lock` otherwise. */
  lemma {:induction false} TwoOwners(s: State, t: Task) returns (run: seq<Step>)
    requires Inv(s) && s.locked && !Owns(s, t) && !InPhase(s, t, Waiting)
    ensures ValidRun(Next(s, RunUnlock(t)), run) && !AtMostOneOwner(After(Next(s, RunUnlock(t)), run))
  {
    var n := Next(s, RunUnlock(t));
    var o :| Owns(s, o);
    assert Owns(n, o);
    if s.waiters != [] {
      var w := s.waiters[0];
      assert InPhase(s, w, Waiting) && Owns(n, w) && o != w;
      run := [];
    } else {
      var x := FreshTask(n.phase);
      run := [Lock(x)];
      assert run[1..] == [];
      var e := Next(n, Lock(x));
      assert After(n, run) == e;
      assert Owns(e, o) && Owns(e, x) && o != x;
    }
  }

  /** Why each holder must unlock once, and nobody else: after an unlock section run for a
      task that is not suspended, whether it ever locked or not, exclusion holds over every
      later run exactly when that task owned the mutex or the mutex was free. */
  lemma {:induction false} StrayUnlockExactly(s: State, t: Task)
    requires Inv(s) && !InPhase(s, t, Waiting)
    ensures (forall run | ValidRun(Next(s, RunUnlock(t)), run) :: AtMostOneOwner(After(Next(s, RunUnlock(t)), run)))
       <==> Owns(s, t) || !s.locked
  {
    var n := Next(s, RunUnlock(t));
    if Owns(s, t) {
      OwnersUnlockKeeps(s, t);
      forall run | ValidRun(n, run) ensures AtMostOneOwner(After(n, run)) { RunKeeps(n, run); }
    } else if !s.locked {
      FreeUnlockKeeps(s, t);
      forall run | ValidRun(n, run) ensures AtMostOneOwner(After(n, run)) {
        CounterIsPassive(n, s.unlocks, run);
        RunKeeps(n.(unlocks := s.unlocks), run);
      }
    } else {
      var run := TwoOwners(s, t);
      assert ValidRun(n, run);
    }
  }
}
