/**
 The start handshake of the journal thread: the loader (txd_journal_start_thread) and the threads it creates
 (txd_journald) share one mutex, one condition variable and one flag.  Every atomic action is a step; runs are
 arbitrary interleavings, over any number of loads, with spurious wakeups at any time the loader waits.
 */
module Handshake {

  datatype LoaderPc =
    | Idle      // outside txd_journal_start_thread
    | Create    // flag set to 1, about to create the thread
    | Lock      // about to lock the mutex
    | Test      // holds the mutex, about to test the flag
    | Waiting   // inside pthread_cond_wait, mutex released
    | Relock    // woken, must get the mutex back
    | Bump      // holds the mutex, left the wait loop
    | Unlock    // flag incremented, about to unlock and return

  datatype ThreadPc = TLock | TClear | TSignal | TUnlock | TDone

  datatype Owner = Free | Loader | Thread(i: nat)

  datatype Outcome = Unknown | Succeeded | Failed

  datatype State = State(
    loader: LoaderPc,
    condition: int,
    owner: Owner,
    threads: seq<ThreadPc>,  // one per thread ever created, oldest first
    spawned: bool,           // the current call did create its thread
    outcome: Outcome)        // of the last finished call

  datatype Step =
    | Start
    | CreateThread(code: int)
    | LoaderLock
    | LoaderTest
    | Spurious
    | LoaderRelock
    | LoaderBump
    | LoaderUnlock
    | ThreadStep(i: nat)

  const TXD_FAIL := 1

  /** init_wait_queue: nothing has been started. */
  const INITIAL := State(Idle, 0, Free, [], false, Unknown)

  predicate Enabled(s: State, step: Step) {
    match step
    case Start => s.loader == Idle
    case CreateThread(_) => s.loader == Create
    case LoaderLock => s.loader == Lock && s.owner == Free
    case LoaderTest => s.loader == Test
    case Spurious => s.loader == Waiting
    case LoaderRelock => s.loader == Relock && s.owner == Free
    case LoaderBump => s.loader == Bump
    case LoaderUnlock => s.loader == Unlock
    case ThreadStep(i) => i < |s.threads| && s.threads[i] != TDone && (s.threads[i] == TLock ==> s.owner == Free)
  }

  function Do(s: State, step: Step): State
    requires Enabled(s, step)
  {
    match step
    case Start => s.(loader := Create, condition := 1, spawned := false)
    case CreateThread(code) =>
      if code == TXD_FAIL then s.(loader := Idle, outcome := Failed)
      else if code == 0 then s.(loader := Lock, threads := s.threads + [TLock], spawned := true)
      else s.(loader := Lock)  // an error code the caller does not recognise
    case LoaderLock => s.(loader := Test, owner := Loader)
    case LoaderTest => if s.condition != 0 then s.(loader := Waiting, owner := Free) else s.(loader := Bump)
    case Spurious => s.(loader := Relock)
    case LoaderRelock => s.(loader := Test, owner := Loader)
    case LoaderBump => s.(loader := Unlock, condition := s.condition + 1)
    case LoaderUnlock => s.(loader := Idle, owner := Free, outcome := Succeeded)
    case ThreadStep(i) => DoThread(s, i)
  }

  function DoThread(s: State, i: nat): State
    requires i < |s.threads|
  {
    match s.threads[i]
    case TLock => s.(threads := s.threads[i := TClear], owner := Thread(i))
    case TClear => s.(threads := s.threads[i := TSignal], condition := 0)
    case TSignal => s.(threads := s.threads[i := TUnlock], loader := if s.loader == Waiting then Relock else s.loader)
    case TUnlock => s.(threads := s.threads[i := TDone], owner := Free)
    case TDone => s
  }

  ghost predicate Valid(s: State, steps: seq<Step>)
    decreases |steps|
  {
    steps == [] || (Enabled(s, steps[0]) && Valid(Do(s, steps[0]), steps[1..]))
  }

  ghost function Run(s: State, steps: seq<Step>): State
    requires Valid(s, steps)
    decreases |steps|
  {
    if steps == [] then s else Run(Do(s, steps[0]), steps[1..])
  }

  // ---------- Safety ----------

  predicate LoaderInside(s: State) {
    s.loader == Test || s.loader == Bump || s.loader == Unlock
  }

  predicate ThreadInside(s: State, i: nat)
    requires i < |s.threads|
  {
    s.threads[i] == TClear || s.threads[i] == TSignal || s.threads[i] == TUnlock
  }

  predicate InWaitLoop(s: State) {
    s.loader == Lock || s.loader == Test || s.loader == Waiting || s.loader == Relock
  }

  function Newest(s: State): ThreadPc
    requires s.threads != []
  {
    s.threads[|s.threads| - 1]
  }

  ghost predicate Inv(s: State) {
    && (s.owner == Loader <==> LoaderInside(s))
    && (forall i :: 0 <= i < |s.threads| ==> (s.owner == Thread(i) <==> ThreadInside(s, i)))
    && (s.owner.Thread? ==> s.owner.i < |s.threads|)
    && (forall i :: 0 <= i < |s.threads| && s.threads[i] != TDone ==>
          s.spawned && i == |s.threads| - 1 && InWaitLoop(s))
    && (s.spawned ==> s.threads != [])
    && (InWaitLoop(s) ==>
          s.condition == if s.spawned && Newest(s) != TLock && Newest(s) != TClear then 0 else 1)
    && (s.loader == Waiting && s.spawned ==> Newest(s) == TLock || Newest(s) == TClear || Newest(s) == TSignal)
    && (s.loader == Bump ==> s.condition == 0)
    && (s.loader == Bump || s.loader == Unlock ==> s.spawned)
    && (s.loader == Create || s.loader == Unlock ==> s.condition == 1)
    && (s.loader == Idle && s.outcome != Unknown ==> s.condition == 1)
    && (s.loader == Create ==> !s.spawned)
    && (s.loader == Idle && s.outcome == Unknown ==> s.condition == 0)
  }

  lemma CallKeepsInv(s: State, step: Step)
    requires Inv(s) && Enabled(s, step) && (step.Start? || step.CreateThread? || step.LoaderBump? || step.LoaderUnlock?)
    ensures Inv(Do(s, step))
  {
  }

  lemma WaitKeepsInv(s: State, step: Step)
    requires Inv(s) && Enabled(s, step)
    requires step.LoaderLock? || step.LoaderTest? || step.Spurious? || step.LoaderRelock?
    ensures Inv(Do(s, step))
  {
    var n := |s.threads|;
    if n > 0 { assert ThreadInside(s, n - 1) <==> s.owner == Thread(n - 1); }
  }

  lemma ThreadKeepsInv(s: State, i: nat)
    requires Inv(s) && Enabled(s, ThreadStep(i))
    ensures Inv(Do(s, ThreadStep(i)))
  {
    assert ThreadInside(s, i) <==> s.owner == Thread(i);
    assert i == |s.threads| - 1;
  }

  lemma StepKeepsInv(s: State, step: Step)
    requires Inv(s) && Enabled(s, step)
    ensures Inv(Do(s, step))
  {
    match step
    case ThreadStep(i) => ThreadKeepsInv(s, i);
    case LoaderLock | LoaderTest | Spurious | LoaderRelock => WaitKeepsInv(s, step);
    case _ => CallKeepsInv(s, step);
  }

  lemma {:induction false} RunKeepsInv(s: State, steps: seq<Step>)
    requires Inv(s) && Valid(s, steps)
    ensures Inv(Run(s, steps))
    decreases |steps|
  {
    if steps != [] {
      StepKeepsInv(s, steps[0]);
      RunKeepsInv(Do(s, steps[0]), steps[1..]);
    }
  }

  /** What holds at every point of every run, over any number of loads and spurious wakeups. */
  lemma Safety(steps: seq<Step>)
    requires Valid(INITIAL, steps)
    ensures var s := Run(INITIAL, steps);
      // the mutex has at most one owner
      && (forall i :: 0 <= i < |s.threads| && ThreadInside(s, i) ==> !LoaderInside(s))
      && (forall i, j :: 0 <= i < |s.threads| && 0 <= j < |s.threads| && ThreadInside(s, i) && ThreadInside(s, j) ==>
            i == j)
      // the loader leaves the wait loop only after its own thread cleared the flag and released the mutex
      && (s.loader == Bump || s.loader == Unlock ==> s.spawned && s.threads != [] && Newest(s) == TDone)
      // no wakeup is lost: while the loader waits for its thread, that thread has yet to signal
      && (s.loader == Waiting && s.spawned ==>
            s.threads != [] && (Newest(s) == TLock || Newest(s) == TClear || Newest(s) == TSignal))
      // after a call the flag is 1 and nothing can change it before the next call
      && (s.loader == Idle && s.outcome != Unknown ==> s.condition == 1)
      && (s.loader == Idle ==> forall step :: Enabled(s, step) ==> step == Start)
  {
    RunKeepsInv(INITIAL, steps);
    var s := Run(INITIAL, steps);
    if s.threads != [] { assert ThreadInside(s, |s.threads| - 1) <==> s.owner == Thread(|s.threads| - 1); }
    forall i, j | 0 <= i < |s.threads| && 0 <= j < |s.threads| && ThreadInside(s, i) && ThreadInside(s, j)
      ensures i == j
    { assert s.owner == Thread(i) == Thread(j); }
  }

  // ---------- Progress ----------

  /** A call is under way and its thread exists or is still to be created. */
  predicate Underway(s: State) {
    s.loader != Idle && (s.loader == Create || s.spawned)
  }

  /** A step other than a spurious wakeup that can be taken while a call is under way. */
  function NextStep(s: State): Step
    requires s.loader == Lock || s.loader == Relock || s.loader == Waiting ==> s.threads != []
  {
    match s.loader
    case Idle => Start
    case Create => CreateThread(0)
    case Test => LoaderTest
    case Bump => LoaderBump
    case Unlock => LoaderUnlock
    case Waiting => ThreadStep(|s.threads| - 1)
    case Lock => if s.owner.Thread? then ThreadStep(s.owner.i) else LoaderLock
    case Relock => if s.owner.Thread? then ThreadStep(s.owner.i) else LoaderRelock
  }

  /** The handshake never deadlocks: while a call is under way some step other than a spurious wakeup can be taken. */
  lemma SomeStepEnabled(s: State)
    requires Inv(s) && Underway(s)
    ensures var step := NextStep(s);
      Enabled(s, step) && step != Spurious && step != Start && (step.CreateThread? ==> step.code == 0)
  {
    var n := |s.threads|;
    if n > 0 { assert ThreadInside(s, n - 1) <==> s.owner == Thread(n - 1); }
    if s.owner.Thread? { assert ThreadInside(s, s.owner.i); }
  }

  function LoaderRank(pc: LoaderPc): nat {
    match pc
    case Create => 20
    case Lock => 8
    case Test => 7
    case Waiting => 6
    case Relock => 8
    case Bump => 2
    case Unlock => 1
    case Idle => 0
  }

  function ThreadRank(pc: ThreadPc): nat {
    match pc
    case TLock => 7
    case TClear => 6
    case TSignal => 5
    case TUnlock => 1
    case TDone => 0
  }

  /** Steps left in the current call, not counting what spurious wakeups add. */
  function Rank(s: State): nat {
    LoaderRank(s.loader) + if s.threads == [] then 0 else ThreadRank(Newest(s))
  }

  lemma StepRank(s: State, step: Step)
    requires Inv(s) && Enabled(s, step) && step != Start
    ensures step == Spurious ==> Rank(Do(s, step)) <= Rank(s) + 2
    ensures step != Spurious ==> Rank(Do(s, step)) < Rank(s)
  {
  }

  function SpuriousCount(steps: seq<Step>): nat {
    if steps == [] then 0 else SpuriousCount(steps[1..]) + if steps[0] == Spurious then 1 else 0
  }

  /** Within one call, a run with finitely many spurious wakeups is finite: three more steps for each wakeup at most. */
  lemma {:induction false} RunIsBounded(s: State, steps: seq<Step>)
    requires Inv(s) && Valid(s, steps) && Start !in steps
    ensures |steps| + Rank(Run(s, steps)) <= Rank(s) + 3 * SpuriousCount(steps)
    decreases |steps|
  {
    if steps != [] {
      StepRank(s, steps[0]);
      StepKeepsInv(s, steps[0]);
      RunIsBounded(Do(s, steps[0]), steps[1..]);
    }
  }

  // ---------- When the call returns ----------

  /** A call whose thread was never created, because of an error code it does not recognise. */
  predicate Orphaned(s: State) {
    InWaitLoop(s) && !s.spawned
  }

  lemma {:induction false} OrphanWaitsForever(s: State, steps: seq<Step>)
    requires Inv(s) && Orphaned(s) && Valid(s, steps)
    ensures Orphaned(Run(s, steps))
    decreases |steps|
  {
    if steps != [] {
      StepKeepsInv(s, steps[0]);
      OrphanWaitsForever(Do(s, steps[0]), steps[1..]);
    }
  }

  ghost predicate CanReturn(s: State) {
    exists steps :: Valid(s, steps) && Run(s, steps).loader == Idle
  }

  /** From the creation point the call can return exactly when thread creation reports success or the code 1. */
  lemma ReturnsIff(s: State, code: int)
    requires Inv(s) && s.loader == Create
    ensures CanReturn(Do(s, CreateThread(code))) <==> code == 0 || code == TXD_FAIL
  {
    var t := Do(s, CreateThread(code));
    StepKeepsInv(s, CreateThread(code));
    if code == 0 || code == TXD_FAIL {
      var steps := Finish(t);
      assert CanReturn(t);
    } else {
      forall steps | Valid(t, steps) ensures Run(t, steps).loader != Idle { OrphanWaitsForever(t, steps); }
    }
  }

  /** From any point of a call that has its thread, some run without spurious wakeups and further calls returns. */
  lemma {:induction false} Finish(s: State) returns (steps: seq<Step>)
    requires Inv(s) && (s.loader == Idle || Underway(s))
    ensures Valid(s, steps) && Run(s, steps).loader == Idle && SpuriousCount(steps) == 0 && Start !in steps
    decreases Rank(s)
  {
    if s.loader == Idle {
      steps := [];
    } else {
      SomeStepEnabled(s);
      var step := NextStep(s);
      StepRank(s, step);
      StepKeepsInv(s, step);
      var rest := Finish(Do(s, step));
      steps := [step] + rest;
      assert steps[0] == step && steps[1..] == rest;
    }
  }
}
