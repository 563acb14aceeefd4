/**
 Which interleavings of the start handshake exist: what each party can do next at every point of every run, and runs
 that show the extremes.  Everything is said of the runs from the initial state.
 */
module Interleavings {
  import opened Handshake

  lemma {:induction false} RunSnoc(s: State, steps: seq<Step>, step: Step)
    requires Valid(s, steps)
    ensures Valid(s, steps + [step]) <==> Enabled(Run(s, steps), step)
    ensures Enabled(Run(s, steps), step) ==> Run(s, steps + [step]) == Do(Run(s, steps), step)
    decreases |steps|
  {
    if steps == [] {
      assert [step][1..] == [];
    } else {
      assert (steps + [step])[1..] == steps[1..] + [step];
      RunSnoc(Do(s, steps[0]), steps[1..], step);
    }
  }

  lemma {:induction false} RunConcat(s: State, a: seq<Step>, b: seq<Step>)
    requires Valid(s, a) && Valid(Run(s, a), b)
    ensures Valid(s, a + b) && Run(s, a + b) == Run(Run(s, a), b)
    decreases |a|
  {
    if a == [] {
      assert a + b == b;
    } else {
      assert (a + b)[1..] == a[1..] + b;
      RunConcat(Do(s, a[0]), a[1..], b);
    }
  }

  lemma {:induction false} WakeupsConcat(a: seq<Step>, b: seq<Step>)
    ensures SpuriousCount(a + b) == SpuriousCount(a) + SpuriousCount(b)
  {
    if a == [] {
      assert a + b == b;
    } else {
      assert (a + b)[1..] == a[1..] + b && (a + b)[0] == a[0];
      WakeupsConcat(a[1..], b);
    }
  }

  lemma {:induction false} CodesConcat(a: seq<Step>, b: seq<Step>)
    ensures Codes(a + b) == Codes(a) + Codes(b)
  {
    if a == [] {
      assert a + b == b;
    } else {
      assert (a + b)[1..] == a[1..] + b && (a + b)[0] == a[0];
      CodesConcat(a[1..], b);
    }
  }

  /** Both at once. */
  lemma Joined(s: State, a: seq<Step>, b: seq<Step>)
    requires Valid(s, a) && Valid(Run(s, a), b)
    ensures Valid(s, a + b) && Run(s, a + b) == Run(Run(s, a), b)
    ensures SpuriousCount(a + b) == SpuriousCount(a) + SpuriousCount(b) && Codes(a + b) == Codes(a) + Codes(b)
  {
    RunConcat(s, a, b);
    WakeupsConcat(a, b);
    CodesConcat(a, b);
  }

  /** The thread creation results of a run, one for each call. */
  function Codes(steps: seq<Step>): seq<int> {
    if steps == [] then [] else (if steps[0].CreateThread? then [steps[0].code] else []) + Codes(steps[1..])
  }

  // ---------- What can happen next ----------

  /** step extends the run, and leads to t. */
  ghost predicate Continues(steps: seq<Step>, step: Step, t: State)
    requires Valid(INITIAL, steps)
  {
    Valid(INITIAL, steps + [step]) && Run(INITIAL, steps + [step]) == t
  }

  /** A free mutex goes to whoever asks next, the loader or a thread, wherever the other one is. */
  lemma MutexRace(steps: seq<Step>)
    requires Valid(INITIAL, steps) && Run(INITIAL, steps).owner == Free
    ensures var s := Run(INITIAL, steps);
      && (s.loader == Lock ==> Continues(steps, LoaderLock, s.(loader := Test, owner := Loader)))
      && (s.loader == Relock ==> Continues(steps, LoaderRelock, s.(loader := Test, owner := Loader)))
      && (forall i :: 0 <= i < |s.threads| && s.threads[i] == TLock ==>
            Continues(steps, ThreadStep(i), s.(threads := s.threads[i := TClear], owner := Thread(i))))
  {
    var s := Run(INITIAL, steps);
    RunSnoc(INITIAL, steps, LoaderLock);
    RunSnoc(INITIAL, steps, LoaderRelock);
    forall i | 0 <= i < |s.threads| && s.threads[i] == TLock
      ensures Continues(steps, ThreadStep(i), s.(threads := s.threads[i := TClear], owner := Thread(i)))
    { RunSnoc(INITIAL, steps, ThreadStep(i)); }
  }

  /** A waiting loader can wake up at any moment, with nobody else moving. */
  lemma WakesAnyTime(steps: seq<Step>)
    requires Valid(INITIAL, steps) && Run(INITIAL, steps).loader == Waiting
    ensures var s := Run(INITIAL, steps); Continues(steps, Spurious, s.(loader := Relock))
  {
    RunSnoc(INITIAL, steps, Spurious);
  }

  /** A step the loader takes by itself. */
  predicate OwnStep(step: Step) {
    step != Spurious && !step.ThreadStep?
  }

  function LoaderStep(s: State): Step {
    match s.loader
    case Idle => Start
    case Create => CreateThread(0)
    case Lock => LoaderLock
    case Relock => LoaderRelock
    case Bump => LoaderBump
    case Unlock => LoaderUnlock
    case _ => LoaderTest
  }

  lemma LoaderCan(s: State)
    requires Inv(s)
    ensures OwnStep(LoaderStep(s))
    ensures (exists step :: OwnStep(step) && Enabled(s, step)) <==> Enabled(s, LoaderStep(s))
    ensures Enabled(s, LoaderStep(s)) <==>
      s.loader != Waiting && ((s.loader == Lock || s.loader == Relock) ==> s.owner == Free)
  {
  }

  lemma OwnedBy(s: State)
    requires Inv(s) && (s.loader == Lock || s.loader == Relock)
    ensures s.owner == Free <==> !exists i :: 0 <= i < |s.threads| && ThreadInside(s, i)
  {
    if s.owner.Thread? { assert ThreadInside(s, s.owner.i); }
  }

  /** The loader is held up exactly while it waits, or wants the mutex while a thread is between lock and unlock. */
  lemma LoaderMoves(steps: seq<Step>)
    requires Valid(INITIAL, steps)
    ensures var s := Run(INITIAL, steps);
      (exists step :: OwnStep(step) && Valid(INITIAL, steps + [step])) <==>
        !(s.loader == Waiting || ((s.loader == Lock || s.loader == Relock)
                                  && exists i :: 0 <= i < |s.threads| && ThreadInside(s, i)))
  {
    RunKeepsInv(INITIAL, steps);
    var s := Run(INITIAL, steps);
    forall step ensures Valid(INITIAL, steps + [step]) <==> Enabled(s, step) { RunSnoc(INITIAL, steps, step); }
    LoaderCan(s);
    if s.loader == Lock || s.loader == Relock { OwnedBy(s); }
  }

  lemma ThreadCan(s: State, i: nat)
    requires Inv(s) && i < |s.threads|
    ensures Enabled(s, ThreadStep(i)) <==> s.threads[i] != TDone && !(s.threads[i] == TLock && LoaderInside(s))
  {
    if s.owner.Thread? { assert ThreadInside(s, s.owner.i); }
  }

  /** A thread is held up exactly when it is done, or wants the mutex while the loader is between lock and unlock. */
  lemma ThreadMoves(steps: seq<Step>, i: nat)
    requires Valid(INITIAL, steps) && i < |Run(INITIAL, steps).threads|
    ensures var s := Run(INITIAL, steps);
      Valid(INITIAL, steps + [ThreadStep(i)]) <==>
        s.threads[i] != TDone && !(s.threads[i] == TLock && LoaderInside(s))
  {
    RunKeepsInv(INITIAL, steps);
    RunSnoc(INITIAL, steps, ThreadStep(i));
    ThreadCan(Run(INITIAL, steps), i);
  }

  /** Thread creation may come back with any code; only 0 brings a thread, and only 1 ends the call. */
  lemma AnyCode(steps: seq<Step>, code: int)
    requires Valid(INITIAL, steps) && Run(INITIAL, steps).loader == Create
    ensures var s := Run(INITIAL, steps);
      Continues(steps, CreateThread(code),
                if code == 0 then s.(loader := Lock, threads := s.threads + [TLock], spawned := true)
                else if code == 1 then s.(loader := Idle, outcome := Failed)
                else s.(loader := Lock))
  {
    RunSnoc(INITIAL, steps, CreateThread(code));
  }

  /** What a thread step may write. */
  ghost predicate WritesOfThread(s: State, t: State, i: nat) {
    && i < |s.threads| == |t.threads| && t.threads == s.threads[i := t.threads[i]]
    && t.threads[i] != s.threads[i] && t.outcome == s.outcome && t.spawned == s.spawned
    && (t.condition != s.condition ==> t.condition == 0 && s.owner == Thread(i) == t.owner)
    && (t.loader != s.loader ==> s.loader == Waiting && t.loader == Relock && s.condition == 0)
  }

  lemma ThreadIsLocal(s: State, i: nat)
    requires Inv(s) && Enabled(s, ThreadStep(i))
    ensures WritesOfThread(s, Do(s, ThreadStep(i)), i)
  {
    assert ThreadInside(s, i) <==> s.owner == Thread(i);
  }

  /**
   Each party writes only its own: a thread step moves that thread alone and changes the flag only to 0 and under the
   mutex; it moves the loader only out of its wait, and then the flag is already 0.  No loader step moves a thread.
   */
  lemma StepsAreLocal(steps: seq<Step>, step: Step)
    requires Valid(INITIAL, steps + [step]) && Valid(INITIAL, steps)
    ensures var s, t := Run(INITIAL, steps), Run(INITIAL, steps + [step]);
      && (step.ThreadStep? ==> WritesOfThread(s, t, step.i))
      && (!step.ThreadStep? ==> t.threads == s.threads || (step == CreateThread(0) && t.threads == s.threads + [TLock]))
  {
    RunKeepsInv(INITIAL, steps);
    RunSnoc(INITIAL, steps, step);
    if step.ThreadStep? { ThreadIsLocal(Run(INITIAL, steps), step.i); }
  }

  // ---------- Extreme runs ----------

  lemma One(s: State, step: Step)
    requires Enabled(s, step)
    ensures Valid(s, [step]) && Run(s, [step]) == Do(s, step)
    ensures SpuriousCount([step]) == (if step == Spurious then 1 else 0)
    ensures Codes([step]) == if step.CreateThread? then [step.code] else []
  {
    assert [step][1..] == [];
  }

  lemma Two(s: State, a: Step, b: Step)
    requires Enabled(s, a) && Enabled(Do(s, a), b)
    ensures Valid(s, [a, b]) && Run(s, [a, b]) == Do(Do(s, a), b)
    ensures SpuriousCount([a, b]) == (if a == Spurious then 1 else 0) + if b == Spurious then 1 else 0
    ensures Codes([a, b]) == (if a.CreateThread? then [a.code] else []) + if b.CreateThread? then [b.code] else []
  {
    One(Do(s, a), b);
    assert [a, b][1..] == [b];
  }

  /** Wake up, get the mutex, find the flag set and wait again: n times over. */
  lemma {:induction false} WakeInVain(s: State, n: nat) returns (steps: seq<Step>)
    requires s.loader == Waiting && s.owner == Free && s.condition != 0
    ensures Valid(s, steps) && Run(s, steps) == s && SpuriousCount(steps) == n && Codes(steps) == []
  {
    steps := [];
    if n > 0 {
      var rest := WakeInVain(s, n - 1);
      var round := [Spurious] + [LoaderRelock, LoaderTest];
      One(s, Spurious);
      Two(Do(s, Spurious), LoaderRelock, LoaderTest);
      Joined(s, [Spurious], [LoaderRelock, LoaderTest]);
      Joined(s, round, rest);
      steps := round + rest;
    }
  }

  lemma AtRest(s: State)
    requires Inv(s) && s.loader == Idle
    ensures s.owner == Free
  {
    assert s.owner.Thread? ==> ThreadInside(s, s.owner.i);
  }

  /** A call whose thread was just created waits through n spurious wakeups and returns. */
  lemma WaitThrough(t: State, n: nat) returns (steps: seq<Step>)
    requires Inv(t) && t.loader == Lock && t.owner == Free && t.spawned && t.condition == 1
    ensures Valid(t, steps) && Codes(steps) == [] && SpuriousCount(steps) == n
    ensures var u := Run(t, steps);
      Inv(u) && u.loader == Idle && u.outcome == Succeeded && |u.threads| == |t.threads|
  {
    var wait := [LoaderLock, LoaderTest];
    Two(t, LoaderLock, LoaderTest);
    RunKeepsInv(t, wait);
    var w := Run(t, wait);
    var vain := WakeInVain(w, n);
    var rest := Finish(w);
    FinishKeeps(w, rest);
    Joined(t, wait, vain);
    Joined(t, wait + vain, rest);
    steps := wait + vain + rest;
  }

  /** From idle, a call with the given creation result and, if it waits at all, exactly n spurious wakeups. */
  lemma OneCall(s: State, code: int, n: nat) returns (steps: seq<Step>)
    requires Inv(s) && s.loader == Idle && (code == 0 || code == TXD_FAIL)
    ensures Valid(s, steps) && Codes(steps) == [code] && SpuriousCount(steps) == if code == 0 then n else 0
    ensures var t := Run(s, steps);
      && Inv(t) && t.loader == Idle && t.outcome == (if code == 0 then Succeeded else Failed)
      && |t.threads| == |s.threads| + if code == 0 then 1 else 0
  {
    var open := [Start, CreateThread(code)];
    AtRest(s);
    Two(s, Start, CreateThread(code));
    RunKeepsInv(s, open);
    steps := open;
    if code == 0 {
      var rest := WaitThrough(Run(s, open), n);
      Joined(s, open, rest);
      steps := open + rest;
    }
  }

  /** Outside a call only a new call can begin. */
  lemma IdleStarts(s: State, steps: seq<Step>)
    requires Inv(s) && s.loader == Idle && Valid(s, steps)
    ensures steps == [] || Start in steps
  {
    assert steps != [] ==> Enabled(s, steps[0]) && steps[0] in steps;
  }

  lemma CallStep(s: State, step: Step)
    requires Inv(s) && Underway(s) && s.loader != Create && Enabled(s, step)
    ensures var t := Do(s, step);
      && Inv(t) && |t.threads| == |s.threads| && !step.CreateThread?
      && (if t.loader == Idle then t.outcome == Succeeded else Underway(t) && t.loader != Create)
  {
    StepKeepsInv(s, step);
  }

  /** A run that finishes a call with its thread creates no other thread and ends in success. */
  lemma {:induction false} FinishKeeps(s: State, steps: seq<Step>)
    requires Inv(s) && Underway(s) && s.loader != Create && Valid(s, steps) && Run(s, steps).loader == Idle
    requires SpuriousCount(steps) == 0 && Start !in steps
    ensures Inv(Run(s, steps)) && Run(s, steps).outcome == Succeeded && |Run(s, steps).threads| == |s.threads|
    ensures Codes(steps) == []
    decreases |steps|
  {
    if steps != [] {
      CallStep(s, steps[0]);
      if Do(s, steps[0]).loader == Idle {
        IdleStarts(Do(s, steps[0]), steps[1..]);
      } else {
        FinishKeeps(Do(s, steps[0]), steps[1..]);
      }
    }
  }

  datatype Call = Call(code: int, wakeups: nat)

  function Wakeups(calls: seq<Call>): nat {
    if calls == [] then 0
    else Wakeups(calls[..|calls| - 1]) + if calls[|calls| - 1].code == 0 then calls[|calls| - 1].wakeups else 0
  }

  function Created(calls: seq<Call>): nat {
    if calls == [] then 0 else Created(calls[..|calls| - 1]) + if calls[|calls| - 1].code == 0 then 1 else 0
  }

  /** One more call at the end of a run that is idle. */
  lemma OneMore(before: seq<Step>, code: int, n: nat) returns (steps: seq<Step>)
    requires Valid(INITIAL, before) && Run(INITIAL, before).loader == Idle && (code == 0 || code == TXD_FAIL)
    ensures Valid(INITIAL, steps) && Codes(steps) == Codes(before) + [code]
    ensures SpuriousCount(steps) == SpuriousCount(before) + if code == 0 then n else 0
    ensures var s, t := Run(INITIAL, before), Run(INITIAL, steps);
      && t.loader == Idle && t.outcome == (if code == 0 then Succeeded else Failed)
      && |t.threads| == |s.threads| + if code == 0 then 1 else 0
  {
    RunKeepsInv(INITIAL, before);
    var call := OneCall(Run(INITIAL, before), code, n);
    Joined(INITIAL, before, call);
    steps := before + call;
  }

  /** Any number of calls, each with either result and any number of wakeups while it waits, is a run. */
  lemma {:induction false} AnyCalls(calls: seq<Call>) returns (steps: seq<Step>)
    requires forall i :: 0 <= i < |calls| ==> calls[i].code == 0 || calls[i].code == TXD_FAIL
    ensures Valid(INITIAL, steps) && |Codes(steps)| == |calls| && SpuriousCount(steps) == Wakeups(calls)
    ensures forall i :: 0 <= i < |calls| ==> Codes(steps)[i] == calls[i].code
    ensures var s := Run(INITIAL, steps);
      && s.loader == Idle && |s.threads| == Created(calls)
      && (calls != [] ==> s.outcome == if calls[|calls| - 1].code == 0 then Succeeded else Failed)
    decreases |calls|
  {
    steps := [];
    if calls != [] {
      var last := calls[|calls| - 1];
      var before := AnyCalls(calls[..|calls| - 1]);
      steps := OneMore(before, last.code, last.wakeups);
    }
  }

  /** For every n some run has a call with exactly n spurious wakeups that ends in success. */
  lemma AnyWakeups(n: nat) returns (steps: seq<Step>)
    ensures Valid(INITIAL, steps) && SpuriousCount(steps) == n && Codes(steps) == [0]
    ensures Run(INITIAL, steps).loader == Idle && Run(INITIAL, steps).outcome == Succeeded
  {
    steps := OneCall(INITIAL, 0, n);
  }

  function FirstStep(j: nat): Step {
    match j
    case 0 => Start
    case 1 => CreateThread(0)
    case 6 => LoaderLock
    case 7 => LoaderTest
    case 8 => LoaderBump
    case 9 => LoaderUnlock
    case _ => ThreadStep(0)
  }

  function FirstState(j: nat): State {
    match j
    case 0 => INITIAL
    case 1 => State(Create, 1, Free, [], false, Unknown)
    case 2 => State(Lock, 1, Free, [TLock], true, Unknown)
    case 3 => State(Lock, 1, Thread(0), [TClear], true, Unknown)
    case 4 => State(Lock, 0, Thread(0), [TSignal], true, Unknown)
    case 5 => State(Lock, 0, Thread(0), [TUnlock], true, Unknown)
    case 6 => State(Lock, 0, Free, [TDone], true, Unknown)
    case 7 => State(Test, 0, Loader, [TDone], true, Unknown)
    case 8 => State(Bump, 0, Loader, [TDone], true, Unknown)
    case 9 => State(Unlock, 1, Loader, [TDone], true, Unknown)
    case _ => State(Idle, 1, Free, [TDone], true, Succeeded)
  }

  /** The run that goes through these states. */
  lemma {:induction false} FirstRun(steps: seq<Step>, j: nat)
    requires j <= |steps| <= 10 && forall i :: 0 <= i < |steps| ==> steps[i] == FirstStep(i)
    ensures Valid(INITIAL, steps[..j]) && Run(INITIAL, steps[..j]) == FirstState(j)
  {
    if j > 0 {
      FirstRun(steps, j - 1);
      assert Enabled(FirstState(j - 1), FirstStep(j - 1));
      assert Do(FirstState(j - 1), FirstStep(j - 1)) == FirstState(j);
      assert steps[..j] == steps[..j - 1] + [steps[j - 1]];
      RunSnoc(INITIAL, steps[..j - 1], steps[j - 1]);
    }
  }

  /** The new thread can be done before the loader even locks, and then the loader never waits. */
  lemma ThreadFirst() returns (steps: seq<Step>, k: nat)
    ensures Valid(INITIAL, steps) && Run(INITIAL, steps).loader == Idle && Run(INITIAL, steps).outcome == Succeeded
    ensures k < |steps| && steps[k] == LoaderLock && LoaderLock !in steps[..k] && LoaderLock !in steps[k + 1..]
    ensures Valid(INITIAL, steps[..k]) && Run(INITIAL, steps[..k]).threads == [TDone]
    ensures forall j :: 0 <= j <= |steps| ==>
      Valid(INITIAL, steps[..j]) && Run(INITIAL, steps[..j]).loader != Waiting
  {
    steps, k := seq(10, i requires 0 <= i < 10 => FirstStep(i)), 6;
    forall j | 0 <= j <= 10 ensures Valid(INITIAL, steps[..j]) && Run(INITIAL, steps[..j]) == FirstState(j) {
      FirstRun(steps, j);
    }
    assert steps[..10] == steps;
  }

  // ---------- Schedules ----------

  /** A run takes the scheduled step wherever it can and no more spurious wakeups than allowed. */
  ghost predicate Follows(s: State, steps: seq<Step>, schedule: nat -> Step, wakeups: nat) {
    && SpuriousCount(steps) <= wakeups
    && forall k :: 0 <= k < |steps| ==>
         Valid(s, steps[..k]) && Takes(Run(s, steps[..k]), steps, k, schedule(k), wakeups)
  }

  ghost predicate Takes(t: State, steps: seq<Step>, k: nat, choice: Step, wakeups: nat)
    requires k < |steps|
  {
    Enabled(t, choice) && (choice == Spurious ==> SpuriousCount(steps[..k]) < wakeups) ==> steps[k] == choice
  }

  lemma FollowsNext(s: State, steps: seq<Step>, step: Step, schedule: nat -> Step, wakeups: nat)
    requires Valid(s, steps) && Follows(s, steps, schedule, wakeups) && Enabled(Run(s, steps), step)
    requires step == Spurious ==> SpuriousCount(steps) < wakeups
    requires var choice := schedule(|steps|);
      Enabled(Run(s, steps), choice) && (choice == Spurious ==> SpuriousCount(steps) < wakeups) ==> step == choice
    ensures Valid(s, steps + [step]) && Run(s, steps + [step]) == Do(Run(s, steps), step)
    ensures Follows(s, steps + [step], schedule, wakeups)
    ensures SpuriousCount(steps + [step]) == SpuriousCount(steps) + if step == Spurious then 1 else 0
  {
    var more := steps + [step];
    RunSnoc(s, steps, step);
    WakeupsConcat(steps, [step]);
    One(Run(s, steps), step);
    assert more[..|steps|] == steps;
    forall k | 0 <= k < |more|
      ensures Valid(s, more[..k]) && Takes(Run(s, more[..k]), more, k, schedule(k), wakeups)
    {
      if k < |steps| { assert more[..k] == steps[..k] && Takes(Run(s, steps[..k]), steps, k, schedule(k), wakeups); }
    }
  }

  lemma {:induction false} PrefixValid(s: State, steps: seq<Step>, k: nat)
    requires Valid(s, steps) && k < |steps|
    ensures Valid(s, steps[..k]) && Enabled(Run(s, steps[..k]), steps[k])
    ensures SpuriousCount(steps[..k]) + (if steps[k] == Spurious then 1 else 0) <= SpuriousCount(steps)
    decreases |steps|
  {
    if k > 0 {
      assert steps[..k][1..] == steps[1..][..k - 1];
      PrefixValid(Do(s, steps[0]), steps[1..], k - 1);
    }
  }

  /** The schedule that asks for the steps of a run. */
  function ScheduleOf(run: seq<Step>): nat -> Step {
    (i: nat) => if i < |run| then run[i] else Start
  }

  lemma {:induction false} ReplaysPrefix(s: State, run: seq<Step>, steps: seq<Step>, k: nat)
    requires Valid(s, run) && Follows(s, steps, ScheduleOf(run), SpuriousCount(run)) && k <= |steps| && k <= |run|
    ensures steps[..k] == run[..k]
    decreases k
  {
    if k > 0 {
      var n := k - 1;
      ReplaysPrefix(s, run, steps, n);
      PrefixValid(s, run, n);
      assert Takes(Run(s, steps[..n]), steps, n, ScheduleOf(run)(n), SpuriousCount(run));
      assert steps[..k] == steps[..n] + [steps[n]] && run[..k] == run[..n] + [run[n]];
    }
  }

  lemma {:induction false} ValidSplit(s: State, steps: seq<Step>, k: nat)
    requires Valid(s, steps) && k <= |steps|
    ensures Valid(s, steps[..k]) && Valid(Run(s, steps[..k]), steps[k..])
    decreases k
  {
    if k > 0 {
      assert steps[..k][1..] == steps[1..][..k - 1] && steps[1..][k - 1..] == steps[k..];
      ValidSplit(Do(s, steps[0]), steps[1..], k - 1);
    }
  }

  /** A run that has come to the end of a call, within a longer one without further calls, is all of it. */
  lemma NothingFollows(s: State, short: seq<Step>, long: seq<Step>)
    requires Inv(s) && Valid(s, long) && |short| <= |long| && short == long[..|short|] && Start !in long
    requires Valid(s, short) && Run(s, short).loader == Idle
    ensures short == long
  {
    ValidSplit(s, long, |short|);
    RunKeepsInv(s, short);
    IdleStarts(Run(s, short), long[|short|..]);
    assert long == short + long[|short|..];
  }

  /** No run of a call is out of a scheduler's reach: what follows the schedule of a run is that run. */
  lemma EveryRunIsScheduled(s: State, run: seq<Step>, steps: seq<Step>)
    requires Inv(s) && Valid(s, run) && Valid(s, steps) && Follows(s, steps, ScheduleOf(run), SpuriousCount(run))
    requires Start !in run && Start !in steps && Run(s, run).loader == Idle && Run(s, steps).loader == Idle
    ensures steps == run
  {
    var k := if |steps| <= |run| then |steps| else |run|;
    ReplaysPrefix(s, run, steps, k);
    if |steps| <= |run| { NothingFollows(s, steps, run); } else { NothingFollows(s, run, steps); }
  }
}
