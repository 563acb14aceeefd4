/** src/txd_journal.c: starting the journal thread, resetting the log, and loading the journal. */
module JournalLoad {
  import opened JournalTypes
  import opened Memory
  import JournalInit
  import H = Handshake
  import I = Interleavings

  const TXD_SUCCESS := 0

  // ---------- What reset and load compute ----------

  /** The journal fields that reset and load work on. */
  datatype Log = Log(
    flags: bv64, first: nat, last: nat, head: nat, tail: nat, free: nat, maxLen: nat,
    tailSequence: Uint32, transactionSequence: Uint32, commitSequence: Uint32, commitRequest: Uint32,
    maxTransactionBuffers: int, failedCommit: nat)

  ghost function View(j: Journal): Log
    reads j
  {
    Log(j.flags, j.first, j.last, j.head, j.tail, j.free, j.maxLen,
        j.tailSequence, j.transactionSequence, j.commitSequence, j.commitRequest,
        j.maxTransactionBuffers, j.failedCommit)
  }

  predicate TooShort(sb: Superblock) {
    sb.first + TXD_MIN_JOURNAL_BLOCKS > sb.maxLen + 1
  }

  /** The log is empty and starts at the superblock's first block. */
  ghost function Emptied(v: Log, sb: Superblock): Log {
    v.(first := sb.first, last := sb.maxLen, head := sb.first, tail := sb.first,
       free := if sb.first <= sb.maxLen then sb.maxLen - sb.first else 0)
  }

  /** Sequence numbers start over from the transaction counter. */
  ghost function Renumbered(v: Log): Log {
    var commit: Uint32 := (v.transactionSequence - 1) % TWO_32;
    v.(tailSequence := v.transactionSequence, commitSequence := commit, commitRequest := commit,
       maxTransactionBuffers := v.maxLen / 4)
  }

  /** A reset of a log that is long enough. */
  ghost function Fresh(v: Log, sb: Superblock): Log {
    var w := Renumbered(Emptied(v, sb));
    if sb.start == 0 then w.(flags := w.flags | TXD_FLUSHED) else w
  }

  ghost function ResetLog(v: Log, sb: Superblock): Log {
    if TooShort(sb) then v else Fresh(v, sb)
  }

  /** One load attempt: the superblock it reads and what thread creation reports. */
  datatype Attempt = Attempt(sb: Superblock, code: int)

  predicate Succeeds(a: Attempt) {
    !TooShort(a.sb) && a.code == 0
  }

  ghost function LoadLog(v: Log, a: Attempt): Log {
    if v.failedCommit != 0 then v
    else
      var w := ResetLog(v, a.sb);
      if Succeeds(a) then AsLoaded(w) else w
  }

  ghost function AsLoaded(w: Log): Log {
    w.(flags := (w.flags & !TXD_ABORT) | TXD_LOADED)
  }

  // ---------- The functions ----------

  /** A scheduler's choice of step, when it is possible and not one wakeup too many; otherwise some step that is. */
  function Scheduled(s: H.State, choice: H.Step, wakeups: nat): (step: H.Step)
    requires H.Inv(s) && H.Underway(s) && s.loader != H.Create
    ensures H.Enabled(s, step) && step != H.Start && (step == H.Spurious ==> wakeups > 0)
    ensures H.Enabled(s, choice) && (choice == H.Spurious ==> wakeups > 0) ==> step == choice
  {
    if H.Enabled(s, choice) && (choice == H.Spurious ==> wakeups > 0) then choice
    else H.SomeStepEnabled(s); H.NextStep(s)
  }

  /** The journal is not in the middle of a call, and its wait queue is in a reachable state. */
  ghost predicate Ready(j: Journal)
    reads j`waitDoneCommit
  {
    H.Inv(j.waitDoneCommit) && j.waitDoneCommit.loader == H.Idle
  }

  /** Outside a call every thread ever created has finished. */
  lemma ThreadsDone(s: H.State)
    requires H.Inv(s) && s.loader == H.Idle
    ensures forall i :: 0 <= i < |s.threads| ==> s.threads[i] == H.TDone
  {
  }

  /** A call whose thread was created is still under way, or has returned with success. */
  ghost predicate Awaiting(s: H.State, created: nat) {
    && H.Inv(s) && s.spawned && |s.threads| == created
    && if s.loader == H.Idle then s.outcome == H.Succeeded else H.Underway(s) && s.loader != H.Create
  }

  lemma AwaitingStep(s: H.State, created: nat, step: H.Step)
    requires Awaiting(s, created) && s.loader != H.Idle && H.Enabled(s, step)
    ensures Awaiting(H.Do(s, step), created)
    ensures H.Rank(H.Do(s, step)) < H.Rank(s) + if step == H.Spurious then 3 else 0
  {
    H.StepRank(s, step);
    H.StepKeepsInv(s, step);
  }

  /** The wait loop of a call whose thread was created, up to its return, along the run the scheduler makes of it. */
  method WaitLoop(start: H.State, schedule: nat -> H.Step, wakeups: nat) returns (s: H.State, ghost steps: seq<H.Step>)
    requires Awaiting(start, |start.threads|)
    ensures Awaiting(s, |start.threads|) && s.loader == H.Idle
    ensures H.Valid(start, steps) && s == H.Run(start, steps) && H.Start !in steps
    ensures I.Follows(start, steps, schedule, wakeups)
  {
    s, steps := start, [];
    var left, k := wakeups, 0;
    while s.loader != H.Idle
      invariant Awaiting(s, |start.threads|)
      invariant H.Valid(start, steps) && s == H.Run(start, steps) && H.Start !in steps
      invariant I.Follows(start, steps, schedule, wakeups)
      invariant k == |steps| && left == wakeups - H.SpuriousCount(steps)
      decreases H.Rank(s) + 3 * left
    {
      var step := Scheduled(s, schedule(k), left);
      AwaitingStep(s, |start.threads|, step);
      I.FollowsNext(start, steps, step, schedule, wakeups);
      s, steps := H.Do(s, step), steps + [step];
      left := if step == H.Spurious then left - 1 else left;
      k := k + 1;
    }
  }

  /** The steps of a call up to its thread creation, and then those of its wait. */
  ghost predicate CallRun(before: H.State, code: int, wait: seq<H.Step>, after: H.State) {
    && H.Valid(before, [H.Start, H.CreateThread(code)] + wait)
    && after == H.Run(before, [H.Start, H.CreateThread(code)] + wait)
  }

  lemma CallRunIs(s: H.State, code: int, wait: seq<H.Step>)
    requires H.Inv(s) && s.loader == H.Idle
    requires var t := H.Do(H.Do(s, H.Start), H.CreateThread(code)); H.Valid(t, wait)
    ensures CallRun(s, code, wait, H.Run(H.Do(H.Do(s, H.Start), H.CreateThread(code)), wait))
  {
    I.Two(s, H.Start, H.CreateThread(code));
    I.RunConcat(s, [H.Start, H.CreateThread(code)], wait);
  }

  /**
   txd_journal_start_thread against any scheduler and any number of spurious wakeups.  code is what pthread_create
   returns; with a code other than these two the call never returns.  wait is what happened between the creation of the
   thread and the return.
   */
  method StartThread(j: Journal, code: int, schedule: nat -> H.Step, wakeups: nat)
    returns (err: int, ghost wait: seq<H.Step>)
    requires Ready(j) && (code == 0 || code == H.TXD_FAIL)
    modifies j`waitDoneCommit
    ensures Ready(j) && j.waitDoneCommit.condition == 1
    ensures err == if code == 0 then TXD_SUCCESS else H.TXD_FAIL
    ensures j.waitDoneCommit.outcome == if code == 0 then H.Succeeded else H.Failed
    ensures |j.waitDoneCommit.threads| == |old(j.waitDoneCommit.threads)| + if code == 0 then 1 else 0
    ensures forall i :: 0 <= i < |j.waitDoneCommit.threads| ==> j.waitDoneCommit.threads[i] == H.TDone
    ensures CallRun(old(j.waitDoneCommit), code, wait, j.waitDoneCommit)
    ensures code == 0 ==>
      I.Follows(H.Do(H.Do(old(j.waitDoneCommit), H.Start), H.CreateThread(0)), wait, schedule, wakeups)
  {
    var s0 := j.waitDoneCommit;
    H.StepKeepsInv(s0, H.Start);
    var s := H.Do(s0, H.Start);
    H.StepKeepsInv(s, H.CreateThread(code));
    s := H.Do(s, H.CreateThread(code));
    wait := [];
    if code == H.TXD_FAIL {
      j.waitDoneCommit := s;
      CallRunIs(s0, code, wait);
      ThreadsDone(s);
      return code, wait;
    }
    s, wait := WaitLoop(s, schedule, wakeups);
    CallRunIs(s0, code, wait);
    j.waitDoneCommit := s;
    ThreadsDone(s);
    return TXD_SUCCESS, wait;
  }

  /** txd_journal_update_sb_log_tail: always fails, without effect. */
  method UpdateSbLogTail(j: Journal, tail: Uint32, block: nat) returns (ret: int)
    ensures ret == H.TXD_FAIL
  {
    ret := H.TXD_FAIL;
  }

  method EmptyLog(j: Journal, sb: Superblock)
    requires !TooShort(sb)
    modifies j`first, j`last, j`head, j`tail, j`free
    ensures View(j) == Emptied(old(View(j)), sb)
  {
    j.first := sb.first;
    j.last := sb.maxLen;
    j.head := sb.first;
    j.tail := sb.first;
    j.free := sb.maxLen - sb.first;
  }

  method Renumber(j: Journal)
    modifies j`tailSequence, j`commitSequence, j`commitRequest, j`maxTransactionBuffers
    ensures View(j) == Renumbered(old(View(j)))
  {
    j.tailSequence := j.transactionSequence;
    j.commitSequence := (j.transactionSequence - 1) % TWO_32;
    j.commitRequest := j.commitSequence;
    j.maxTransactionBuffers := j.maxLen / 4;
  }

  /** The field assignments of txd_journal_reset, for a log that is long enough. */
  method ResetFields(j: Journal, sb: Superblock)
    requires !TooShort(sb)
    modifies j`flags, j`first, j`last, j`head, j`tail, j`free, j`tailSequence, j`commitSequence, j`commitRequest,
             j`maxTransactionBuffers
    ensures View(j) == Fresh(old(View(j)), sb)
  {
    EmptyLog(j, sb);
    Renumber(j);
    if sb.start == 0 {
      j.flags := j.flags | TXD_FLUSHED;
    } else {
      var ret := UpdateSbLogTail(j, j.tailSequence, j.tail);
    }
  }

  /**
   The log fields of a journal that has been reset: empty, at least 1023 blocks free, the next sequence number the
   transaction counter, the committed one the number before it, a transaction's share a quarter of the journal.
   */
  ghost predicate IsReset(j: Journal)
    reads j
  {
    && j.first == j.head == j.tail == j.superblock.first && j.last == j.superblock.maxLen
    && j.free == j.last - j.first >= 1023 && j.tailSequence == j.transactionSequence
    && j.tailSequence == (j.commitSequence + 1) % TWO_32 && j.commitRequest == j.commitSequence
    && 4 * j.maxTransactionBuffers <= j.maxLen < 4 * j.maxTransactionBuffers + 4
  }

  lemma FreshShape(j: Journal, v: Log)
    requires !TooShort(j.superblock) && View(j) == Fresh(v, j.superblock)
    ensures IsReset(j)
  {
    ResetGeometry(v, j.superblock);
  }

  method Reset(j: Journal, code: int, schedule: nat -> H.Step, wakeups: nat) returns (err: int)
    requires Ready(j) && (code == 0 || code == H.TXD_FAIL)
    modifies j`flags, j`first, j`last, j`head, j`tail, j`free, j`tailSequence, j`commitSequence, j`commitRequest,
             j`maxTransactionBuffers, j`waitDoneCommit
    ensures Ready(j) && View(j) == ResetLog(old(View(j)), j.superblock)
    ensures err == if Succeeds(Attempt(j.superblock, code)) then TXD_SUCCESS else H.TXD_FAIL
    ensures TooShort(j.superblock) ==> j.waitDoneCommit == old(j.waitDoneCommit)
    ensures !TooShort(j.superblock) ==> j.waitDoneCommit.condition == 1
    ensures err == TXD_SUCCESS ==> j.waitDoneCommit.outcome == H.Succeeded
    ensures |j.waitDoneCommit.threads| == |old(j.waitDoneCommit.threads)| + if err == TXD_SUCCESS then 1 else 0
    ensures !TooShort(j.superblock) ==> IsReset(j)
  {
    if TooShort(j.superblock) {
      return H.TXD_FAIL;
    }
    ResetFields(j, j.superblock);
    FreshShape(j, old(View(j)));
    ghost var wait;
    err, wait := StartThread(j, code, schedule, wakeups);
  }

  /** txd_journal_recover: nothing to do yet. */
  method Recover(j: Journal) returns (err: int)
    ensures err == TXD_SUCCESS
  {
    err := TXD_SUCCESS;
  }

  method MarkLoaded(j: Journal)
    modifies j`flags
    ensures View(j) == AsLoaded(old(View(j)))
  {
    j.flags := j.flags & !TXD_ABORT;
    j.flags := j.flags | TXD_LOADED;
  }

  method Load(j: Journal, code: int, schedule: nat -> H.Step, wakeups: nat) returns (err: int)
    requires Ready(j) && (code == 0 || code == H.TXD_FAIL)
    modifies j`flags, j`first, j`last, j`head, j`tail, j`free, j`tailSequence, j`commitSequence, j`commitRequest,
             j`maxTransactionBuffers, j`waitDoneCommit
    ensures Ready(j) && View(j) == LoadLog(old(View(j)), Attempt(j.superblock, code))
    ensures err == if old(j.failedCommit) == 0 && Succeeds(Attempt(j.superblock, code)) then TXD_SUCCESS else H.TXD_FAIL
    ensures err == TXD_SUCCESS ==> j.waitDoneCommit.outcome == H.Succeeded && j.waitDoneCommit.condition == 1
    ensures |j.waitDoneCommit.threads| == |old(j.waitDoneCommit.threads)| + if err == TXD_SUCCESS then 1 else 0
    ensures j.failedCommit == 0 && !TooShort(j.superblock) ==> IsReset(j)
    ensures j.failedCommit != 0 || TooShort(j.superblock) ==>
      && unchanged(j`flags, j`first, j`last, j`head, j`tail, j`free, j`tailSequence, j`commitSequence)
      && unchanged(j`commitRequest, j`maxTransactionBuffers, j`waitDoneCommit)
  {
    var recovered := Recover(j);
    if recovered != TXD_SUCCESS {
      return H.TXD_FAIL;
    }
    if j.failedCommit != 0 {
      return H.TXD_FAIL;
    }
    var reset := Reset(j, code, schedule, wakeups);
    if reset != TXD_SUCCESS {
      return H.TXD_FAIL;
    }
    MarkLoaded(j);
    return TXD_SUCCESS;
  }

  // ---------- What a reset establishes ----------

  /**
   The log is empty, has at least 1023 free blocks, its next sequence number is the transaction counter, the committed
   one is the number before it modulo 2^32, and a transaction's share is a quarter of the journal, rounded down.
   */
  lemma ResetGeometry(v: Log, sb: Superblock)
    ensures var w := ResetLog(v, sb);
      if sb.maxLen < sb.first + 1023 then w == v
      else
        && w.first <= w.head == w.tail < w.last && w.first == sb.first && w.last == sb.maxLen
        && w.free == w.last - w.first >= 1023
        && w.tailSequence == (w.commitSequence + 1) % TWO_32 && w.commitRequest == w.commitSequence
        && w.tailSequence == w.transactionSequence == v.transactionSequence && w.failedCommit == v.failedCommit
        && 4 * w.maxTransactionBuffers <= w.maxLen == v.maxLen < 4 * w.maxTransactionBuffers + 4
        && w.flags == if sb.start == 0 then v.flags | TXD_FLUSHED else v.flags
  {
    var t := v.transactionSequence;
    if t == 0 { assert (t - 1) % TWO_32 == TWO_32 - 1; } else { assert (t - 1) % TWO_32 == t - 1; }
  }

  /** Loading changes nothing after a failed commit, and otherwise nothing but the flags of a reset log. */
  lemma LoadMeaning(v: Log, a: Attempt)
    ensures var w, r := LoadLog(v, a), ResetLog(v, a.sb);
      if v.failedCommit != 0 then w == v
      else w == r.(flags := if TooShort(a.sb) || a.code != 0 then r.flags else (r.flags & !TXD_ABORT) | TXD_LOADED)
  {
  }

  /** The superblock that formatting an area of the given size prepares. */
  function Formatted(size: Uint32): Superblock {
    Superblock(BLK_SIZE, size, 1, 0, 0, 0)
  }

  /** A formatted area can be reset exactly from 1024 blocks on, and then a transaction's share fits the free space. */
  lemma FormattedResets(v: Log, size: Uint32)
    requires v.maxLen == size
    ensures !TooShort(Formatted(size)) <==> size >= 1024
    ensures size >= 1024 ==> ResetLog(v, Formatted(size)).maxTransactionBuffers <= ResetLog(v, Formatted(size)).free
  {
  }

  /** For any other superblock it fits exactly when the log starts in the first three quarters of the area. */
  lemma ShareFitsIff(v: Log, sb: Superblock)
    requires v.maxLen == sb.maxLen && !TooShort(sb)
    ensures var w := ResetLog(v, sb);
      w.maxTransactionBuffers <= w.free <==> 4 * sb.first <= 3 * sb.maxLen + 3
  {
  }

  /** An area of 10000 blocks whose log starts at block 8976 passes the length check but not that bound. */
  lemma ShareCanExceed(v: Log)
    requires v.maxLen == 10000
    ensures var sb := Superblock(BLK_SIZE, 10000, 8976, 0, 0, 0);
      !TooShort(sb) && ResetLog(v, sb).maxTransactionBuffers == 2500 && ResetLog(v, sb).free == 1024
  {
  }

  /**
   Reset takes the tail sequence from the transaction counter, which nothing has set on a new journal: the sequence
   number the superblock recorded survives a successful reset exactly when it is 0.
   */
  lemma SequenceSurvivesIff(v: Log, sb: Superblock)
    requires v.transactionSequence == 0 && v.tailSequence == sb.sequence && !TooShort(sb)
    ensures ResetLog(v, sb).tailSequence == sb.sequence <==> sb.sequence == 0
  {
  }

  // ---------- Sequences of load attempts ----------

  ghost function Loads(v: Log, attempts: seq<Attempt>): Log {
    if attempts == [] then v else LoadLog(Loads(v, attempts[..|attempts| - 1]), attempts[|attempts| - 1])
  }

  predicate SomeSucceeded(attempts: seq<Attempt>) {
    exists i :: 0 <= i < |attempts| && Succeeds(attempts[i])
  }

  predicate SomeFlushed(attempts: seq<Attempt>) {
    exists i :: 0 <= i < |attempts| && !TooShort(attempts[i].sb) && attempts[i].sb.start == 0
  }

  /** The flags after any attempts on a new journal. */
  lemma {:induction false} LoadFlags(v: Log, attempts: seq<Attempt>)
    requires v.flags == TXD_ABORT && v.failedCommit == 0
    ensures Loads(v, attempts).failedCommit == 0
    ensures Loads(v, attempts).flags ==
      (if SomeSucceeded(attempts) then TXD_LOADED else TXD_ABORT) | (if SomeFlushed(attempts) then TXD_FLUSHED else 0)
  {
    if attempts != [] {
      var n := |attempts| - 1;
      var rest, a := attempts[..n], attempts[n];
      LoadFlags(v, rest);
      assert forall i :: 0 <= i < n ==> attempts[i] == rest[i];
      assert SomeSucceeded(attempts) <==> SomeSucceeded(rest) || Succeeds(a);
      assert SomeFlushed(attempts) <==> SomeFlushed(rest) || (!TooShort(a.sb) && a.sb.start == 0);
    }
  }

  /**
   Across any load attempts on a new journal exactly one of aborted and loaded holds; loaded means that some attempt
   got through its reset and its thread start; flushed means that some reset met a superblock with start 0.
   */
  lemma LoadedOrAborted(v: Log, attempts: seq<Attempt>)
    requires v.flags == TXD_ABORT && v.failedCommit == 0
    ensures var f := Loads(v, attempts).flags;
      && (f & TXD_ABORT != 0 <==> f & TXD_LOADED == 0)
      && (f & TXD_LOADED != 0 <==> SomeSucceeded(attempts))
      && (f & TXD_FLUSHED != 0 <==> SomeFlushed(attempts))
  {
    LoadFlags(v, attempts);
  }

  /** With one superblock throughout, a journal that was ever loaded is flushed exactly when start is 0. */
  lemma FlushedIffStartZero(v: Log, attempts: seq<Attempt>, sb: Superblock)
    requires v.flags == TXD_ABORT && v.failedCommit == 0 && SomeSucceeded(attempts)
    requires forall i :: 0 <= i < |attempts| ==> attempts[i].sb == sb
    ensures Loads(v, attempts).flags & TXD_FLUSHED != 0 <==> sb.start == 0
  {
    LoadedOrAborted(v, attempts);
  }

  /** The attempts on one journal: its superblock, and one thread creation code each. */
  function Attempts(sb: Superblock, codes: seq<int>): (r: seq<Attempt>)
    ensures |r| == |codes| && forall i :: 0 <= i < |codes| ==> r[i] == Attempt(sb, codes[i])
  {
    seq(|codes|, i requires 0 <= i < |codes| => Attempt(sb, codes[i]))
  }

  /** How many attempts on a long enough log created their thread. */
  function Successes(codes: seq<int>): nat {
    if codes == [] then 0 else Successes(codes[..|codes| - 1]) + if codes[|codes| - 1] == 0 then 1 else 0
  }

  lemma {:induction false} SomeZero(codes: seq<int>)
    ensures Successes(codes) > 0 <==> 0 in codes
  {
    if codes != [] {
      SomeZero(codes[..|codes| - 1]);
      assert codes == codes[..|codes| - 1] + [codes[|codes| - 1]];
    }
  }

  lemma LoadsNext(v: Log, sb: Superblock, codes: seq<int>, k: nat)
    requires k < |codes|
    ensures Loads(v, Attempts(sb, codes[..k + 1])) == LoadLog(Loads(v, Attempts(sb, codes[..k])), Attempt(sb, codes[k]))
    ensures Successes(codes[..k + 1]) == Successes(codes[..k]) + if codes[k] == 0 then 1 else 0
  {
    assert codes[..k + 1][..k] == codes[..k];
    assert Attempts(sb, codes[..k + 1])[..k] == Attempts(sb, codes[..k]);
  }

  /** The journal after loads with these codes, from the log v: its threads are those of the successful ones. */
  ghost predicate Loaded(j: Journal, v: Log, sb: Superblock, codes: seq<int>)
    reads j
  {
    && Ready(j) && j.superblock == sb && View(j) == Loads(v, Attempts(sb, codes))
    && |j.waitDoneCommit.threads| == if TooShort(sb) then 0 else Successes(codes)
  }

  /** w is a log like v, and like a reset of it once it has been reset; flags aside. */
  ghost predicate ResetOnly(w: Log, v: Log, sb: Superblock, reset: bool) {
    && w.failedCommit == 0 && w.transactionSequence == v.transactionSequence && w.maxLen == v.maxLen
    && if reset then w.(flags := 0) == Fresh(v, sb).(flags := 0) else w == v
  }

  lemma LoadResets(w: Log, v: Log, sb: Superblock, reset: bool, code: int)
    requires ResetOnly(w, v, sb, reset) && (reset ==> !TooShort(sb))
    ensures ResetOnly(LoadLog(w, Attempt(sb, code)), v, sb, !TooShort(sb))
  {
  }

  /** After loads of a long enough log it is as the last reset left it; otherwise nothing has changed. */
  lemma {:induction false} LoadsShape(v: Log, sb: Superblock, codes: seq<int>)
    requires v.failedCommit == 0
    ensures ResetOnly(Loads(v, Attempts(sb, codes)), v, sb, !TooShort(sb) && codes != [])
  {
    if codes != [] {
      var k := |codes| - 1;
      LoadsNext(v, sb, codes, k);
      assert codes[..k + 1] == codes;
      LoadsShape(v, sb, codes[..k]);
      LoadResets(Loads(v, Attempts(sb, codes[..k])), v, sb, !TooShort(sb) && codes[..k] != [], codes[k]);
    }
  }

  lemma LoadedFlags(j: Journal, v: Log, sb: Superblock, codes: seq<int>)
    requires Loaded(j, v, sb, codes) && v.flags == TXD_ABORT && v.failedCommit == 0
    ensures j.flags & TXD_ABORT != 0 <==> j.flags & TXD_LOADED == 0
    ensures j.flags & TXD_LOADED != 0 <==> j.waitDoneCommit.threads != []
    ensures j.flags & TXD_LOADED != 0 <==> !TooShort(sb) && 0 in codes
    ensures j.flags & TXD_FLUSHED != 0 <==> !TooShort(sb) && sb.start == 0 && codes != []
  {
    var a := Attempts(sb, codes);
    LoadedOrAborted(v, a);
    SomeZero(codes);
    if 0 in codes && !TooShort(sb) {
      var i :| 0 <= i < |codes| && codes[i] == 0;
      assert Succeeds(a[i]);
    }
    if codes != [] { assert a[0].sb == sb; }
  }

  lemma LoadedShape(j: Journal, v: Log, sb: Superblock, codes: seq<int>)
    requires Loaded(j, v, sb, codes) && v.failedCommit == 0
    ensures !TooShort(sb) && codes != [] ==> IsReset(j)
    ensures TooShort(sb) || codes == [] ==> View(j) == v
  {
    LoadsShape(v, sb, codes);
    ResetGeometry(v, sb);
  }

  method LoadNext(j: Journal, codes: seq<int>, k: nat, schedule: nat -> H.Step, wakeups: nat, ghost v: Log,
                  ghost sb: Superblock)
    requires k < |codes| && (codes[k] == 0 || codes[k] == H.TXD_FAIL) && Loaded(j, v, sb, codes[..k])
    requires v.flags == TXD_ABORT && v.failedCommit == 0
    modifies j`flags, j`first, j`last, j`head, j`tail, j`free, j`tailSequence, j`commitSequence, j`commitRequest,
             j`maxTransactionBuffers, j`waitDoneCommit
    ensures Loaded(j, v, sb, codes[..k + 1])
  {
    LoadsNext(v, sb, codes, k);
    LoadFlags(v, Attempts(sb, codes[..k]));
    var err := Load(j, codes[k], schedule, wakeups);
  }

  /**
   Any loads of one new journal, against any schedulers and numbers of wakeups: afterwards it is loaded exactly when
   some attempt on a long enough log got its thread, aborted exactly when not, and all threads created have finished.
   */
  method LoadAll(j: Journal, codes: seq<int>, schedules: nat -> nat -> H.Step, wakeups: nat -> nat)
    requires JournalInit.Marked(j) && forall i :: 0 <= i < |codes| ==> codes[i] == 0 || codes[i] == H.TXD_FAIL
    modifies j`flags, j`first, j`last, j`head, j`tail, j`free, j`tailSequence, j`commitSequence, j`commitRequest,
             j`maxTransactionBuffers, j`waitDoneCommit
    ensures Ready(j) && View(j) == Loads(old(View(j)), Attempts(old(j.superblock), codes))
    ensures j.flags & TXD_ABORT != 0 <==> j.flags & TXD_LOADED == 0
    ensures j.flags & TXD_LOADED != 0 <==> !TooShort(old(j.superblock)) && 0 in codes
    ensures j.flags & TXD_LOADED != 0 <==> j.waitDoneCommit.threads != []
    ensures forall i :: 0 <= i < |j.waitDoneCommit.threads| ==> j.waitDoneCommit.threads[i] == H.TDone
    ensures j.flags & TXD_FLUSHED != 0 <==>
      !TooShort(old(j.superblock)) && old(j.superblock).start == 0 && codes != []
    ensures !TooShort(j.superblock) && codes != [] ==> IsReset(j)
    ensures TooShort(j.superblock) || codes == [] ==> View(j) == old(View(j))
  {
    ghost var v, sb := View(j), j.superblock;
    assert codes[..0] == [] && Attempts(sb, codes[..0]) == [];
    for k := 0 to |codes|
      invariant Loaded(j, v, sb, codes[..k])
    {
      LoadNext(j, codes, k, schedules(k), wakeups(k), v, sb);
    }
    assert codes[..|codes|] == codes;
    LoadedFlags(j, v, sb, codes);
    LoadedShape(j, v, sb, codes);
    ThreadsDone(j.waitDoneCommit);
  }

  lemma OneAttempt(v: Log, a: Attempt)
    requires v.flags == TXD_ABORT && v.failedCommit == 0
    ensures var f := LoadLog(v, a).flags;
      (f & TXD_LOADED != 0 <==> Succeeds(a)) && (f & TXD_ABORT != 0 <==> !Succeeds(a))
  {
    var attempts := [a];
    LoadedOrAborted(v, attempts);
    assert attempts[..0] == [] && Loads(v, attempts) == LoadLog(v, attempts[0]);
    assert SomeSucceeded(attempts) <==> Succeeds(attempts[0]);
  }

  /** A new journal after its first load: the flags tell how it went, and a log long enough is empty. */
  ghost predicate Settled(j: Journal, a: Attempt)
    reads j
  {
    && (j.flags & TXD_LOADED != 0 <==> Succeeds(a))
    && (j.flags & TXD_ABORT != 0 <==> !Succeeds(a))
    && (Succeeds(a) ==> j.waitDoneCommit.outcome == H.Succeeded && j.waitDoneCommit.condition == 1)
    && (!TooShort(a.sb) ==>
          && j.first == j.head == j.tail == a.sb.first && j.last == a.sb.maxLen && j.free == j.last - j.first >= 1023
          && j.tailSequence == 0 && j.commitSequence == j.commitRequest == TWO_32 - 1)
  }

  method LoadFirst(j: Journal, code: int, schedule: nat -> H.Step, wakeups: nat)
    requires JournalInit.Marked(j) && (code == 0 || code == H.TXD_FAIL)
    modifies j`flags, j`first, j`last, j`head, j`tail, j`free, j`tailSequence, j`commitSequence, j`commitRequest,
             j`maxTransactionBuffers, j`waitDoneCommit
    ensures Settled(j, Attempt(j.superblock, code))
  {
    OneAttempt(View(j), Attempt(j.superblock, code));
    var err := Load(j, code, schedule, wakeups);
  }

  /** The first load of a finished journal leaves all it owns alone. */
  method LoadNew(j: Journal, code: int, schedule: nat -> H.Step, wakeups: nat, ghost sb: Superblock,
                 ghost live: map<Block, nat>)
    requires JournalInit.Configured(j, sb) && (code == 0 || code == H.TXD_FAIL)
    requires JournalInit.Owned(j, sb, live) && JournalInit.Untouched(j)
    modifies j`flags, j`first, j`last, j`head, j`tail, j`free, j`tailSequence, j`commitSequence, j`commitRequest,
             j`maxTransactionBuffers, j`waitDoneCommit
    ensures Settled(j, Attempt(sb, code))
    ensures JournalInit.Owned(j, sb, live) && JournalInit.Untouched(j)
    ensures JournalInit.OwnBlocks(j) == old(JournalInit.OwnBlocks(j))
  {
    LoadFirst(j, code, schedule, wakeups);
  }

  /**
   Building a journal and loading it, as tx_begin does once the superblock is read.  It hands out the journal whatever
   the load returned; only the flags tell the caller.
   */
  method Begin(sb: Superblock, mem: Allocator, code: int, schedule: nat -> H.Step, wakeups: nat)
    returns (journal: Journal?)
    requires mem.Valid() && (code == 0 || code == H.TXD_FAIL)
    modifies mem
    ensures mem.Valid()
    ensures journal != null <==> JournalInit.AllocationsSucceed(mem.script, old(mem.calls))
    ensures journal == null ==> mem.live == old(mem.live) && mem.counter == old(mem.counter)
    ensures journal != null ==> JournalInit.Counted(old(mem.counter), mem.counter, sb)
    ensures journal != null ==> Settled(journal, Attempt(sb, code))
    ensures journal != null ==> JournalInit.Owned(journal, sb, mem.live) && JournalInit.Untouched(journal)
    ensures journal != null ==> mem.live - JournalInit.OwnBlocks(journal) == old(mem.live)
  {
    journal := JournalInit.GetJournal(sb, mem);
    if journal != null {
      LoadNew(journal, code, schedule, wakeups, sb, mem.live);
    }
  }
}
