/** The interleavings of the verification queue: what every step keeps, what Wait returns, and why
    it returns at all. */
module CheckQueueRuns {
  import opened CheckQueue

  /** `added` is the history of the checks added since Wait last returned. */
  datatype State = State(shared: Shared, threads: seq<Thread>, added: seq<Job>)

  // ----- steps -----

  /** notify_one on the master's condition variable. */
  function MasterNotified(threads: seq<Thread>): seq<Thread>
    requires |threads| > 0
  {
    if threads[0] == Waiting(false) then threads[0 := Waiting(true)] else threads
  }

  /** notify_one on the workers' condition variable: one sleeping worker, if there is one. */
  ghost predicate OneNotified(threads: seq<Thread>, threads': seq<Thread>) {
    || (threads' == threads && forall i :: 0 < i < |threads| ==> threads[i] != Waiting(false))
    || exists i :: 0 < i < |threads| && threads[i] == Waiting(false) && threads' == threads[i := Waiting(true)]
  }

  /** notify_all on the workers' condition variable. */
  function AllNotified(threads: seq<Thread>): seq<Thread> {
    seq(|threads|, i requires 0 <= i < |threads| =>
      if i > 0 && threads[i] == Waiting(false) then Waiting(true) else threads[i])
  }

  ghost predicate AddStep(s: State, jobs: seq<Job>, s': State) {
    && |s.threads| > 0 && s.threads[0] == Outside
    && s'.shared == s.shared.(queue := s.shared.queue + jobs, todo := s.shared.todo + |jobs|)
    && s'.added == s.added + jobs
    && (if |jobs| == 0 then s'.threads == s.threads
        else if |jobs| == 1 then OneNotified(s.threads, s'.threads)
        else s'.threads == AllNotified(s.threads))
  }

  /** The master calls Wait. */
  ghost predicate CallStep(s: State, s': State) {
    |s.threads| > 0 && s.threads[0] == Outside && s' == s.(threads := s.threads[0 := Entering])
  }

  /** Thread i goes on from the test of the queue. */
  function Continued(s: State, limit: nat, i: nat): State
    requires i < |s.threads|
  {
    var (shared, decision) := Decided(s.shared, limit, i == 0);
    match decision
    case Return(verdict) => State(shared, s.threads[i := Outside], [])
    case Sleep => State(shared, s.threads[i := Waiting(false)], s.added)
    case Take(batch) => State(shared, s.threads[i := Working(|batch|, batch, shared.allOk)], s.added)
  }

  /** The state in which thread i, holding the mutex, tests the queue. */
  function AtTest(s: State, i: nat): (m: State)
    requires i < |s.threads|
    ensures |m.threads| == |s.threads|
  {
    match s.threads[i]
    case Outside => s
    case Entering => s.(shared := s.shared.(total := s.shared.total + 1))
    case Waiting(_) => s.(shared := s.shared.(idle := s.shared.idle - 1))
    case Working(size, rest, ok) =>
      var shared := Finished(s.shared, size, ok);
      s.(shared := shared,
         threads := if shared.todo == 0 && i != 0 then MasterNotified(s.threads) else s.threads)
  }

  /** One step of thread i: a check, or a critical section. A sleeping thread may also wake
      without having been notified. */
  function Ran(s: State, limit: nat, i: nat): State
    requires i < |s.threads| && s.threads[i] != Outside
  {
    var t := s.threads[i];
    if t.Working? && |t.rest| > 0 then
      s.(threads := s.threads[i := Working(t.size, t.rest[1..], if t.ok then t.rest[0].ok else t.ok)])
    else
      Continued(AtTest(s, i), limit, i)
  }

  /** A critical section of thread i, as Loop performs it, is its step: it changes the fields, moves the thread,
      and notifies the master. */
  lemma SectionIsStep(s: State, limit: nat, i: nat)
    requires i < |s.threads| && s.threads[i] != Outside
    requires s.threads[i].Working? ==> |s.threads[i].rest| == 0
    ensures var r := Section(s.shared, limit, i == 0, s.threads[i]);
      Ran(s, limit, i) == State(
        r.shared,
        (if r.notifies then MasterNotified(s.threads) else s.threads)[i := r.Next()],
        if r.decision.Return? then [] else s.added)
  {
  }

  /** Running a batch check by check is what Loop does with it outside the mutex. */
  function CheckByCheck(t: Thread): Thread
    requires t.Working?
    decreases |t.rest|
  {
    if |t.rest| == 0 then t
    else CheckByCheck(Working(t.size, t.rest[1..], if t.ok then t.rest[0].ok else t.ok))
  }

  lemma {:induction false} BatchIsExecuted(t: Thread)
    requires t.Working?
    ensures CheckByCheck(t) == Executed(t)
    decreases |t.rest|
  {
    if |t.rest| > 0 {
      var ok := if t.ok then t.rest[0].ok else t.ok;
      BatchIsExecuted(Working(t.size, t.rest[1..], ok));
      assert t.rest == [t.rest[0]] + t.rest[1..];
    }
  }

  datatype Event = Add(jobs: seq<Job>) | CallWait | Run(i: nat)

  ghost predicate Step(s: State, limit: nat, e: Event, s': State) {
    match e
    case Add(jobs) => AddStep(s, jobs, s')
    case CallWait => CallStep(s, s')
    case Run(i) => i < |s.threads| && s.threads[i] != Outside && s' == Ran(s, limit, i)
  }

  /** The master's step by which Wait returns. */
  ghost predicate Returns(s: State, limit: nat, e: Event, s': State, verdict: bool) {
    && e == Run(0) && Step(s, limit, e, s') && s'.threads[0] == Outside
    && (s.threads[0].Working? ==> |s.threads[0].rest| == 0)
    && Decided(AtTest(s, 0).shared, limit, true).1 == Return(verdict)
  }

  // ----- the invariant -----

  ghost function Sum(threads: seq<Thread>, f: Thread -> int): int {
    if |threads| == 0 then 0 else Sum(threads[..|threads| - 1], f) + f(threads[|threads| - 1])
  }

  lemma {:induction false} SumUpdate(threads: seq<Thread>, i: nat, t: Thread, f: Thread -> int)
    requires i < |threads|
    ensures Sum(threads[i := t], f) == Sum(threads, f) - f(threads[i]) + f(t)
    decreases |threads|
  {
    var n := |threads| - 1;
    if i < n {
      SumUpdate(threads[..n], i, t, f);
      assert threads[i := t][..n] == threads[..n][i := t];
    } else {
      assert threads[i := t][..n] == threads[..n];
    }
  }

  lemma {:induction false} SumEqual(a: seq<Thread>, b: seq<Thread>, f: Thread -> int)
    requires |a| == |b| && forall i :: 0 <= i < |a| ==> f(a[i]) == f(b[i])
    ensures Sum(a, f) == Sum(b, f)
    decreases |a|
  {
    if |a| > 0 { SumEqual(a[..|a| - 1], b[..|b| - 1], f); }
  }

  lemma {:induction false} SumPositive(threads: seq<Thread>, f: Thread -> int)
    requires forall t :: f(t) >= 0
    ensures Sum(threads, f) >= 0
    ensures Sum(threads, f) > 0 ==> exists i :: 0 <= i < |threads| && f(threads[i]) > 0
    ensures forall i :: 0 <= i < |threads| ==> f(threads[i]) <= Sum(threads, f)
    decreases |threads|
  {
    if |threads| > 0 {
      var n := |threads| - 1;
      SumPositive(threads[..n], f);
      assert forall i :: 0 <= i < n ==> threads[..n][i] == threads[i];
    }
  }

  /** Checks a thread is responsible for. */
  function Held(t: Thread): int { if t.Working? then t.size else 0 }

  function Inside(t: Thread): int { if t.Working? || t.Waiting? then 1 else 0 }

  function Asleep(t: Thread): int { if t.Waiting? then 1 else 0 }

  /** The verdict of the batch a thread holds. */
  predicate Good(t: Thread) {
    t.Working? ==> t.ok && AllOk(t.rest)
  }

  predicate AllGood(threads: seq<Thread>) {
    forall i :: 0 <= i < |threads| ==> Good(threads[i])
  }

  ghost predicate Counts(s: State) {
    && s.shared.todo == |s.shared.queue| + Sum(s.threads, Held)
    && s.shared.total == Sum(s.threads, Inside)
    && s.shared.idle == Sum(s.threads, Asleep)
    && s.shared.todo <= |s.added|
  }

  /** Nothing that was added is forgotten, although batches are skipped after a failure. */
  ghost predicate Tells(s: State) {
    AllOk(s.added) <==> s.shared.allOk && AllOk(s.shared.queue) && AllGood(s.threads)
  }

  ghost predicate Shaped(threads: seq<Thread>) {
    && |threads| > 0
    && (forall i :: 0 < i < |threads| ==> threads[i] != Outside)
    && (forall i :: 0 <= i < |threads| && threads[i].Working? ==>
      threads[i].size > 0 && |threads[i].rest| <= threads[i].size)
  }

  /** A sleeping master that has not been notified has something to wait for. */
  ghost predicate MasterMayWait(s: State)
    requires |s.threads| > 0
  {
    s.threads[0] == Waiting(false) ==> |s.shared.queue| == 0 && s.shared.todo > 0
  }

  /** While there are checks in the queue, the workers are not all asleep. */
  ghost predicate WorkersWake(s: State) {
    |s.shared.queue| > 0 && |s.threads| > 1 ==> exists i :: 0 < i < |s.threads| && s.threads[i] != Waiting(false)
  }

  ghost predicate Inv(s: State) {
    && Shaped(s.threads) && Counts(s) && Tells(s) && MasterMayWait(s) && WorkersWake(s)
  }

  /** Before anything has happened: N workers about to enter their loops. */
  function Initial(workers: nat): State {
    State(Shared([], 0, 0, true, 0), [Outside] + seq(workers, _ => Entering), [])
  }

  // ----- every step keeps it -----

  lemma AllOkConcat(a: seq<Job>, b: seq<Job>)
    ensures AllOk(a + b) <==> AllOk(a) && AllOk(b)
  {
    if AllOk(a + b) {
      forall i | 0 <= i < |a| ensures a[i].ok { assert (a + b)[i] == a[i]; }
      forall i | 0 <= i < |b| ensures b[i].ok { assert (a + b)[|a| + i] == b[i]; }
    }
  }

  lemma {:induction false} SumOfEntering(n: nat, f: Thread -> int)
    requires f(Entering) == 0 && f(Outside) == 0
    ensures Sum([Outside] + seq(n, _ => Entering), f) == 0
  {
    var threads := [Outside] + seq(n, _ => Entering);
    if n > 0 {
      SumOfEntering(n - 1, f);
      assert threads[..n] == [Outside] + seq(n - 1, _ => Entering);
    } else {
      assert threads[..0] == [];
    }
  }

  lemma InitialInv(workers: nat)
    ensures Inv(Initial(workers))
  {
    SumOfEntering(workers, Held);
    SumOfEntering(workers, Inside);
    SumOfEntering(workers, Asleep);
  }

  lemma NotifiedSums(a: seq<Thread>, b: seq<Thread>)
    requires |a| == |b|
    requires forall i :: 0 <= i < |a| ==> b[i] == a[i] || (a[i] == Waiting(false) && b[i] == Waiting(true))
    ensures Sum(b, Held) == Sum(a, Held) && Sum(b, Inside) == Sum(a, Inside) && Sum(b, Asleep) == Sum(a, Asleep)
    ensures AllGood(b) <==> AllGood(a)
    ensures Shaped(a) ==> Shaped(b)
  {
    SumEqual(a, b, Held);
    SumEqual(a, b, Inside);
    SumEqual(a, b, Asleep);
    forall i | 0 <= i < |a| ensures Good(b[i]) <==> Good(a[i]) {}
  }

  lemma AddNotifies(s: State, jobs: seq<Job>, s': State)
    requires AddStep(s, jobs, s')
    ensures |s'.threads| == |s.threads| && s'.threads[0] == Outside
    ensures forall i :: 0 <= i < |s.threads| ==>
      s'.threads[i] == s.threads[i] || (s.threads[i] == Waiting(false) && s'.threads[i] == Waiting(true))
    ensures |jobs| > 0 && |s.threads| > 1 ==> exists i :: 0 < i < |s.threads| && s'.threads[i] != Waiting(false)
  {
    if |jobs| > 0 && |s.threads| > 1 { assert s'.threads[1] != Waiting(false) || |jobs| == 1; }
  }

  lemma AddKeeps(s: State, jobs: seq<Job>, s': State)
    requires Inv(s) && AddStep(s, jobs, s')
    ensures Inv(s')
  {
    AddNotifies(s, jobs, s');
    NotifiedSums(s.threads, s'.threads);
    AllOkConcat(s.added, jobs);
    AllOkConcat(s.shared.queue, jobs);
    if |jobs| == 0 {
      assert s.shared.queue + jobs == s.shared.queue;
    }
  }

  lemma Replace(threads: seq<Thread>, i: nat, t: Thread)
    requires i < |threads|
    ensures Sum(threads[i := t], Held) == Sum(threads, Held) - Held(threads[i]) + Held(t)
    ensures Sum(threads[i := t], Inside) == Sum(threads, Inside) - Inside(threads[i]) + Inside(t)
    ensures Sum(threads[i := t], Asleep) == Sum(threads, Asleep) - Asleep(threads[i]) + Asleep(t)
  {
    SumUpdate(threads, i, t, Held);
    SumUpdate(threads, i, t, Inside);
    SumUpdate(threads, i, t, Asleep);
  }

  lemma ReplaceGood(threads: seq<Thread>, i: nat, t: Thread, u: Thread)
    requires i < |threads| && Good(u)
    ensures AllGood(threads[i := t]) <==> AllGood(threads[i := u]) && Good(t)
  {
    var a, b := threads[i := t], threads[i := u];
    if AllGood(a) {
      assert Good(a[i]);
      forall j | 0 <= j < |b| ensures Good(b[j]) { if j != i { assert Good(a[j]); } }
    }
    if AllGood(b) && Good(t) {
      forall j | 0 <= j < |a| ensures Good(a[j]) { if j != i { assert Good(b[j]); } }
    }
  }

  lemma CallKeeps(s: State, s': State)
    requires Inv(s) && CallStep(s, s')
    ensures Inv(s')
  {
    Replace(s.threads, 0, Entering);
    ReplaceGood(s.threads, 0, Entering, Outside);
    assert s.threads[0 := Outside] == s.threads;
    if |s.shared.queue| > 0 && |s.threads| > 1 {
      var i :| 0 < i < |s.threads| && s.threads[i] != Waiting(false);
      assert s'.threads[i] != Waiting(false);
    }
  }

  lemma CheckedIsGood(t: Thread)
    requires t.Working? && |t.rest| > 0
    ensures Good(Working(t.size, t.rest[1..], if t.ok then t.rest[0].ok else t.ok)) <==> Good(t)
  {
    AllOkConcat([t.rest[0]], t.rest[1..]);
    assert [t.rest[0]] + t.rest[1..] == t.rest;
  }

  lemma SameGood(threads: seq<Thread>, i: nat, t: Thread)
    requires i < |threads| && (Good(t) <==> Good(threads[i]))
    ensures AllGood(threads[i := t]) <==> AllGood(threads)
  {
    ReplaceGood(threads, i, threads[i], Outside);
    ReplaceGood(threads, i, t, Outside);
    assert threads[i := threads[i]] == threads;
  }

  lemma CheckKeeps(s: State, limit: nat, i: nat)
    requires Inv(s) && i < |s.threads| && s.threads[i].Working? && |s.threads[i].rest| > 0
    ensures Inv(Ran(s, limit, i))
  {
    var t := s.threads[i];
    var t' := Working(t.size, t.rest[1..], if t.ok then t.rest[0].ok else t.ok);
    var s' := Ran(s, limit, i);
    Replace(s.threads, i, t');
    CheckedIsGood(t);
    SameGood(s.threads, i, t');
    if |s'.shared.queue| > 0 && |s.threads| > 1 {
      var j :| 0 < j < |s.threads| && s.threads[j] != Waiting(false);
      assert s'.threads[j] != Waiting(false);
    }
  }

  /** A thread that holds the mutex counts as busy with nothing. */
  const BUSY := Working(0, [], true)

  /** The state at the test of the queue, with thread i busy. */
  function Testing(s: State, i: nat): State
    requires i < |s.threads|
  {
    var m := AtTest(s, i);
    m.(threads := m.threads[i := BUSY])
  }

  ghost predicate ShapedBut(threads: seq<Thread>, i: nat) {
    && i < |threads|
    && (forall j :: 0 < j < |threads| && j != i ==> threads[j] != Outside)
    && (forall j :: 0 <= j < |threads| && j != i && threads[j].Working? ==>
          threads[j].size > 0 && |threads[j].rest| <= threads[j].size)
  }

  ghost predicate TestInv(m: State, i: nat) {
    && ShapedBut(m.threads, i) && m.threads[i] == BUSY
    && Counts(m) && Tells(m) && MasterMayWait(m) && WorkersWake(m)
  }

  lemma EnteringTests(s: State, i: nat)
    requires Inv(s) && i < |s.threads| && s.threads[i].Entering?
    ensures TestInv(Testing(s, i), i)
  {
    Replace(s.threads, i, BUSY);
    ReplaceGood(s.threads, i, Entering, BUSY);
    assert s.threads[i := Entering] == s.threads;
    BusyIsAwake(s, Testing(s, i), i);
  }

  lemma WaitingTests(s: State, i: nat)
    requires Inv(s) && i < |s.threads| && s.threads[i].Waiting?
    ensures TestInv(Testing(s, i), i)
  {
    Replace(s.threads, i, BUSY);
    ReplaceGood(s.threads, i, s.threads[i], BUSY);
    assert s.threads[i := s.threads[i]] == s.threads;
    BusyIsAwake(s, Testing(s, i), i);
  }

  lemma BusyIsAwake(s: State, m: State, i: nat)
    requires WorkersWake(s) && i < |s.threads| == |m.threads| && |m.shared.queue| == |s.shared.queue|
    requires m.threads[i] == BUSY
    requires forall j :: 0 < j < |s.threads| && j != i ==> m.threads[j] == s.threads[j]
    ensures WorkersWake(m)
  {
    if |m.shared.queue| > 0 && |m.threads| > 1 {
      var j :| 0 < j < |s.threads| && s.threads[j] != Waiting(false);
      assert m.threads[j] != Waiting(false);
    }
  }

  lemma MasterNotifiedKeeps(threads: seq<Thread>)
    requires |threads| > 0
    ensures NotifiedLike(threads, MasterNotified(threads))
  {
  }

  ghost predicate NotifiedLike(a: seq<Thread>, b: seq<Thread>) {
    |b| == |a| && forall i :: 0 <= i < |a| ==> b[i] == a[i] || (a[i] == Waiting(false) && b[i] == Waiting(true))
  }

  lemma WorkingTests(s: State, i: nat)
    requires Inv(s) && i < |s.threads| && s.threads[i].Working? && |s.threads[i].rest| == 0
    ensures TestInv(Testing(s, i), i)
  {
    var t := s.threads[i];
    var m := Testing(s, i);
    var notified := AtTest(s, i).threads;
    MasterNotifiedKeeps(s.threads);
    assert NotifiedLike(s.threads, notified) && notified[i] == t;
    NotifiedSums(s.threads, notified);
    Replace(notified, i, BUSY);
    ReplaceGood(notified, i, t, BUSY);
    assert notified[i := t] == notified;
    SumPositive(notified[i := BUSY], Held);
    BusyIsAwake(s, m, i);
  }

  lemma TestKeeps(s: State, i: nat)
    requires Inv(s) && i < |s.threads| && s.threads[i] != Outside
    requires s.threads[i].Working? ==> |s.threads[i].rest| == 0
    ensures TestInv(Testing(s, i), i)
  {
    match s.threads[i]
    case Entering => EnteringTests(s, i);
    case Waiting(_) => WaitingTests(s, i);
    case Working(_, _, _) => WorkingTests(s, i);
  }

  /** Nobody but thread i, which is busy with nothing, can hold a batch when there is nothing to do. */
  lemma NothingHeld(m: State, i: nat)
    requires ShapedBut(m.threads, i) && m.threads[i] == BUSY && Counts(m) && m.shared.todo == 0
    ensures |m.shared.queue| == 0
    ensures forall j :: 0 <= j < |m.threads| && j != i ==> !m.threads[j].Working?
  {
    SumPositive(m.threads, Held);
  }

  lemma ReturnKeeps(m: State, limit: nat)
    requires TestInv(m, 0) && |m.shared.queue| == 0 && m.shared.todo == 0
    ensures Inv(Continued(m, limit, 0))
    ensures m.shared.allOk <==> AllOk(m.added)
  {
    NothingHeld(m, 0);
    Replace(m.threads, 0, Outside);
    ReplaceGood(m.threads, 0, Outside, BUSY);
    assert AllGood(m.threads);
  }

  lemma SleepKeeps(m: State, limit: nat, i: nat)
    requires TestInv(m, i) && |m.shared.queue| == 0 && (i != 0 || m.shared.todo != 0)
    ensures Inv(Continued(m, limit, i))
  {
    Replace(m.threads, i, Waiting(false));
    ReplaceGood(m.threads, i, Waiting(false), BUSY);
    assert m.threads[i := BUSY] == m.threads;
    SumPositive(m.threads, Held);
  }

  lemma TakeKeeps(m: State, limit: nat, i: nat)
    requires TestInv(m, i) && |m.shared.queue| > 0
    ensures Inv(Continued(m, limit, i))
  {
    BatchFits(m.shared, limit);
    var queue := m.shared.queue;
    var n := BatchSize(m.shared, limit);
    var batch := Popped(queue, n);
    var t := Working(n, batch, m.shared.allOk);
    PoppedSplits(queue, n);
    Replace(m.threads, i, t);
    ReplaceGood(m.threads, i, t, BUSY);
    assert m.threads[i := BUSY] == m.threads;
    var s' := Continued(m, limit, i);
    assert s'.threads == m.threads[i := t];
    if |m.threads| > 1 {
      var j :| 0 < j < |m.threads| && m.threads[j] != Waiting(false);
      assert s'.threads[j] != Waiting(false);
    }
  }

  lemma PoppedSplits(queue: seq<Job>, n: nat)
    requires n <= |queue|
    ensures AllOk(queue) <==> AllOk(queue[..|queue| - n]) && AllOk(Popped(queue, n))
  {
    var batch := Popped(queue, n);
    if AllOk(queue[..|queue| - n]) && AllOk(batch) {
      forall i | 0 <= i < |queue| ensures queue[i].ok {
        if i < |queue| - n { assert queue[..|queue| - n][i] == queue[i]; }
        else { assert batch[|queue| - 1 - i] == queue[i]; }
      }
    }
  }

  lemma SectionKeeps(s: State, limit: nat, i: nat)
    requires Inv(s) && i < |s.threads| && s.threads[i] != Outside
    requires s.threads[i].Working? ==> |s.threads[i].rest| == 0
    ensures Inv(Ran(s, limit, i))
  {
    TestKeeps(s, i);
    var m := Testing(s, i);
    SectionFromTest(s, limit, i);
    if |m.shared.queue| > 0 { TakeKeeps(m, limit, i); }
    else if i == 0 && m.shared.todo == 0 { ReturnKeeps(m, limit); }
    else { SleepKeeps(m, limit, i); }
  }

  /** What thread i is called while it holds the mutex makes no difference. */
  lemma SectionFromTest(s: State, limit: nat, i: nat)
    requires i < |s.threads| && s.threads[i] != Outside
    requires s.threads[i].Working? ==> |s.threads[i].rest| == 0
    ensures Ran(s, limit, i) == Continued(Testing(s, i), limit, i)
  {
    var m := AtTest(s, i);
    var (shared, decision) := Decided(m.shared, limit, i == 0);
    var t := match decision
      case Return(_) => Outside
      case Sleep => Waiting(false)
      case Take(batch) => Working(|batch|, batch, shared.allOk);
    assert m.threads[i := BUSY][i := t] == m.threads[i := t];
  }

  lemma StepKeeps(s: State, limit: nat, e: Event, s': State)
    requires Inv(s) && Step(s, limit, e, s')
    ensures Inv(s')
  {
    match e
    case Add(jobs) => AddKeeps(s, jobs, s');
    case CallWait => CallKeeps(s, s');
    case Run(i) =>
      if s.threads[i].Working? && |s.threads[i].rest| > 0 {
        CheckKeeps(s, limit, i);
      } else {
        SectionKeeps(s, limit, i);
      }
  }

  // ----- what the queue promises -----

  ghost predicate Behaviour(workers: nat, limit: nat, events: seq<Event>, states: seq<State>) {
    && |states| == |events| + 1 && states[0] == Initial(workers)
    && forall k :: 0 <= k < |events| ==> Step(states[k], limit, events[k], states[k + 1])
  }

  lemma {:induction false} BehavioursKeepInv(workers: nat, limit: nat, events: seq<Event>, states: seq<State>, k: nat)
    requires Behaviour(workers, limit, events, states) && k < |states|
    ensures Inv(states[k])
  {
    if k == 0 {
      InitialInv(workers);
    } else {
      BehavioursKeepInv(workers, limit, events, states, k - 1);
      StepKeeps(states[k - 1], limit, events[k - 1], states[k]);
    }
  }

  ghost predicate NoBatchHeld(threads: seq<Thread>) {
    forall j :: 0 <= j < |threads| ==> !threads[j].Working?
  }

  /** Wait returns true if and only if every check added since it last returned is true; at that
      moment the queue is empty and no thread holds a batch. */
  lemma WaitTellsTheTruth(workers: nat, limit: nat, events: seq<Event>, states: seq<State>, k: nat, verdict: bool)
    requires Behaviour(workers, limit, events, states) && k < |events|
    requires Returns(states[k], limit, events[k], states[k + 1], verdict)
    ensures verdict <==> forall j :: 0 <= j < |states[k].added| ==> states[k].added[j].ok
    ensures |states[k].shared.queue| == 0 && |states[k + 1].shared.queue| == 0 && states[k + 1].shared.todo == 0
    ensures NoBatchHeld(states[k + 1].threads)
    ensures states[k + 1].added == []
  {
    var s := states[k];
    BehavioursKeepInv(workers, limit, events, states, k);
    TestKeeps(s, 0);
    var m := Testing(s, 0);
    SectionFromTest(s, limit, 0);
    ReturnKeeps(m, limit);
    NothingHeld(m, 0);
  }

  /** The history of checks is what its name says. */
  lemma AddedIsTheHistory(s: State, limit: nat, e: Event, s': State)
    requires Inv(s) && Step(s, limit, e, s')
    ensures e.Add? ==> s'.added == s.added + e.jobs
    ensures e.CallWait? ==> s'.added == s.added
    ensures e.Run? ==> s'.added == if exists verdict :: Returns(s, limit, e, s', verdict) then [] else s.added
  {
    if e.Run? && !(s.threads[e.i].Working? && |s.threads[e.i].rest| > 0) {
      var m := AtTest(s, e.i);
      var (shared, decision) := Decided(m.shared, limit, e.i == 0);
      if decision.Return? {
        assert Returns(s, limit, e, s', decision.verdict);
      }
    }
  }

  /** Between Waits, with nothing left to do, every worker that has entered is idle, and the stored
      verdict is that of the checks added. So the asserts of CCheckQueueControl hold if and only if
      none of them has failed. */
  lemma QuiescentControl(workers: nat, limit: nat, events: seq<Event>, states: seq<State>, k: nat)
    requires Behaviour(workers, limit, events, states) && k < |states|
    requires |states[k].threads| > 0 && states[k].threads[0] == Outside && states[k].shared.todo == 0
    ensures states[k].shared.total == states[k].shared.idle
    ensures states[k].shared.allOk <==> forall j :: 0 <= j < |states[k].added| ==> states[k].added[j].ok
  {
    var s := states[k];
    BehavioursKeepInv(workers, limit, events, states, k);
    SumPositive(s.threads, Held);
    assert NoBatchHeld(s.threads);
    InsideIsAsleep(s.threads);
  }

  lemma {:induction false} InsideIsAsleep(threads: seq<Thread>)
    requires NoBatchHeld(threads)
    ensures Sum(threads, Inside) == Sum(threads, Asleep)
    decreases |threads|
  {
    if |threads| > 0 { InsideIsAsleep(threads[..|threads| - 1]); }
  }

  const BAD := Job(false)
  const LINGERING := [
    Initial(1),
    State(Shared([], 1, 1, true, 0), [Outside, Waiting(false)], []),
    State(Shared([BAD], 1, 1, true, 1), [Outside, Waiting(true)], [BAD]),
    State(Shared([], 0, 1, true, 1), [Outside, Working(1, [BAD], true)], [BAD]),
    State(Shared([], 0, 1, true, 1), [Outside, Working(1, [], false)], [BAD]),
    State(Shared([], 1, 1, false, 0), [Outside, Waiting(false)], [BAD])]

  lemma LingeringEnters(limit: nat)
    ensures Ran(LINGERING[0], limit, 1) == LINGERING[1]
  {
    assert LINGERING[0].threads == [Outside, Entering];
    assert LINGERING[0].threads[1 := Waiting(false)] == LINGERING[1].threads;
  }

  lemma LingeringTakes(limit: nat)
    ensures Ran(LINGERING[2], limit, 1) == LINGERING[3]
  {
    var m := AtTest(LINGERING[2], 1).shared;
    assert m == Shared([BAD], 0, 1, true, 1);
    BatchFits(m, limit);
    assert Popped([BAD], 1) == [BAD];
    assert Decided(m, limit, false) == (Shared([], 0, 1, true, 1), Take([BAD]));
    assert LINGERING[2].threads[1 := Working(1, [BAD], true)] == LINGERING[3].threads;
  }

  lemma LingeringFails(limit: nat)
    ensures Ran(LINGERING[3], limit, 1) == LINGERING[4]
    ensures Ran(LINGERING[4], limit, 1) == LINGERING[5]
  {
    assert [BAD][1..] == [];
    assert LINGERING[3].threads[1 := Working(1, [], false)] == LINGERING[4].threads;
    assert LINGERING[4].threads[1 := Waiting(false)] == LINGERING[5].threads;
  }

  /** A check that fails while nobody has called Wait leaves its verdict behind: all is quiet, and
      the third assert of CCheckQueueControl would fail. */
  lemma FailedCheckLingers(limit: nat)
    ensures Behaviour(1, limit, [Run(1), Add([BAD]), Run(1), Run(1), Run(1)], LINGERING)
    ensures LINGERING[5].threads[0] == Outside && LINGERING[5].shared.todo == 0 && !LINGERING[5].shared.allOk
  {
    LingeringEnters(limit);
    LingeringIsAdded();
    LingeringTakes(limit);
    LingeringFails(limit);
    var events := [Run(1), Add([BAD]), Run(1), Run(1), Run(1)];
    forall k | 0 <= k < |events| ensures Step(LINGERING[k], limit, events[k], LINGERING[k + 1]) {
      if k == 0 {} else if k == 1 {} else if k == 2 {} else if k == 3 {} else {}
    }
  }

  lemma LingeringIsAdded()
    ensures AddStep(LINGERING[1], [BAD], LINGERING[2])
  {
    var s1, s2 := LINGERING[1], LINGERING[2];
    assert s1.shared.queue + [BAD] == [BAD];
    assert s1.added + [BAD] == [BAD];
    assert s1.threads[1 := Waiting(true)] == s2.threads;
  }

  /** Right after Wait, or before the first Add, the asserts of CCheckQueueControl all hold. */
  lemma UnusedQueuePassesControl(workers: nat, limit: nat, events: seq<Event>, states: seq<State>, k: nat)
    requires Behaviour(workers, limit, events, states) && k < |states|
    requires |states[k].threads| > 0 && states[k].threads[0] == Outside && states[k].added == []
    ensures states[k].shared.total == states[k].shared.idle && states[k].shared.todo == 0 && states[k].shared.allOk
  {
    BehavioursKeepInv(workers, limit, events, states, k);
    SumPositive(states[k].threads, Held);
    QuiescentControl(workers, limit, events, states, k);
  }

  /** A thread that can go on without a spurious wakeup. */
  predicate Moves(t: Thread) {
    t == Entering || t == Waiting(true) || t.Working?
  }

  /** The master never waits in vain: as long as it is in Wait, some thread can go on. */
  lemma SomeThreadMoves(s: State)
    requires Inv(s) && s.threads[0] != Outside
    ensures exists i :: 0 <= i < |s.threads| && Moves(s.threads[i])
  {
    SumPositive(s.threads, Held);
    if s.threads[0] == Waiting(false) {
      var i :| 0 <= i < |s.threads| && Held(s.threads[i]) > 0;
      assert Moves(s.threads[i]);
    } else {
      assert Moves(s.threads[0]);
    }
  }

  /** Checks are not stranded either while the master is elsewhere: some worker can go on. */
  lemma SomeWorkerMoves(s: State)
    requires Inv(s) && s.threads[0] == Outside && s.shared.todo > 0 && |s.threads| > 1
    ensures exists i :: 0 < i < |s.threads| && Moves(s.threads[i])
  {
    SumPositive(s.threads, Held);
    if |s.shared.queue| > 0 {
      var i :| 0 < i < |s.threads| && s.threads[i] != Waiting(false);
      assert Moves(s.threads[i]);
    } else {
      var i :| 0 <= i < |s.threads| && Held(s.threads[i]) > 0;
      assert i > 0 && Moves(s.threads[i]);
    }
  }

  /** The effort still due to a thread. */
  function Effort(t: Thread): int {
    match t
    case Outside => 0
    case Entering => 1
    case Waiting(notified) => if notified then 1 else 0
    case Working(size, rest, _) => |rest| + 2 * size
  }

  ghost function Work(s: State): int {
    4 * |s.shared.queue| + Sum(s.threads, Effort)
  }

  lemma MasterNotifiedEffort(threads: seq<Thread>)
    requires |threads| > 0
    ensures Sum(threads, Effort) <= Sum(MasterNotified(threads), Effort) <= Sum(threads, Effort) + 1
  {
    if threads[0] == Waiting(false) { SumUpdate(threads, 0, Waiting(true), Effort); }
  }

  /** Every step of a thread does some of the work, except that a spurious wakeup may do nothing
      or make Wait return. */
  lemma RunDoesWork(s: State, limit: nat, i: nat)
    requires Inv(s) && i < |s.threads| && s.threads[i] != Outside
    ensures Moves(s.threads[i]) ==> Work(Ran(s, limit, i)) < Work(s)
    ensures !Moves(s.threads[i]) ==>
      Work(Ran(s, limit, i)) < Work(s) || Ran(s, limit, i) == s || Ran(s, limit, i).threads[0] == Outside
  {
    var t := s.threads[i];
    if t.Working? && |t.rest| > 0 {
      SumUpdate(s.threads, i, Working(t.size, t.rest[1..], if t.ok then t.rest[0].ok else t.ok), Effort);
    } else {
      SectionDoesWork(s, limit, i);
    }
  }

  lemma SectionDoesWork(s: State, limit: nat, i: nat)
    requires Inv(s) && i < |s.threads| && s.threads[i] != Outside
    requires s.threads[i].Working? ==> |s.threads[i].rest| == 0
    ensures Moves(s.threads[i]) ==> Work(Ran(s, limit, i)) < Work(s)
    ensures !Moves(s.threads[i]) ==>
      Work(Ran(s, limit, i)) < Work(s) || Ran(s, limit, i) == s || Ran(s, limit, i).threads[0] == Outside
  {
    var m := AtTest(s, i);
    var (shared, decision) := Decided(m.shared, limit, i == 0);
    var t := match decision
      case Return(_) => Outside
      case Sleep => Waiting(false)
      case Take(batch) => Working(|batch|, batch, shared.allOk);
    MasterNotifiedEffort(s.threads);
    SumUpdate(m.threads, i, t, Effort);
    assert m.threads[i] == s.threads[i];
    if |m.shared.queue| > 0 { BatchFits(m.shared, limit); }
    if s.threads[i] == Waiting(false) && decision.Sleep? {
      assert s.threads[i := Waiting(false)] == s.threads;
    }
  }

  /** The thread that an event runs is awake. */
  predicate IsMoving(s: State, event: Event) {
    event.Run? && event.i < |s.threads| && Moves(s.threads[event.i])
  }

  /** The number of events that are no spurious wakeups. */
  function MovingSteps(events: seq<Event>, states: seq<State>): nat
    requires |states| == |events| + 1
    decreases |events|
  {
    if |events| == 0 then 0
    else (if IsMoving(states[0], events[0]) then 1 else 0) + MovingSteps(events[1..], states[1..])
  }

  /** Wait terminates under every schedule: while the master is in it, at most Work(s) steps are taken that are not
      spurious wakeups, however many of these there are in between. */
  lemma {:induction false} WaitTerminates(limit: nat, events: seq<Event>, states: seq<State>)
    requires |states| == |events| + 1 && Inv(states[0])
    requires forall k :: 0 <= k < |states| ==> |states[k].threads| > 0 && states[k].threads[0] != Outside
    requires forall k :: 0 <= k < |events| ==> Step(states[k], limit, events[k], states[k + 1])
    ensures MovingSteps(events, states) <= Work(states[0])
    decreases |events|
  {
    EffortIsPositive(states[0]);
    if |events| > 0 {
      assert Step(states[0], limit, events[0], states[1]);
      assert events[0].Run?;
      StepKeeps(states[0], limit, events[0], states[1]);
      RunDoesWork(states[0], limit, events[0].i);
      WaitTerminates(limit, events[1..], states[1..]);
    }
  }

  lemma EffortIsPositive(s: State)
    ensures Work(s) >= 0
  {
    SumPositive(s.threads, Effort);
  }
}
