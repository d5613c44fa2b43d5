/** The verification queue of src/checkqueue.h: one master and any number of workers share a stack
    of checks under a mutex. A critical section is one atomic step; the checks themselves run
    outside the mutex, one at a time, interleaved with everything else. */
module CheckQueue {
  import opened Arithmetic
  import opened Wrappers

  /** A check, by what its operator() returns. */
  datatype Job = Job(ok: bool)

  /** Where a thread is. Thread 0 is the master, which is Outside when it is not in Wait. A working
      thread holds a batch of `size` checks, of which `rest` are still to be looked at. */
  datatype Thread =
    | Outside
    | Entering
    | Waiting(notified: bool)
    | Working(size: nat, rest: seq<Job>, ok: bool)

  /** The fields of CCheckQueue. */
  datatype Shared = Shared(queue: seq<Job>, idle: int, total: int, allOk: bool, todo: int)

  /** What a thread does on leaving its critical section. */
  datatype Decision = Return(verdict: bool) | Sleep | Take(batch: seq<Job>)

  function BatchSize(sh: Shared, limit: nat): int {
    if sh.total + sh.idle + 1 <= 0 then 1
    else Max(1, Min(limit, |sh.queue| / (sh.total + sh.idle + 1)))
  }

  /** The last n elements, last one first. */
  function Popped(queue: seq<Job>, n: int): seq<Job>
    requires 0 <= n <= |queue|
  {
    seq(n, i requires 0 <= i < n => queue[|queue| - 1 - i])
  }

  lemma BatchFits(sh: Shared, limit: nat)
    requires |sh.queue| > 0
    ensures 1 <= BatchSize(sh, limit) <= |sh.queue|
  {
    var d := sh.total + sh.idle + 1;
    if d > 0 {
      assert |sh.queue| / d <= |sh.queue| by { DivAtMost(|sh.queue|, d); }
    }
  }

  lemma DivAtMost(a: nat, d: int)
    requires d > 0
    ensures a / d <= a
  {
    var q := a / d;
    assert a == q * d + a % d;
    TimesAtLeast(q, d);
  }

  lemma {:induction false} TimesAtLeast(q: nat, d: int)
    requires d >= 1
    ensures q * d >= q
    decreases d
  {
    if d > 1 {
      TimesAtLeast(q, d - 1);
      assert q * d == q * (d - 1) + q;
    }
  }

  /** A batch of more than one check is within the limit and within the share of the thread, and no larger batch
      would be. */
  lemma BatchIsShare(sh: Shared, limit: nat)
    requires sh.total + sh.idle >= 0
    ensures var n, threads := BatchSize(sh, limit), sh.total + sh.idle + 1;
      && n >= 1
      && (n > 1 ==> n <= limit && n * threads <= |sh.queue|)
      && (n < limit ==> (n + 1) * threads > |sh.queue|)
  {
    var d := sh.total + sh.idle + 1;
    QuotientBounds(|sh.queue|, d, |sh.queue| / d, BatchSize(sh, limit));
  }

  lemma QuotientBounds(a: nat, d: int, q: int, n: int)
    requires d > 0 && q == a / d && n >= 1
    ensures n <= q ==> n * d <= a
    ensures n >= q ==> (n + 1) * d > a
  {
    assert q * d <= a < (q + 1) * d;
    if n <= q { TimesMonotone(n, q, d); }
    if n >= q { TimesMonotone(q + 1, n + 1, d); }
  }

  lemma TimesMonotone(m: int, n: int, d: int)
    requires m <= n && d > 0
    ensures m * d <= n * d
  {
  }

  /** The clean-up after a batch. */
  function Finished(sh: Shared, size: nat, ok: bool): Shared {
    sh.(allOk := sh.allOk && ok, todo := sh.todo - size)
  }

  /** From the test of the queue to the end of the critical section. */
  function Decided(sh: Shared, limit: nat, master: bool): (Shared, Decision)
  {
    if |sh.queue| == 0 then
      if master && sh.todo == 0 then (sh.(total := sh.total - 1, allOk := true), Return(sh.allOk))
      else (sh.(idle := sh.idle + 1), Sleep)
    else
      BatchFits(sh, limit);
      var n := BatchSize(sh, limit);
      (sh.(queue := sh.queue[..|sh.queue| - n]), Take(Popped(sh.queue, n)))
  }

  // ----- one thread -----

  /** What a critical section leaves: the fields, the decision, and whether the thread notified the master. */
  datatype Released = Released(shared: Shared, decision: Decision, notifies: bool) {
    /** Where the thread is then. */
    function Next(): Thread {
      match decision
      case Return(_) => Outside
      case Sleep => Waiting(false)
      case Take(batch) => Working(|batch|, batch, shared.allOk)
    }
  }

  /** The critical section of a thread that is about to test the queue, for the first time, after a wait, or after
      a batch. */
  function Section(sh: Shared, limit: nat, master: bool, t: Thread): Released {
    var tested := match t
      case Outside => sh
      case Entering => sh.(total := sh.total + 1)
      case Waiting(_) => sh.(idle := sh.idle - 1)
      case Working(size, _, ok) => Finished(sh, size, ok);
    var (left, decision) := Decided(tested, limit, master);
    Released(left, decision, t.Working? && tested.todo == 0 && !master)
  }

  /** What a critical section does to each field, and when the thread returns, sleeps or takes a batch. The batch is
      the end of the queue, last check first. */
  lemma SectionExactly(sh: Shared, limit: nat, master: bool, t: Thread)
    requires t != Outside
    ensures var r := Section(sh, limit, master, t);
      && r.shared.total == sh.total + (if t.Entering? then 1 else 0) - (if r.decision.Return? then 1 else 0)
      && r.shared.idle == sh.idle - (if t.Waiting? then 1 else 0) + (if r.decision.Sleep? then 1 else 0)
      && r.shared.todo == sh.todo - (if t.Working? then t.size else 0)
      && r.shared.allOk == (r.decision.Return? || (sh.allOk && (t.Working? ==> t.ok)))
      && (r.decision.Return? <==> sh.queue == [] && master && r.shared.todo == 0)
      && (r.decision.Return? ==> r.decision.verdict == (sh.allOk && (t.Working? ==> t.ok)))
      && (r.decision.Take? <==> sh.queue != [])
      && (r.notifies <==> t.Working? && r.shared.todo == 0 && !master)
    ensures var r := Section(sh, limit, master, t);
      var left, taken := r.shared.queue, if r.decision.Take? then r.decision.batch else [];
      && |left| + |taken| == |sh.queue|
      && (forall i :: 0 <= i < |left| ==> left[i] == sh.queue[i])
      && (forall i :: 0 <= i < |taken| ==> taken[i] == sh.queue[|sh.queue| - 1 - i])
  {
    assert sh.queue == [] <==> |sh.queue| == 0;
  }

  /** Where a thread is, by the local variables of Loop. */
  function Phase(waiting: bool, now: nat, ok: bool): Thread {
    if waiting then Waiting(false) else if now == 0 then Entering else Working(now, [], ok)
  }

  /** The thread when it has run its batch. */
  function Executed(t: Thread): Thread {
    if t.Working? then Working(t.size, [], t.ok && AllOk(t.rest)) else t
  }

  /** The critical sections of a call of Loop that finds these fields each time it has acquired the mutex. */
  function Sections(found: seq<Shared>, limit: nat, master: bool, t: Thread): seq<Released>
    decreases |found|
  {
    if |found| == 0 || t == Outside then []
    else
      var r := Section(found[0], limit, master, t);
      [r] + Sections(found[1..], limit, master, Executed(r.Next()))
  }

  lemma NextSection(found: seq<Shared>, limit: nat, master: bool, t: Thread, k: nat, before: seq<Released>)
    requires k < |found| && t != Outside
    ensures var r := Section(found[k], limit, master, t);
      before + Sections(found[k..], limit, master, t) ==
      before + [r] + Sections(found[k + 1..], limit, master, Executed(r.Next()))
    ensures var r := Section(found[k], limit, master, t);
      r.decision.Return? ==> before + Sections(found[k..], limit, master, t) == before + [r]
  {
    assert found[k..][1..] == found[k + 1..];
    var r := Section(found[k], limit, master, t);
    var rest := Sections(found[k + 1..], limit, master, Executed(r.Next()));
    assert before + ([r] + rest) == before + [r] + rest;
  }

  /** The queue as an object; its methods are the critical sections. */
  class Queue {
    var queue: seq<Job>
    var idle: int
    var total: int
    var allOk: bool
    var todo: int
    const limit: nat

    function View(): Shared
      reads this
    {
      Shared(queue, idle, total, allOk, todo)
    }

    constructor (batchSize: nat)
      ensures View() == Shared([], 0, 0, true, 0) && limit == batchSize
    {
      queue, idle, total, allOk, todo := [], 0, 0, true, 0;
      limit := batchSize;
    }

    /** Add; the caller then notifies one waiting worker, or all of them. */
    method Add(checks: seq<Job>) returns (notifyOne: bool, notifyAll: bool)
      modifies this
      ensures View() == old(View()).(queue := old(queue) + checks, todo := old(todo) + |checks|)
      ensures notifyOne == (|checks| == 1) && notifyAll == (|checks| > 1)
    {
      var i := 0;
      while i < |checks|
        invariant 0 <= i <= |checks|
        invariant View() == old(View()).(queue := old(queue) + checks[..i])
      {
        queue := queue + [checks[i]];
        i := i + 1;
      }
      assert checks[..i] == checks;
      todo := todo + |checks|;
      return |checks| == 1, |checks| > 1;
    }

    /** The head of an iteration: the clean-up of the previous one, or the entry. */
    method CleanUp(size: nat, ok: bool, master: bool) returns (notifyMaster: bool)
      modifies this
      ensures size > 0 ==> View() == Finished(old(View()), size, ok)
      ensures size == 0 ==> View() == old(View()).(total := old(total) + 1)
      ensures notifyMaster == (size > 0 && todo == 0 && !master)
    {
      notifyMaster := false;
      if size != 0 {
        allOk := allOk && ok;
        todo := todo - size;
        if todo == 0 && !master { notifyMaster := true; }
      } else {
        total := total + 1;
      }
    }

    /** A wait has ended. */
    method WokenUp()
      modifies this`idle
      ensures View() == old(View()).(idle := old(idle) - 1)
    {
      idle := idle - 1;
    }

    /** Leaves, goes to sleep, or takes a batch off the end of the queue. */
    method Decide(master: bool) returns (decision: Decision)
      modifies this
      ensures (View(), decision) == Decided(old(View()), limit, master)
    {
      if |queue| == 0 {
        if master && todo == 0 {
          total := total - 1;
          decision := Return(allOk);
          if master { allOk := true; }
          return;
        }
        idle := idle + 1;
        return Sleep;
      }
      BatchFits(View(), limit);
      var now := BatchSize(View(), limit);
      ghost var before := queue;
      var batch: seq<Job> := [];
      var i := 0;
      while i < now
        invariant 0 <= i <= now <= |before|
        invariant View() == old(View()).(queue := before[..|before| - i])
        invariant batch == Popped(before, i)
      {
        batch := batch + [queue[|queue| - 1]];
        queue := queue[..|queue| - 1];
        i := i + 1;
      }
      decision := Take(batch);
    }

    /** Runs a batch outside the mutex: after a failure the remaining checks are skipped. */
    static method Execute(batch: seq<Job>, start: bool) returns (ok: bool)
      ensures ok == (start && AllOk(batch))
    {
      ok := start;
      var i := 0;
      while i < |batch|
        invariant 0 <= i <= |batch|
        invariant ok == (start && AllOk(batch[..i]))
      {
        assert batch[..i + 1] == batch[..i] + [batch[i]];
        if ok { ok := batch[i].ok; }
        i := i + 1;
      }
      assert batch[..i] == batch;
    }

    /** Acquires the mutex: other threads may have changed the fields. */
    method Acquire(found: Shared)
      modifies this
      ensures View() == found
    {
      queue, idle, total, allOk, todo := found.queue, found.idle, found.total, found.allOk, found.todo;
    }

    /** One critical section: the clean-up or the end of a wait, then the decision. */
    method Enter(master: bool, waiting: bool, now: nat, ok: bool) returns (decision: Decision, notifies: bool)
      modifies this
      ensures Released(View(), decision, notifies) == Section(old(View()), limit, master, Phase(waiting, now, ok))
      ensures decision.Return? ==> master
      ensures decision.Take? ==> |decision.batch| > 0
    {
      if waiting {
        notifies := false;
        WokenUp();
      } else {
        notifies := CleanUp(now, ok, master);
      }
      decision := Decide(master);
    }

    /** One round of Loop: a critical section, and the batch that was taken in it. */
    method Round(master: bool, found: Shared, waiting: bool, now: nat, ok: bool)
      returns (left: Released, waiting': bool, now': nat, ok': bool)
      modifies this
      ensures left == Section(found, limit, master, Phase(waiting, now, ok))
      ensures left.decision.Return? ==> master
      ensures !left.decision.Return? ==> Phase(waiting', now', ok') == Executed(left.Next())
    {
      Acquire(found);
      var decision, notifies := Enter(master, waiting, now, ok);
      left := Released(View(), decision, notifies);
      waiting', now', ok' := decision.Sleep?, now, ok;
      if decision.Take? {
        now' := |decision.batch|;
        ok' := Execute(decision.batch, allOk);
      }
    }

    /** Loop, as long as the mutex is acquired: `found` is what the fields are each time, and nothing is returned
        when the thread is still asleep or waiting for the mutex in the end. */
    method Loop(master: bool, found: seq<Shared>) returns (trace: seq<Released>, verdict: Option<bool>)
      modifies this
      ensures trace == Sections(found, limit, master, Entering)
      ensures verdict == if |trace| > 0 && trace[|trace| - 1].decision.Return?
        then Some(trace[|trace| - 1].decision.verdict) else None
      ensures verdict.Some? ==> master
    {
      trace := [];
      var waiting, now: nat, ok := false, 0, true;
      var k := 0;
      assert found[0..] == found;
      while k < |found|
        invariant k <= |found|
        invariant trace + Sections(found[k..], limit, master, Phase(waiting, now, ok)) ==
          Sections(found, limit, master, Entering)
        invariant |trace| > 0 ==> !trace[|trace| - 1].decision.Return?
      {
        NextSection(found, limit, master, Phase(waiting, now, ok), k, trace);
        var left, waiting', now', ok' := Round(master, found[k], waiting, now, ok);
        trace := trace + [left];
        k := k + 1;
        if left.decision.Return? { return trace, Some(left.decision.verdict); }
        waiting, now, ok := waiting', now', ok';
      }
      verdict := None;
    }
  }

  predicate AllOk(jobs: seq<Job>) {
    forall i :: 0 <= i < |jobs| ==> jobs[i].ok
  }
}
