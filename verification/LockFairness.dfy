/** Fairness of the lock over whole runs, the batch limit, and when the lock may be destroyed. */
module LockFairness {
  import opened LockSteps
  import opened LockThreads
  import opened LockSystem
  import opened LockQueue
  import opened LockLate

  /** Ticketed admissions so far: all below the queue, and each writer's ticket above all before it. */
  ghost predicate LogInOrder(s: System) {
    && (forall k {:trigger s.log[k]} :: 0 <= k < |s.log| ==> s.log[k].ticket < s.lock.oldest)
    && (forall j, k {:trigger s.log[j], s.log[k]} :: 0 <= j < k < |s.log| && s.log[k].write ==> s.log[j].ticket < s.log[k].ticket)
  }

  /** While the queue is not empty, the thread with the last ticket issued is still waiting. */
  ghost predicate LastIsOut(s: System) {
    exists i :: 0 <= i < |s.threads| && s.threads[i].Queued? && s.threads[i].ticket == s.lock.next - 1
  }

  /** What every step keeps, however many threads there are. */
  ghost predicate Fair(s: System) {
    && Timely(s)
    && LogInOrder(s)
    && (forall k {:trigger k in s.covered} :: k in s.covered ==> k < s.lock.oldest)
    && (s.lock.oldest < s.lock.next ==> LastIsOut(s))
  }

  /** What a pass does to the front of the queue. */
  ghost predicate Fronts(l: Lock, th: Thread, e: Effect)
    requires WellFormed(l)
  {
    && l.oldest <= e.lock.oldest && e.lock.next == l.next
    && (forall k {:trigger k in Batch(l, th, e)} :: k in Batch(l, th, e) ==> l.oldest <= k < e.lock.oldest)
    && (th.Queued? && e.outcome == Granted ==> th.ticket < e.lock.oldest && (th.request == Write ==> l.oldest <= th.ticket))
    && (th.Queued? && e.outcome != Waits && th.ticket == l.next - 1 ==> l.next <= e.lock.oldest)
    && (e.lock.batchEnd > l.batchEnd ==> e.lock.batchEnd in Batch(l, th, e))
  }

  lemma PassFronts(l: Lock, th: Thread)
    requires WellFormed(l) && InCall(th) && (th.Queued? ==> 0 <= th.ticket < l.next)
    requires -1 <= l.batchEnd < l.oldest + (if l.batchEnd == -1 then 1 else 0)
    ensures Fronts(l, th, Pass(l, th))
  {
    if th.Queued? && th.request != Write {
      var head := FindValidHead(l, l.oldest);
      if th.ticket == head && head < l.next && l.request[Index(l, head)] == Read {
        assert SlotMatchesAs(l, head, Read);
        assert head < BatchScan(l.(oldest := head), head);
      }
    }
  }

  lemma LastStays(s: System, t: System, i: nat)
    requires i < |s.threads| == |t.threads| && t.lock.next == s.lock.next && LastIsOut(s)
    requires forall j {:trigger t.threads[j]} :: 0 <= j < |s.threads| && j != i ==> t.threads[j] == s.threads[j] || t.threads[j] == Awake(s.threads[j])
    requires s.threads[i].Queued? && s.threads[i].ticket == s.lock.next - 1 ==> t.threads[i].Queued? && t.threads[i].ticket == s.threads[i].ticket
    ensures LastIsOut(t)
  {
    var j :| 0 <= j < |s.threads| && s.threads[j].Queued? && s.threads[j].ticket == s.lock.next - 1;
    assert t.threads[j].Queued? && t.threads[j].ticket == s.lock.next - 1;
  }

  lemma PassKeepsFair(s: System, i: nat)
    requires Fair(s) && i < |s.threads| && InCall(s.threads[i]) && Timely(Passed(s, i))
    ensures Fair(Passed(s, i))
  {
    var th, t := s.threads[i], Passed(s, i);
    assert InRing(s.lock, th);
    PassFronts(s.lock, th);
    PassThreads(s, i);
    var e := Pass(s.lock, th);
    assert t.covered == s.covered + Batch(s.lock, th, e);
    assert t.log == if e.outcome == Granted && th.Queued? then s.log + [Grant(th.request == Write, th.ticket)] else s.log;
    hide Timely, Pass, Passed, Batch, InRing;
    if t.lock.oldest < t.lock.next { LastStays(s, t, i); }
  }

  lemma JoinKeepsFair(s: System, i: nat, r: Request)
    requires Fair(s) && i < |s.threads| && s.threads[i] == Idle
    ensures Fair(Joined(s, i, r))
  {
    JoinKeepsTimely(s, i, r);
    var t := Joined(s, i, r);
    hide Timely;
    assert t.threads[i].ticket == t.lock.next - 1;
  }

  lemma CallKeepsFair(s: System, i: nat, r: Request, t: System)
    requires Fair(s) && i < |s.threads| && s.threads[i] == Idle && Timely(t)
    requires WellFormed(Join(s.lock, r)) && t == Passed(Joined(s, i, r), i)
    ensures Fair(t)
  {
    JoinKeepsFair(s, i, r);
    PassKeepsFair(Joined(s, i, r), i);
  }

  /** A step that leaves queue, log and batches alone. */
  lemma QuietKeepsFair(s: System, t: System, i: nat)
    requires Fair(s) && Timely(t) && t.lock.next == s.lock.next && t.lock.oldest == s.lock.oldest
    requires t.covered == s.covered && t.log == s.log && i < |s.threads| == |t.threads|
    requires forall j {:trigger t.threads[j]} :: 0 <= j < |s.threads| && j != i ==> t.threads[j] == s.threads[j] || t.threads[j] == Awake(s.threads[j])
    requires s.threads[i].Queued? ==> t.threads[i] == Awake(s.threads[i])
    ensures Fair(t)
  {
    hide Timely;
    if s.lock.oldest < s.lock.next { LastStays(s, t, i); }
  }

  lemma StepKeepsFair(s: System, step: Step)
    requires Fair(s) && Enabled(s, step)
    ensures Fair(Apply(s, step))
  {
    var i, t := step.thread, Apply(s, step);
    StepKeepsTimely(s, step);
    match step
    case CallRead(_) =>
      JoinKeepsWellFormed(s.lock, Read);
      FirstPass(s, i, Read, t);
      CallKeepsFair(s, i, Read, t);
    case CallWrite(_) =>
      JoinKeepsWellFormed(s.lock, Write);
      FirstPass(s, i, Write, t);
      CallKeepsFair(s, i, Write, t);
    case Retry(_) =>
      PassKeepsFair(s, i);
    case _ =>
      QuietKeepsFair(s, t, i);
  }

  lemma {:induction false} RunKeepsFair(s: System, run: seq<Step>, t: System)
    requires Fair(s) && Reaches(s, run, t)
    ensures Fair(t)
    decreases |run|
  {
    if run != [] {
      StepKeepsFair(s, run[0]);
      RunKeepsFair(Apply(s, run[0]), run[1..], t);
    }
  }

  lemma ReachableIsFair(threads: nat, ringSize: nat, s: System)
    requires Reachable(threads, ringSize, s)
    ensures Fair(s)
  {
    var run :| Reaches(Start(threads, ringSize), run, s);
    StartIsReachable(threads, ringSize);
    ReachableIsTimely(threads, ringSize, Start(threads, ringSize));
    RunKeepsFair(Start(threads, ringSize), run, s);
  }

  /** Over every run, however many threads and ring entries there are, writers are admitted in ticket
      order, and no reader is admitted before a writer with an earlier ticket. */
  lemma AdmissionsAreFair(threads: nat, ringSize: nat, s: System)
    requires Reachable(threads, ringSize, s)
    ensures forall j, k {:trigger s.log[j], s.log[k]} :: 0 <= j < k < |s.log| && s.log[k].write ==> s.log[j].ticket < s.log[k].ticket
  {
    ReachableIsFair(threads, ringSize, s);
  }

  /** When a pass admits a ticketed thread, every writer still waiting has a later ticket; and when it
      admits a writer, every earlier ticket still waiting is a READ ticket that a batch covered. */
  lemma NobodyOvertakesAWriter(threads: nat, ringSize: nat, s: System, i: nat, j: nat)
    requires Reachable(threads, ringSize, s) && threads <= ringSize
    requires i < |s.threads| && j < |s.threads| && i != j && s.threads[i].Queued? && s.threads[j].Queued?
    requires WellFormed(s.lock) && Pass(s.lock, s.threads[i]).outcome == Granted
    ensures s.threads[j].request == Write ==> s.threads[i].ticket < s.threads[j].ticket
    ensures s.threads[i].request == Write && s.threads[j].ticket < s.threads[i].ticket ==>
              s.threads[j].request == Read && s.threads[j].ticket in s.covered
  {
    ReachableIsOrderly(threads, ringSize, s);
    PassWaits(s, i);
    assert Placed(s.lock, s.covered, s.threads[i]) && Placed(s.lock, s.covered, s.threads[j]);
    assert TicketsDistinct(s.threads);
    assert i < j || j < i;
  }

  // Quick readers.

  /** Thread `i` is a waiting quick reader in every state of the run. */
  ghost predicate StaysQuick(s: System, run: seq<Step>, i: nat)
    decreases |run|
  {
    && i < |s.threads| && s.threads[i].Quick?
    && (run != [] && WellFormed(s.lock) && Enabled(s, run[0]) ==> StaysQuick(Apply(s, run[0]), run[1..], i))
  }

  lemma NoWriterBesideQuick(s: System, step: Step, i: nat)
    requires Exclusive(s) && Enabled(s, step) && i < |s.threads| && s.threads[i].Quick?
    ensures var t := Apply(s, step);
      && s.log <= t.log && (forall k {:trigger t.log[k]} :: |s.log| <= k < |t.log| ==> !t.log[k].write)
  {
    CountSome(s.threads, i, QuickWait);
  }

  /** While a quick reader waits, no writer is admitted, so it waits at most for the one writer that was
      active when it arrived. This needs no bound on the number of threads. */
  lemma {:induction false} QuickReaderSeesNoNewWriter(s: System, run: seq<Step>, t: System, i: nat)
    requires Exclusive(s) && Reaches(s, run, t) && StaysQuick(s, run, i)
    ensures s.log <= t.log && forall k {:trigger t.log[k]} :: |s.log| <= k < |t.log| ==> !t.log[k].write
    decreases |run|
  {
    if run != [] {
      var u := Apply(s, run[0]);
      NoWriterBesideQuick(s, run[0], i);
      StepKeepsExclusive(s, run[0]);
      QuickReaderSeesNoNewWriter(u, run[1..], t, i);
      forall k | |s.log| <= k < |t.log|
        ensures !t.log[k].write
      {
        if k < |u.log| { assert t.log[k] == u.log[k]; }
      }
    }
  }

  // The batch limit, and what is left when everybody has gone.

  /** Only the opening of a new batch moves the batch limit up. */
  lemma OnlyABatchRaisesTheLimit(threads: nat, ringSize: nat, s: System, step: Step)
    requires Reachable(threads, ringSize, s) && Enabled(s, step)
    ensures WellFormed(s.lock)
    ensures var t := Apply(s, step);
      t.lock.batchEnd > s.lock.batchEnd ==> t.lock.batchEnd in t.covered && t.lock.batchEnd !in s.covered
  {
    ReachableIsFair(threads, ringSize, s);
    var i, t := step.thread, Apply(s, step);
    match step
    case CallRead(_) =>
      JoinKeepsWellFormed(s.lock, Read);
      FirstPass(s, i, Read, t);
      JoinKeepsFair(s, i, Read);
      PassRaisesByBatch(Joined(s, i, Read), i);
    case CallWrite(_) =>
      JoinKeepsWellFormed(s.lock, Write);
      FirstPass(s, i, Write, t);
      JoinKeepsFair(s, i, Write);
      PassRaisesByBatch(Joined(s, i, Write), i);
    case Retry(_) =>
      PassRaisesByBatch(s, i);
    case _ =>
  }

  lemma PassRaisesByBatch(s: System, i: nat)
    requires Fair(s) && i < |s.threads| && InCall(s.threads[i])
    ensures var t := Passed(s, i);
      t.lock.batchEnd > s.lock.batchEnd ==> t.lock.batchEnd in t.covered && t.lock.batchEnd !in s.covered
  {
    assert InRing(s.lock, s.threads[i]);
    PassFronts(s.lock, s.threads[i]);
  }

  /** A leaked count shuts writers out for the rest of the run. */
  lemma {:induction false} LeakShutsWritersOut(s: System, run: seq<Step>, t: System)
    requires Exclusive(s) && 0 < s.leaked && Reaches(s, run, t)
    ensures 0 < t.leaked && s.log <= t.log && forall k {:trigger t.log[k]} :: |s.log| <= k < |t.log| ==> !t.log[k].write
    decreases |run|
  {
    if run != [] {
      var u := Apply(s, run[0]);
      StepKeepsExclusive(s, run[0]);
      assert u.leaked >= s.leaked && s.log <= u.log && forall k {:trigger u.log[k]} :: |s.log| <= k < |u.log| ==> !u.log[k].write;
      LeakShutsWritersOut(u, run[1..], t);
      forall k | |s.log| <= k < |t.log|
        ensures !t.log[k].write
      {
        if k < |u.log| { assert t.log[k] == u.log[k]; }
      }
    }
  }

  /** Destroying is allowed exactly when nothing is held or counted, no quick reader waits, and every
      thread still in a ticketed call has a ticket below the queue. */
  lemma DestroyAllowedIff(threads: nat, ringSize: nat, s: System)
    requires Reachable(threads, ringSize, s)
    ensures DestroyAllowed(s.lock) <==>
      && s.leaked == 0
      && forall i {:trigger s.threads[i]} :: 0 <= i < |s.threads| ==>
           s.threads[i].Idle? || (s.threads[i].Queued? && s.threads[i].ticket < s.lock.oldest)
  {
    ReachableIsFair(threads, ringSize, s);
    forall i | 0 <= i < |s.threads| && DestroyAllowed(s.lock)
      ensures s.threads[i].Idle? || (s.threads[i].Queued? && s.threads[i].ticket < s.lock.oldest)
    {
      assert InRing(s.lock, s.threads[i]);
      if s.threads[i].Reading? { CountSome(s.threads, i, HoldsRead); }
      if s.threads[i].Writing? { CountSome(s.threads, i, HoldsWrite); }
      if s.threads[i].Quick? { CountSome(s.threads, i, QuickWait); }
    }
    if s.leaked == 0 && forall i {:trigger s.threads[i]} :: 0 <= i < |s.threads| ==>
         s.threads[i].Idle? || (s.threads[i].Queued? && s.threads[i].ticket < s.lock.oldest) {
      NothingCounted(s.threads, HoldsRead);
      NothingCounted(s.threads, HoldsWrite);
      NothingCounted(s.threads, QuickWait);
    }
  }

  lemma NothingCounted(ths: seq<Thread>, a: Activity)
    requires forall i {:trigger ths[i]} :: 0 <= i < |ths| ==> ActivityOf(ths[i]) != a
    ensures Count(ths, a) == 0
  {
    if Count(ths, a) > 0 {
      var i := CountFind(ths, a);
    }
  }
}
