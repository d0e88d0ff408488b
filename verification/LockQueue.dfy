/** The ticket queue when there are at most as many threads as ring entries: it is exact, no wakeup is
    lost, and an idle lock always has somebody to admit. */
module LockQueue {
  import opened LockSteps
  import opened LockThreads
  import opened LockSystem

  /** Thread `th`'s ticket is in the queue, in its ring entry, or is a READ ticket a batch covered. */
  ghost predicate Placed(l: Lock, covered: set<int>, th: Thread)
    requires 0 < |l.slot| == |l.request|
  {
    th.Queued? ==>
      && th.ticket < l.next
      && (th.request == Read || th.request == Write)
      && if l.oldest <= th.ticket then SlotMatchesAs(l, th.ticket, th.request)
         else th.request == Read && th.ticket in covered
  }

  /** What an asleep thread's next pass depends on: it could not be admitted now. */
  predicate MustWait(l: Lock, th: Thread)
    requires InCall(th)
  {
    if th.Quick? then l.writers > 0
    else if th.request == Write then l.readers > 0 || l.writers > 0 || l.quickWaiters > 0 || th.ticket != l.oldest
    else l.writers > 0 || (th.ticket > l.batchEnd && th.ticket != l.oldest)
  }

  ghost predicate TicketsDistinct(ths: seq<Thread>) {
    forall i, j {:trigger ths[i], ths[j]} :: 0 <= i < j < |ths| && ths[i].Queued? && ths[j].Queued? ==>
      ths[i].ticket != ths[j].ticket
  }

  /** The queue is exactly the waiting tickets that no batch has covered, each intact in the ring. */
  ghost predicate QueueExact(s: System) {
    && QueueIntact(s.lock)
    && |s.threads| <= |s.lock.slot|
    && (forall i {:trigger s.threads[i]} :: 0 <= i < |s.threads| ==> Placed(s.lock, s.covered, s.threads[i]))
    && (forall k {:trigger Owned(s.threads, k, Interval(0, |s.threads|))} :: s.lock.oldest <= k < s.lock.next ==>
          Owned(s.threads, k, Interval(0, |s.threads|)))
    && TicketsDistinct(s.threads)
    && (forall k {:trigger k in s.covered} :: k in s.covered ==> k < s.lock.oldest)
  }

  ghost predicate NobodyMissedAWakeup(s: System) {
    forall i {:trigger s.threads[i]} :: 0 <= i < |s.threads| && Asleep(s.threads[i]) ==> MustWait(s.lock, s.threads[i])
  }

  ghost predicate Orderly(s: System) {
    Exclusive(s) && QueueExact(s) && NobodyMissedAWakeup(s) && !s.jammed
  }

  /** A pass waits exactly when `MustWait` says so. */
  lemma PassWaits(s: System, i: nat)
    requires Exclusive(s) && QueueExact(s) && i < |s.threads| && InCall(s.threads[i])
    ensures Pass(s.lock, s.threads[i]).outcome == Waits <==> MustWait(s.lock, s.threads[i])
    ensures Pass(s.lock, s.threads[i]).outcome == Waits ==> Pass(s.lock, s.threads[i]) == Effect(s.lock, Waits, false)
    ensures Pass(s.lock, s.threads[i]).outcome != NotInserted
  {
    var th := s.threads[i];
    assert Placed(s.lock, s.covered, th);
    if th.Queued? && th.request == Write {
      WriteAttemptCases(s.lock, th.ticket);
    } else if th.Queued? {
      ReadAttemptCases(s.lock, th.ticket);
    }
  }

  // Joining the queue.

  lemma QueueHasRoom(s: System, i: nat)
    requires QueueExact(s) && i < |s.threads| && !s.threads[i].Queued?
    ensures s.lock.next - s.lock.oldest < |s.lock.slot|
  {
    var all := Interval(0, |s.threads|);
    forall k | s.lock.oldest <= k < s.lock.next
      ensures Owned(s.threads, k, all - {i})
    {
      assert Owned(s.threads, k, all);
      var j :| j in all && 0 <= j < |s.threads| && s.threads[j].Queued? && s.threads[j].ticket == k;
      assert j in all - {i};
    }
    OwnersBoundTickets(s.threads, s.lock.oldest, s.lock.next, all - {i});
    IntervalSize(0, |s.threads|);
  }

  lemma {:induction false} IntervalSize(lo: int, hi: int)
    requires lo <= hi
    ensures |Interval(lo, hi)| == hi - lo
    decreases hi - lo
  {
    if lo < hi {
      IntervalSize(lo, hi - 1);
    }
  }

  /** Thread `i` in the queue with a fresh ticket, about to make its first pass. */
  function Joined(s: System, i: nat, r: Request): System
    requires i < |s.threads| && 0 < |s.lock.slot| == |s.lock.request|
  {
    s.(lock := Join(s.lock, r), threads := s.threads[i := Queued(r, s.lock.next, false)])
  }

  lemma JoinKeepsOrder(s: System, i: nat, r: Request)
    requires Orderly(s) && i < |s.threads| && s.threads[i] == Idle && (r == Read || r == Write)
    ensures Orderly(Joined(s, i, r))
  {
    var t := Joined(s, i, r);
    QueueHasRoom(s, i);
    JoinKeepsQueue(s.lock, r);
    JoinKeepsWellFormed(s.lock, r);
    CountUpdate(s.threads, i, t.threads[i], HoldsRead);
    CountUpdate(s.threads, i, t.threads[i], HoldsWrite);
    CountUpdate(s.threads, i, t.threads[i], QuickWait);
    JoinKeepsPlaces(s, i, r);
    JoinKeepsOwners(s, i, r);
    forall j | 0 <= j < |t.threads| && Asleep(t.threads[j])
      ensures MustWait(t.lock, t.threads[j])
    {
      assert MustWait(s.lock, s.threads[j]) && Placed(s.lock, s.covered, s.threads[j]);
    }
  }

  lemma JoinKeepsPlaces(s: System, i: nat, r: Request)
    requires QueueExact(s) && i < |s.threads| && s.threads[i] == Idle && (r == Read || r == Write)
    requires QueueIntact(Join(s.lock, r)) && KeepsQueue(s.lock, Join(s.lock, r), s.lock.oldest)
    requires SlotMatchesAs(Join(s.lock, r), s.lock.next, r)
    ensures var t := Joined(s, i, r);
      && TicketsDistinct(t.threads)
      && forall j {:trigger t.threads[j]} :: 0 <= j < |t.threads| ==> Placed(t.lock, t.covered, t.threads[j])
  {
    var t := Joined(s, i, r);
    forall j | 0 <= j < |t.threads|
      ensures Placed(t.lock, t.covered, t.threads[j])
    {
      if j != i && t.threads[j].Queued? {
        assert Placed(s.lock, s.covered, s.threads[j]);
        assert s.lock.oldest <= t.threads[j].ticket ==> SlotMatches(t.lock, t.threads[j].ticket);
      }
    }
    forall j, k | 0 <= j < k < |t.threads| && t.threads[j].Queued? && t.threads[k].Queued?
      ensures t.threads[j].ticket != t.threads[k].ticket
    {
      assert Placed(s.lock, s.covered, s.threads[j]) && Placed(s.lock, s.covered, s.threads[k]);
    }
  }

  lemma JoinKeepsOwners(s: System, i: nat, r: Request)
    requires QueueExact(s) && i < |s.threads| && s.threads[i] == Idle
    ensures var t := Joined(s, i, r);
      forall k {:trigger Owned(t.threads, k, Interval(0, |t.threads|))} :: t.lock.oldest <= k < t.lock.next ==>
        Owned(t.threads, k, Interval(0, |t.threads|))
  {
    var t := Joined(s, i, r);
    var all := Interval(0, |s.threads|);
    forall k | t.lock.oldest <= k < t.lock.next
      ensures Owned(t.threads, k, all)
    {
      if k == s.lock.next {
        assert i in all && t.threads[i].ticket == k;
      } else {
        assert Owned(s.threads, k, all);
        var j :| j in all && 0 <= j < |s.threads| && s.threads[j].Queued? && s.threads[j].ticket == k;
        assert t.threads[j] == s.threads[j];
      }
    }
  }

  // Making a pass.

  /** Thread `i` leaves the queue, which now starts at `m.oldest`; the rest keep their places. */
  lemma LeavingKeepsQueue(s: System, i: nat, m: Lock, ths: seq<Thread>, covered: set<int>)
    requires QueueExact(s) && i < |s.threads|
    requires QueueIntact(m) && m.next == s.lock.next && |m.slot| == |s.lock.slot| && s.lock.oldest <= m.oldest
    requires KeepsQueue(s.lock, m, m.oldest)
    requires s.threads[i].Queued? ==> s.threads[i].ticket < m.oldest
    requires covered == s.covered + Interval(s.lock.oldest, if s.covered == covered then s.lock.oldest else m.oldest)
    requires forall j {:trigger s.threads[j]} ::
               0 <= j < |s.threads| && j != i && s.threads[j].Queued? && s.lock.oldest <= s.threads[j].ticket < m.oldest ==>
                 s.threads[j].request == Read && s.threads[j].ticket in covered
    requires |ths| == |s.threads| && !ths[i].Queued?
    requires forall j {:trigger ths[j]} :: 0 <= j < |ths| && j != i ==> ths[j] == s.threads[j] || ths[j] == Awake(s.threads[j])
    ensures QueueExact(s.(lock := m, threads := ths, covered := covered))
  {
    var t := s.(lock := m, threads := ths, covered := covered);
    forall j | 0 <= j < |ths|
      ensures Placed(m, covered, ths[j])
    {
      if j != i && ths[j].Queued? {
        assert Placed(s.lock, s.covered, s.threads[j]);
        assert m.oldest <= ths[j].ticket ==> SlotMatches(m, ths[j].ticket);
      }
    }
    var all := Interval(0, |ths|);
    forall k | m.oldest <= k < m.next
      ensures Owned(ths, k, all)
    {
      assert Owned(s.threads, k, all);
      var j :| j in all && 0 <= j < |s.threads| && s.threads[j].Queued? && s.threads[j].ticket == k;
      assert j != i;
      assert ths[j].Queued? && ths[j].ticket == k;
    }
    LeavingKeepsDistinct(s, i, ths);
  }

  lemma LeavingKeepsDistinct(s: System, i: nat, ths: seq<Thread>)
    requires TicketsDistinct(s.threads) && i < |s.threads|
    requires |ths| == |s.threads| && !ths[i].Queued?
    requires forall j {:trigger ths[j]} :: 0 <= j < |ths| && j != i ==> ths[j] == s.threads[j] || ths[j] == Awake(s.threads[j])
    ensures TicketsDistinct(ths)
  {
    forall j, k | 0 <= j < k < |ths| && ths[j].Queued? && ths[k].Queued?
      ensures ths[j].ticket != ths[k].ticket
    {
      assert s.threads[j].Queued? && s.threads[k].Queued?;
    }
  }

  ghost function Passed(s: System, i: nat): System
    requires WellFormed(s.lock) && i < |s.threads| && InCall(s.threads[i])
  {
    Settle(s, i, s.threads[i], s.lock, Pass(s.lock, s.threads[i]))
  }

  lemma WaitKeepsOrder(s: System, i: nat)
    requires Orderly(s) && i < |s.threads| && InCall(s.threads[i]) && Pass(s.lock, s.threads[i]).outcome == Waits
    ensures QueueExact(Passed(s, i)) && NobodyMissedAWakeup(Passed(s, i))
  {
    var t := Passed(s, i);
    PassWaits(s, i);
    assert t == s.(threads := s.threads[i := s.threads[i].(asleep := true)]);
    forall j | 0 <= j < |t.threads|
      ensures Placed(t.lock, t.covered, t.threads[j])
    {
      assert Placed(s.lock, s.covered, s.threads[j]);
    }
    forall j, k | 0 <= j < k < |t.threads| && t.threads[j].Queued? && t.threads[k].Queued?
      ensures t.threads[j].ticket != t.threads[k].ticket
    {
      assert s.threads[j].Queued? && s.threads[k].Queued?;
    }
    var all := Interval(0, |s.threads|);
    forall k | t.lock.oldest <= k < t.lock.next
      ensures Owned(t.threads, k, all)
    {
      assert Owned(s.threads, k, all);
      var j :| j in all && 0 <= j < |s.threads| && s.threads[j].Queued? && s.threads[j].ticket == k;
      assert t.threads[j].Queued? && t.threads[j].ticket == k;
    }
  }

  /** A quick reader is admitted: everybody is woken. */
  lemma QuickGrantKeepsOrder(s: System, i: nat)
    requires Orderly(s) && i < |s.threads| && s.threads[i].Quick? && !MustWait(s.lock, s.threads[i])
    ensures QueueExact(Passed(s, i)) && NobodyMissedAWakeup(Passed(s, i))
  {
    var t := Passed(s, i);
    SameRing(s.lock, t.lock);
    assert t.covered == s.covered;
    LeavingKeepsQueue(s, i, t.lock, t.threads, s.covered);
    assert QueueExact(t);
  }

  /** A covered reader is admitted or fails: the queue does not change and nobody is woken. */
  lemma CoveredKeepsOrder(s: System, i: nat)
    requires Orderly(s) && i < |s.threads| && s.threads[i].Queued? && s.threads[i].request == Read
    requires s.lock.writers == 0 && s.threads[i].ticket <= s.lock.batchEnd
    ensures QueueExact(Passed(s, i)) && NobodyMissedAWakeup(Passed(s, i))
  {
    var t := Passed(s, i);
    var th := s.threads[i];
    assert Placed(s.lock, s.covered, th);
    ReadAttemptCases(s.lock, th.ticket);
    LeavingKeepsQueue(s, i, t.lock, t.threads, s.covered);
    forall j | 0 <= j < |t.threads| && Asleep(t.threads[j])
      ensures MustWait(t.lock, t.threads[j])
    {
      assert MustWait(s.lock, s.threads[j]);
    }
  }

  /** The front reader opens a batch: everybody is woken. */
  lemma LeaderKeepsOrder(s: System, i: nat)
    requires Orderly(s) && i < |s.threads| && s.threads[i].Queued? && s.threads[i].request == Read
    requires s.lock.writers == 0 && s.threads[i].ticket > s.lock.batchEnd && s.threads[i].ticket == s.lock.oldest
    ensures QueueExact(Passed(s, i)) && NobodyMissedAWakeup(Passed(s, i))
  {
    var t := Passed(s, i);
    var th := s.threads[i];
    assert Placed(s.lock, s.covered, th);
    ReadAttemptCases(s.lock, th.ticket);
    HeadIsOldest(s.lock);
    assert s.lock.oldest in t.covered && s.lock.oldest !in s.covered;
    forall j | 0 <= j < |s.threads| && j != i && s.threads[j].Queued? && s.lock.oldest <= s.threads[j].ticket < t.lock.oldest
      ensures s.threads[j].request == Read && s.threads[j].ticket in t.covered
    {
      assert Placed(s.lock, s.covered, s.threads[j]);
      assert SlotMatchesAs(s.lock, s.threads[j].ticket, Read);
    }
    LeavingKeepsQueue(s, i, t.lock, t.threads, t.covered);
    assert QueueExact(t);
  }

  /** The front writer is admitted: nobody is woken, and nobody could be admitted beside it. */
  lemma WriterKeepsOrder(s: System, i: nat)
    requires Orderly(s) && i < |s.threads| && s.threads[i].Queued? && s.threads[i].request == Write
    requires !MustWait(s.lock, s.threads[i])
    ensures QueueExact(Passed(s, i)) && NobodyMissedAWakeup(Passed(s, i))
  {
    var t := Passed(s, i);
    var th := s.threads[i];
    assert Placed(s.lock, s.covered, th);
    WriteAttemptCases(s.lock, th.ticket);
    forall j | 0 <= j < |s.threads| && j != i && s.threads[j].Queued?
      ensures s.threads[j].ticket != th.ticket
    {
      assert TicketsDistinct(s.threads);
    }
    LeavingKeepsQueue(s, i, t.lock, t.threads, s.covered);
  }

  lemma PassKeepsOrder(s: System, i: nat)
    requires Orderly(s) && i < |s.threads| && InCall(s.threads[i])
    ensures Orderly(Passed(s, i))
  {
    var th := s.threads[i];
    SettleKeepsExclusive(s, i, th, s.lock);
    PassWaits(s, i);
    if MustWait(s.lock, th) {
      WaitKeepsOrder(s, i);
    } else if th.Quick? {
      QuickGrantKeepsOrder(s, i);
    } else if th.request == Write {
      WriterKeepsOrder(s, i);
    } else {
      assert Placed(s.lock, s.covered, th);
      if th.ticket <= s.lock.batchEnd {
        CoveredKeepsOrder(s, i);
      } else {
        LeaderKeepsOrder(s, i);
      }
    }
  }

  lemma QuickCallKeepsOrder(s: System, i: nat)
    requires Orderly(s) && i < |s.threads| && s.threads[i] == Idle
    ensures Orderly(Settle(s, i, Quick(false), s.lock, QuickEnter(s.lock)))
  {
    var t := Settle(s, i, Quick(false), s.lock, QuickEnter(s.lock));
    QuickCallKeepsExclusive(s, i);
    SameRing(s.lock, t.lock);
    LeavingKeepsQueue(s, i, t.lock, t.threads, s.covered);
    assert t.covered == s.covered;
    forall j | 0 <= j < |t.threads| && Asleep(t.threads[j])
      ensures MustWait(t.lock, t.threads[j])
    {
      if j != i { assert MustWait(s.lock, s.threads[j]); }
    }
  }

  lemma WakeKeepsOrder(s: System, i: nat)
    requires Orderly(s) && i < |s.threads| && Asleep(s.threads[i])
    ensures Orderly(s.(threads := s.threads[i := Awake(s.threads[i])]))
  {
    var t := s.(threads := s.threads[i := Awake(s.threads[i])]);
    StepKeepsExclusive(s, Wake(i));
    forall j | 0 <= j < |t.threads|
      ensures Placed(t.lock, t.covered, t.threads[j])
    {
      assert Placed(s.lock, s.covered, s.threads[j]);
    }
    forall j, k | 0 <= j < k < |t.threads| && t.threads[j].Queued? && t.threads[k].Queued?
      ensures t.threads[j].ticket != t.threads[k].ticket
    {
      assert s.threads[j].Queued? && s.threads[k].Queued?;
    }
    var all := Interval(0, |s.threads|);
    forall k | t.lock.oldest <= k < t.lock.next
      ensures Owned(t.threads, k, all)
    {
      assert Owned(s.threads, k, all);
      var j :| j in all && 0 <= j < |s.threads| && s.threads[j].Queued? && s.threads[j].ticket == k;
      assert t.threads[j].Queued? && t.threads[j].ticket == k;
    }
  }

  lemma ReleaseKeepsOrder(s: System, i: nat)
    requires Orderly(s) && i < |s.threads|
    ensures s.threads[i] == Reading ==> Orderly(Released(s, i, ReadUnlock(s.lock)))
    ensures s.threads[i] == Writing ==> Orderly(Released(s, i, WriteUnlock(s.lock)))
  {
    if s.threads[i] == Reading || s.threads[i] == Writing {
      var r := if s.threads[i] == Reading then ReadUnlock(s.lock) else WriteUnlock(s.lock);
      var t := Released(s, i, r);
      ReleaseKeepsExclusive(s, i);
      SameRing(s.lock, t.lock);
      LeavingKeepsQueue(s, i, t.lock, t.threads, s.covered);
      forall j | 0 <= j < |t.threads| && Asleep(t.threads[j])
        ensures MustWait(t.lock, t.threads[j])
      {
        assert MustWait(s.lock, s.threads[j]);
      }
    }
  }

  lemma StepKeepsOrder(s: System, step: Step)
    requires Orderly(s) && Enabled(s, step)
    ensures Orderly(Apply(s, step))
  {
    var i := step.thread;
    match step
    case CallRead(_) =>
      JoinKeepsOrder(s, i, Read);
      PassKeepsOrder(Joined(s, i, Read), i);
      FirstPass(s, i, Read, Apply(s, step));
    case CallWrite(_) =>
      JoinKeepsOrder(s, i, Write);
      PassKeepsOrder(Joined(s, i, Write), i);
      FirstPass(s, i, Write, Apply(s, step));
    case CallQuick(_) =>
      QuickCallKeepsOrder(s, i);
    case Retry(_) =>
      PassKeepsOrder(s, i);
    case Wake(_) =>
      WakeKeepsOrder(s, i);
    case ReleaseRead(_) =>
      ReleaseKeepsOrder(s, i);
    case ReleaseWrite(_) =>
      ReleaseKeepsOrder(s, i);
  }

  /** A ticketed call is joining the queue and then a pass. */
  lemma FirstPass(s: System, i: nat, r: Request, t: System)
    requires WellFormed(s.lock) && i < |s.threads| && s.threads[i] == Idle && (r == Read || r == Write)
    requires WellFormed(Join(s.lock, r))
    requires t == Settle(s, i, Queued(r, s.lock.next, false), Join(s.lock, r), if r == Read then ReadEnter(s.lock) else WriteEnter(s.lock))
    ensures t == Passed(Joined(s, i, r), i)
  {
    var j := Joined(s, i, r);
    var u := Passed(j, i);
    assert forall k :: 0 <= k < |u.threads| ==> t.threads[k] == u.threads[k];
    assert t.threads == u.threads;
  }

  lemma {:induction false} RunKeepsOrder(s: System, run: seq<Step>, t: System)
    requires Orderly(s) && Reaches(s, run, t)
    ensures Orderly(t)
    decreases |run|
  {
    if run != [] {
      StepKeepsOrder(s, run[0]);
      RunKeepsOrder(Apply(s, run[0]), run[1..], t);
    }
  }

  lemma StartIsOrderly(threads: nat, ringSize: nat)
    requires 0 < ringSize && threads <= ringSize
    ensures Orderly(Start(threads, ringSize))
  {
    StartCounts(threads, HoldsRead);
    StartCounts(threads, HoldsWrite);
    StartCounts(threads, QuickWait);
  }

  // Main results, for every reachable state of at most as many threads as ring entries.

  /** Every reachable state is orderly: the queue is exact, no call takes the error exit that leaves
      the mutex locked, and no asleep thread could be admitted. */
  lemma ReachableIsOrderly(threads: nat, ringSize: nat, s: System)
    requires Reachable(threads, ringSize, s) && threads <= ringSize
    ensures Orderly(s)
  {
    StartIsOrderly(threads, ringSize);
    var run :| Reaches(Start(threads, ringSize), run, s);
    RunKeepsOrder(Start(threads, ringSize), run, s);
  }

  /** No lost wakeup: an asleep thread's next pass would only wait again. */
  lemma NoLostWakeup(threads: nat, ringSize: nat, s: System, i: nat)
    requires Reachable(threads, ringSize, s) && threads <= ringSize
    requires i < |s.threads| && Asleep(s.threads[i])
    ensures WellFormed(s.lock) && Pass(s.lock, s.threads[i]).outcome == Waits
  {
    ReachableIsOrderly(threads, ringSize, s);
    PassWaits(s, i);
  }

  /** Progress: when nobody is counted as holding the lock but the queue is not empty or a quick reader
      waits, some awake thread's next step admits it. */
  lemma SomebodyIsAdmitted(threads: nat, ringSize: nat, s: System) returns (i: nat)
    requires Reachable(threads, ringSize, s) && threads <= ringSize
    requires s.lock.readers == 0 && s.lock.writers == 0
    requires s.lock.oldest < s.lock.next || 0 < s.lock.quickWaiters
    ensures WellFormed(s.lock) && Enabled(s, Retry(i)) && Pass(s.lock, s.threads[i]).outcome == Granted
  {
    ReachableIsOrderly(threads, ringSize, s);
    if 0 < s.lock.quickWaiters {
      i := CountFind(s.threads, QuickWait);
    } else {
      var all := Interval(0, |s.threads|);
      assert Owned(s.threads, s.lock.oldest, all);
      i :| i in all && 0 <= i < |s.threads| && s.threads[i].Queued? && s.threads[i].ticket == s.lock.oldest;
      assert Placed(s.lock, s.covered, s.threads[i]);
      if s.threads[i].request == Write {
        WriteAttemptCases(s.lock, s.threads[i].ticket);
      } else {
        ReadAttemptCases(s.lock, s.threads[i].ticket);
      }
    }
    PassWaits(s, i);
  }

  /** Some thread waits with ticket `k`, and no batch has covered it. */
  ghost predicate UncoveredWaiter(s: System, k: int) {
    k !in s.covered && exists i :: 0 <= i < |s.threads| && s.threads[i].Queued? && s.threads[i].ticket == k
  }

  /** The queue is exact: a ticket is in it exactly when some thread waits with it uncovered, it is then
      intact in the ring, and the head scan skips nothing. */
  lemma QueueIsExact(threads: nat, ringSize: nat, s: System)
    requires Reachable(threads, ringSize, s) && threads <= ringSize
    ensures WellFormed(s.lock) && FindValidHead(s.lock, s.lock.oldest) == s.lock.oldest
    ensures forall k {:trigger UncoveredWaiter(s, k)} :: s.lock.oldest <= k < s.lock.next <==> UncoveredWaiter(s, k)
    ensures forall k {:trigger Intact(s.lock, k)} :: s.lock.oldest <= k < s.lock.next ==> Intact(s.lock, k)
    ensures forall i {:trigger s.threads[i]} :: 0 <= i < |s.threads| && s.threads[i].Queued? && s.threads[i].ticket < s.lock.oldest ==>
              s.threads[i].request == Read && s.threads[i].ticket in s.covered
  {
    ReachableIsOrderly(threads, ringSize, s);
    HeadIsOldest(s.lock);
    var all := Interval(0, |s.threads|);
    forall k
      ensures s.lock.oldest <= k < s.lock.next <==> UncoveredWaiter(s, k)
    {
      if s.lock.oldest <= k < s.lock.next {
        assert Owned(s.threads, k, all);
      }
      if UncoveredWaiter(s, k) {
        var i :| 0 <= i < |s.threads| && s.threads[i].Queued? && s.threads[i].ticket == k;
        assert Placed(s.lock, s.covered, s.threads[i]);
      }
    }
    forall i | 0 <= i < |s.threads| && s.threads[i].Queued? && s.threads[i].ticket < s.lock.oldest
      ensures s.threads[i].request == Read && s.threads[i].ticket in s.covered
    {
      assert Placed(s.lock, s.covered, s.threads[i]);
    }
  }
}