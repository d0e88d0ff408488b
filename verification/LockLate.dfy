/** Readers that a batch covered and that have not run yet, for any number of threads: when they still
    hold their ring entry, and exactly when their calls are granted, fail or go on waiting. */
module LockLate {
  import opened LockSteps
  import opened LockThreads
  import opened LockSystem
  import opened LockQueue

  /** A queued ticket holds its ring entry exactly while fewer than a ring of later tickets are out. */
  ghost predicate InRing(l: Lock, th: Thread)
    requires 0 < |l.slot|
  {
    th.Queued? ==> 0 <= th.ticket < l.next && (SlotMatches(l, th.ticket) <==> l.next <= th.ticket + |l.slot|)
  }

  /** Every queued ticket is as `InRing` says, tickets are distinct, and the batch limit is up only while
      somebody is counted as reading. */
  ghost predicate Timely(s: System) {
    && Exclusive(s)
    && (forall i {:trigger s.threads[i]} :: 0 <= i < |s.threads| ==> InRing(s.lock, s.threads[i]))
    && TicketsDistinct(s.threads)
    && (s.lock.readers == 0 ==> s.lock.batchEnd == -1)
  }

  lemma JoinInRing(l: Lock, r: Request, th: Thread)
    requires WellFormed(l) && InRing(l, th)
    ensures InRing(Join(l, r), th)
  {
    if th.Queued? {
      if l.next < th.ticket + |l.slot| {
        EntriesDiffer(|l.slot|, th.ticket, l.next);
      } else if l.next == th.ticket + |l.slot| {
        SameEntry(|l.slot|, th.ticket);
      }
    }
  }

  /** What a pass does to the ring: nothing, or clear the thread's own entry. */
  lemma PassRing(l: Lock, th: Thread)
    requires WellFormed(l) && InCall(th)
    ensures var e := Pass(l, th); var m := e.lock;
      && m.next == l.next && |m.slot| == |l.slot|
      && (e.outcome == Waits ==> m.slot == l.slot)
      && (m.slot == l.slot || (th.Queued? && SlotMatches(l, th.ticket) && m.slot == l.slot[Index(l, th.ticket) := -1]))
  {
  }

  lemma PassLimit(l: Lock, th: Thread)
    requires WellFormed(l) && InCall(th) && 0 <= l.readers && (l.readers == 0 ==> l.batchEnd == -1)
    ensures var m := Pass(l, th).lock; m.readers == 0 ==> m.batchEnd == -1
  {
  }

  /** What a pass does to the threads: the others are as before or woken, and the thread itself waits on
      or is out of the queue. */
  lemma PassThreads(s: System, i: nat)
    requires WellFormed(s.lock) && i < |s.threads| && InCall(s.threads[i])
    ensures var t, e := Passed(s, i), Pass(s.lock, s.threads[i]);
      && t.lock == e.lock && |t.threads| == |s.threads|
      && (forall j {:trigger t.threads[j]} :: 0 <= j < |s.threads| && j != i ==>
            t.threads[j] == s.threads[j] || t.threads[j] == Awake(s.threads[j]))
      && t.threads[i] == match e.outcome
                         case Waits => s.threads[i].(asleep := true)
                         case Granted => (if s.threads[i].Queued? && s.threads[i].request == Write then Writing else Reading)
                         case _ => Idle
  {
  }

  lemma OthersStayInRing(l: Lock, m: Lock, th: Thread, other: Thread)
    requires 0 < |l.slot| == |m.slot| && m.next == l.next && InRing(l, other)
    requires th.Queued? && other.Queued? ==> th.ticket != other.ticket
    requires m.slot == l.slot || (th.Queued? && SlotMatches(l, th.ticket) && m.slot == l.slot[Index(l, th.ticket) := -1])
    ensures InRing(m, other)
  {
  }

  lemma PassKeepsTimely(s: System, i: nat)
    requires Timely(s) && i < |s.threads| && InCall(s.threads[i])
    requires Exclusive(Passed(s, i))
    ensures Timely(Passed(s, i)) && |Passed(s, i).lock.slot| == |s.lock.slot|
  {
    var th, t := s.threads[i], Passed(s, i);
    assert WellFormed(s.lock) && 0 <= s.lock.readers;
    PassRing(s.lock, th);
    PassLimit(s.lock, th);
    PassThreads(s, i);
    hide Exclusive, Pass, Passed, WellFormed;
    forall j | 0 <= j < |t.threads|
      ensures InRing(t.lock, t.threads[j])
    {
      assert InRing(s.lock, s.threads[j]) && TicketsDistinct(s.threads);
      if j != i { OthersStayInRing(s.lock, t.lock, th, s.threads[j]); }
    }
  }

  lemma JoinedIsExclusive(s: System, i: nat, r: Request)
    requires Exclusive(s) && i < |s.threads| && s.threads[i] == Idle
    ensures Exclusive(Joined(s, i, r))
  {
    JoinKeepsWellFormed(s.lock, r);
    CountUpdate(s.threads, i, Queued(r, s.lock.next, false), HoldsRead);
    CountUpdate(s.threads, i, Queued(r, s.lock.next, false), HoldsWrite);
    CountUpdate(s.threads, i, Queued(r, s.lock.next, false), QuickWait);
  }

  lemma JoinKeepsTimely(s: System, i: nat, r: Request)
    requires Timely(s) && i < |s.threads| && s.threads[i] == Idle
    ensures Timely(Joined(s, i, r)) && |Joined(s, i, r).lock.slot| == |s.lock.slot|
  {
    var t := Joined(s, i, r);
    JoinedIsExclusive(s, i, r);
    forall j | 0 <= j < |t.threads|
      ensures InRing(t.lock, t.threads[j])
    {
      assert InRing(s.lock, s.threads[j]);
      if j != i { JoinInRing(s.lock, r, s.threads[j]); }
    }
  }

  lemma CallKeepsTimely(s: System, i: nat, r: Request, t: System)
    requires Timely(s) && i < |s.threads| && s.threads[i] == Idle && (r == Read || r == Write) && Exclusive(t)
    requires WellFormed(Join(s.lock, r)) && t == Passed(Joined(s, i, r), i)
    ensures Timely(t) && |t.lock.slot| == |s.lock.slot|
  {
    JoinKeepsTimely(s, i, r);
    PassKeepsTimely(Joined(s, i, r), i);
  }

  /** A step that leaves the ring alone and puts nobody in the queue. */
  lemma QuietKeepsTimely(s: System, t: System)
    requires Timely(s) && Exclusive(t) && t.lock.slot == s.lock.slot && t.lock.next == s.lock.next
    requires |t.threads| == |s.threads| && (t.lock.readers == 0 ==> t.lock.batchEnd == -1)
    requires forall j {:trigger t.threads[j]} :: 0 <= j < |t.threads| && t.threads[j].Queued? ==>
               s.threads[j].Queued? && t.threads[j].ticket == s.threads[j].ticket
    ensures Timely(t)
  {
    assert WellFormed(s.lock);
    hide Exclusive;
    forall j | 0 <= j < |t.threads|
      ensures InRing(t.lock, t.threads[j])
    {
      assert InRing(s.lock, s.threads[j]);
    }
  }

  lemma StepKeepsTimely(s: System, step: Step)
    requires Timely(s) && Enabled(s, step)
    ensures Timely(Apply(s, step)) && |Apply(s, step).lock.slot| == |s.lock.slot|
  {
    var i, t := step.thread, Apply(s, step);
    StepKeepsExclusive(s, step);
    match step
    case CallRead(_) =>
      JoinKeepsWellFormed(s.lock, Read);
      FirstPass(s, i, Read, t);
      CallKeepsTimely(s, i, Read, t);
    case CallWrite(_) =>
      JoinKeepsWellFormed(s.lock, Write);
      FirstPass(s, i, Write, t);
      CallKeepsTimely(s, i, Write, t);
    case Retry(_) =>
      PassKeepsTimely(s, i);
    case _ =>
      QuietKeepsTimely(s, t);
  }

  lemma {:induction false} RunKeepsTimely(s: System, run: seq<Step>, t: System)
    requires Timely(s) && Reaches(s, run, t)
    ensures Timely(t) && |t.lock.slot| == |s.lock.slot|
    decreases |run|
  {
    if run != [] {
      StepKeepsTimely(s, run[0]);
      RunKeepsTimely(Apply(s, run[0]), run[1..], t);
    }
  }

  lemma ReachableIsTimely(threads: nat, ringSize: nat, s: System)
    requires Reachable(threads, ringSize, s)
    ensures Timely(s) && |s.lock.slot| == ringSize
  {
    var run :| Reaches(Start(threads, ringSize), run, s);
    MutualExclusion(threads, ringSize, s);
    StartIsReachable(threads, ringSize);
    MutualExclusion(threads, ringSize, Start(threads, ringSize));
    RunKeepsTimely(Start(threads, ringSize), run, s);
  }

  // Main results, for any number of threads and any ring size.

  /** A waiting ticket still holds its ring entry exactly while fewer than a ring of later tickets have
      been issued. */
  lemma EntryKeptIff(threads: nat, ringSize: nat, s: System, i: nat)
    requires Reachable(threads, ringSize, s) && i < |s.threads| && s.threads[i].Queued?
    ensures WellFormed(s.lock)
    ensures SlotMatches(s.lock, s.threads[i].ticket) <==> s.lock.next <= s.threads[i].ticket + ringSize
  {
    ReachableIsTimely(threads, ringSize, s);
    assert InRing(s.lock, s.threads[i]);
  }

  /** The batch limit is up only while somebody is counted as reading, and then no writer is active. */
  lemma LimitNeedsReaders(threads: nat, ringSize: nat, s: System)
    requires Reachable(threads, ringSize, s)
    ensures 0 <= s.lock.batchEnd ==> 0 < s.lock.readers && s.lock.writers == 0
  {
    ReachableIsTimely(threads, ringSize, s);
  }

  /** A reader left below the queue is granted the lock exactly while a batch up to its ticket or later
      is being read and fewer than a ring of later tickets are out; its call fails exactly when such a
      batch is being read and at least a ring of later tickets are out; and it waits exactly when no
      such batch is being read, so always when nobody is counted as reading. */
  lemma LateReaderAdmittedIff(threads: nat, ringSize: nat, s: System, i: nat)
    requires Reachable(threads, ringSize, s)
    requires i < |s.threads| && s.threads[i].Queued? && s.threads[i].request == Read && s.threads[i].ticket < s.lock.oldest
    ensures WellFormed(s.lock)
    ensures var t, outcome := s.threads[i].ticket, Pass(s.lock, s.threads[i]).outcome;
      && (outcome == Granted <==> t <= s.lock.batchEnd && s.lock.next <= t + ringSize)
      && (outcome == ConsumeFailed <==> t <= s.lock.batchEnd && t + ringSize < s.lock.next)
      && (outcome == Waits <==> s.lock.batchEnd < t)
      && (s.lock.readers == 0 ==> outcome == Waits)
  {
    ReachableIsTimely(threads, ringSize, s);
    assert InRing(s.lock, s.threads[i]);
  }
}
