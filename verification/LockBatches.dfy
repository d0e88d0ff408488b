/** What each step does to the batch being read and to the sleepers, for any number of threads and any
    ring size: the limit stands while anybody reads, a covered reader is served while it stands, and
    exactly which steps wake the sleepers. */
module LockBatches {
  import opened LockSteps
  import opened LockThreads
  import opened LockSystem
  import opened LockQueue
  import opened LockLate
  import opened LockFairness

  // The batch limit.

  lemma PassKeepsLimit(s: System, i: nat)
    requires Timely(s) && i < |s.threads| && InCall(s.threads[i])
    ensures s.lock.batchEnd <= Passed(s, i).lock.batchEnd
  {
    var th := s.threads[i];
    assert InRing(s.lock, th);
    if th.Queued? && th.request != Write {
      var head := FindValidHead(s.lock, s.lock.oldest);
      if th.ticket == head && head < s.lock.next && s.lock.request[Index(s.lock, head)] == Read {
        assert SlotMatchesAs(s.lock, head, Read);
        assert head < BatchScan(s.lock.(oldest := head), head);
      }
    }
  }

  /** The batch limit comes down only when the last reader counted leaves; while others are still
      counted, a release leaves it where it is. */
  lemma LimitStands(threads: nat, ringSize: nat, s: System, step: Step)
    requires Reachable(threads, ringSize, s) && Enabled(s, step)
    ensures WellFormed(s.lock)
    ensures var t := Apply(s, step);
      && (0 < t.lock.readers ==> s.lock.batchEnd <= t.lock.batchEnd)
      && (t.lock.batchEnd < s.lock.batchEnd ==> step.ReleaseRead? && t.lock.readers == 0)
      && (step.ReleaseRead? && 0 < t.lock.readers ==> t.lock.batchEnd == s.lock.batchEnd)
  {
    ReachableIsTimely(threads, ringSize, s);
    var i, t := step.thread, Apply(s, step);
    match step
    case CallRead(_) =>
      JoinKeepsWellFormed(s.lock, Read);
      FirstPass(s, i, Read, t);
      JoinKeepsTimely(s, i, Read);
      PassKeepsLimit(Joined(s, i, Read), i);
    case CallWrite(_) =>
      JoinKeepsWellFormed(s.lock, Write);
      FirstPass(s, i, Write, t);
      JoinKeepsTimely(s, i, Write);
      PassKeepsLimit(Joined(s, i, Write), i);
    case Retry(_) =>
      PassKeepsLimit(s, i);
    case ReleaseRead(_) =>
      CountSome(s.threads, i, HoldsRead);
    case ReleaseWrite(_) =>
      CountSome(s.threads, i, HoldsWrite);
    case _ =>
  }

  /** Somebody is counted as reading in every state of the run. */
  ghost predicate StaysRead(s: System, run: seq<Step>)
    decreases |run|
  {
    0 < s.lock.readers && (run != [] && WellFormed(s.lock) && Enabled(s, run[0]) ==> StaysRead(Apply(s, run[0]), run[1..]))
  }

  lemma {:induction false} LimitStandsOverRuns(threads: nat, ringSize: nat, s: System, run: seq<Step>, t: System)
    requires Reachable(threads, ringSize, s) && Reaches(s, run, t) && StaysRead(s, run)
    ensures Reachable(threads, ringSize, t) && s.lock.batchEnd <= t.lock.batchEnd
    decreases |run|
  {
    if run != [] {
      LimitStands(threads, ringSize, s, run[0]);
      ReachableThenStep(threads, ringSize, s, run[0]);
      LimitStandsOverRuns(threads, ringSize, Apply(s, run[0]), run[1..], t);
    }
  }

  /** A reader that a batch covers never waits again while anybody is counted as reading: whenever it
      runs, it is granted the lock while fewer than a ring of later tickets are out, and fails after. */
  lemma CoveredReaderIsServed(threads: nat, ringSize: nat, s: System, run: seq<Step>, t: System, i: nat)
    requires Reachable(threads, ringSize, s) && Reaches(s, run, t) && StaysRead(s, run)
    requires i < |t.threads| && t.threads[i].Queued? && t.threads[i].request == Read && t.threads[i].ticket <= s.lock.batchEnd
    ensures WellFormed(t.lock)
    ensures Pass(t.lock, t.threads[i]).outcome == if t.lock.next <= t.threads[i].ticket + ringSize then Granted else ConsumeFailed
  {
    LimitStandsOverRuns(threads, ringSize, s, run, t);
    ReachableIsTimely(threads, ringSize, t);
    assert InRing(t.lock, t.threads[i]);
    LateReaderAdmittedIff(threads, ringSize, t, i);
  }

  // Who is woken.

  /** Everybody asleep is woken when a writer leaves, when the last reader counted leaves, when a reader
      opens a batch and when a waiting quick reader enters. */
  ghost predicate WakesAll(s: System, step: Step, t: System) {
    var i := step.thread;
    || step.ReleaseWrite?
    || (step.ReleaseRead? && t.lock.readers == 0)
    || (i < |s.threads| == |t.threads| && t.threads[i] == Reading
        && (step.CallRead? || (step.Retry? && (s.threads[i].Queued? ==> s.lock.batchEnd < s.threads[i].ticket))))
  }

  lemma PassWakesOthers(s: System, i: nat, j: nat)
    requires Timely(s) && i < |s.threads| && InCall(s.threads[i]) && j < |s.threads| && j != i && Asleep(s.threads[j])
    ensures var t := Passed(s, i);
      && |t.threads| == |s.threads|
      && t.threads[j] == (if t.threads[i] == Reading && (s.threads[i].Queued? ==> s.lock.batchEnd < s.threads[i].ticket)
                          then Awake(s.threads[j]) else s.threads[j])
  {
    var th := s.threads[i];
    assert InRing(s.lock, th);
  }

  /** Those are exactly the steps that wake a sleeper, apart from its own spurious wakeup; every other
      step leaves it asleep. */
  lemma WokenIff(threads: nat, ringSize: nat, s: System, step: Step, j: nat)
    requires Reachable(threads, ringSize, s) && Enabled(s, step) && j < |s.threads| && j != step.thread && Asleep(s.threads[j])
    ensures WellFormed(s.lock) && |Apply(s, step).threads| == |s.threads|
    ensures Apply(s, step).threads[j] == if WakesAll(s, step, Apply(s, step)) then Awake(s.threads[j]) else s.threads[j]
  {
    ReachableIsTimely(threads, ringSize, s);
    var i, t := step.thread, Apply(s, step);
    match step
    case CallRead(_) =>
      JoinKeepsWellFormed(s.lock, Read);
      FirstPass(s, i, Read, t);
      JoinKeepsTimely(s, i, Read);
      PassWakesOthers(Joined(s, i, Read), i, j);
    case CallWrite(_) =>
      JoinKeepsWellFormed(s.lock, Write);
      FirstPass(s, i, Write, t);
      JoinKeepsTimely(s, i, Write);
      PassWakesOthers(Joined(s, i, Write), i, j);
    case Retry(_) =>
      PassWakesOthers(s, i, j);
    case ReleaseRead(_) =>
      CountSome(s.threads, i, HoldsRead);
    case _ =>
  }

  /** A ticketed pass that waits, not for the holders of the lock, repairs the front of the queue when any
      ticket is left in the ring: it moves to the first of them and changes nothing else. */
  lemma WaitingRepairsFront(l: Lock, th: Thread, k: int)
    requires WellFormed(l) && th.Queued? && Pass(l, th).outcome == Waits && l.writers == 0
    requires th.request == Write ==> l.readers <= 0 && l.quickWaiters <= 0
    requires l.oldest <= k < l.next && SlotMatches(l, k)
    ensures var m := Pass(l, th).lock;
      && m == l.(oldest := m.oldest) && l.oldest <= m.oldest <= k && SlotMatches(m, m.oldest)
      && forall j {:trigger SlotMatches(l, j)} :: l.oldest <= j < m.oldest ==> !SlotMatches(l, j)
  {
    var head := FindValidHead(l, l.oldest);
    assert head <= k;
  }

  // Quick readers.

  /** A quick call enters at once exactly when no thread is writing, whatever the queue holds; otherwise it
      sleeps. It draws no ticket and leaves the queue as it was. */
  lemma QuickCallIff(threads: nat, ringSize: nat, s: System, i: nat)
    requires Reachable(threads, ringSize, s) && Enabled(s, CallQuick(i))
    ensures WellFormed(s.lock)
    ensures var t := Apply(s, CallQuick(i));
      && |t.threads| == |s.threads|
      && t.lock.next == s.lock.next && t.lock.oldest == s.lock.oldest && t.lock.slot == s.lock.slot
      && t.threads[i] == (if forall j :: 0 <= j < |s.threads| ==> s.threads[j] != Writing then Reading else Quick(true))
  {
    ReachableIsTimely(threads, ringSize, s);
    if s.lock.writers > 0 {
      var j := CountFind(s.threads, HoldsWrite);
      assert s.threads[j] == Writing;
    } else if j :| 0 <= j < |s.threads| && s.threads[j] == Writing {
      CountSome(s.threads, j, HoldsWrite);
    }
  }
}
