/** What can happen to a reader that a batch covered and that does not run in time, and how few threads it
    takes: with two threads, whatever the ring size, it can be left asleep with nothing held, its call can
    fail, and the count it leaves behind can outlive every user of the lock. One thread alone is safe. */
module LockRuns {
  import opened LockSteps
  import opened LockThreads
  import opened LockSystem
  import opened LockQueue
  import opened LockFairness
  import opened LockLate
  import opened LockRing

  /** Thread `i` sleeps in a read lock call although destroying the lock is allowed. */
  ghost predicate Stranded(s: System, i: int) {
    0 <= i < |s.threads| && s.threads[i].Queued? && s.threads[i].request == Read && Asleep(s.threads[i]) && DestroyAllowed(s.lock)
  }

  /** Thread `i`'s read lock call fails when it next runs. */
  ghost predicate ReadFails(s: System, i: int) {
    && 0 <= i < |s.threads| && s.threads[i].Queued? && s.threads[i].request == Read
    && WellFormed(s.lock) && Pass(s.lock, s.threads[i]).outcome == ConsumeFailed
  }

  /** Nobody uses the lock, and it counts a reader. */
  ghost predicate Leaked(s: System) {
    0 < s.lock.readers && forall i {:trigger s.threads[i]} :: 0 <= i < |s.threads| ==> s.threads[i] == Idle
  }

  // One thread alone.

  ghost predicate Solo(s: System) {
    Orderly(s) && |s.threads| <= 1 && s.leaked == 0 && (|s.threads| == 1 ==> !InCall(s.threads[0]))
  }

  lemma SoloQueueIsEmpty(s: System)
    requires Solo(s)
    ensures s.lock.oldest == s.lock.next
  {
    if s.lock.oldest < s.lock.next {
      var i := FrontHasAnOwner(s);
    }
  }

  lemma FrontHasAnOwner(s: System) returns (i: nat)
    requires Orderly(s) && s.lock.oldest < s.lock.next
    ensures i < |s.threads| && s.threads[i].Queued?
  {
    var all := Interval(0, |s.threads|);
    assert Owned(s.threads, s.lock.oldest, all);
    i :| i in all && 0 <= i < |s.threads| && s.threads[i].Queued? && s.threads[i].ticket == s.lock.oldest;
  }

  lemma SoloCounts(s: System)
    requires Solo(s) && |s.threads| == 1 && s.threads[0] == Idle
    ensures s.lock.readers == 0 && s.lock.writers == 0 && s.lock.quickWaiters == 0
  {
    NothingCounted(s.threads, HoldsRead);
    NothingCounted(s.threads, HoldsWrite);
    NothingCounted(s.threads, QuickWait);
  }

  lemma SoloCall(s: System, r: Request, t: System)
    requires Solo(s) && |s.threads| == 1 && s.threads[0] == Idle && (r == Read || r == Write)
    requires t == Apply(s, if r == Read then CallRead(0) else CallWrite(0)) && Orderly(t)
    ensures Solo(t)
  {
    SoloQueueIsEmpty(s);
    SoloCounts(s);
    JoinKeepsOrder(s, 0, r);
    JoinKeepsWellFormed(s.lock, r);
    FirstPass(s, 0, r, t);
    var j := Joined(s, 0, r);
    assert Placed(j.lock, j.covered, j.threads[0]);
    if r == Read {
      ReadAttemptCases(j.lock, s.lock.next);
    } else {
      WriteAttemptCases(j.lock, s.lock.next);
    }
    assert Pass(j.lock, j.threads[0]).outcome == Granted;
  }

  lemma StepKeepsSolo(s: System, step: Step)
    requires Solo(s) && Enabled(s, step)
    ensures Solo(Apply(s, step))
  {
    StepKeepsOrder(s, step);
    match step
    case CallRead(_) => SoloCall(s, Read, Apply(s, step));
    case CallWrite(_) => SoloCall(s, Write, Apply(s, step));
    case CallQuick(_) => SoloCounts(s);
    case _ =>
  }

  lemma {:induction false} RunKeepsSolo(s: System, run: seq<Step>, t: System)
    requires Solo(s) && Reaches(s, run, t)
    ensures Solo(t)
    decreases |run|
  {
    if run != [] {
      StepKeepsSolo(s, run[0]);
      RunKeepsSolo(Apply(s, run[0]), run[1..], t);
    }
  }

  lemma AloneIsSafe(n: nat, r: nat, s: System)
    requires Reachable(n, r, s) && n < 2
    ensures forall i :: !Stranded(s, i) && !ReadFails(s, i)
    ensures !Leaked(s)
  {
    StartIsOrderly(n, r);
    var run :| Reaches(Start(n, r), run, s);
    RunKeepsSolo(Start(n, r), run, s);
    if |s.threads| == 1 && s.threads[0] == Idle { SoloCounts(s); }
  }

  // Two threads: one is left behind.

  /** Thread `v` waits to read with ticket `t` below an empty queue, and everybody else is idle. */
  ghost predicate LeftBehind(s: System, n: nat, r: nat, v: nat, t: int) {
    && v < n && Shaped(s, n, r) && s.leaked == 0
    && s.lock.readers == 0 && s.lock.writers == 0 && s.lock.quickWaiters == 0 && s.lock.batchEnd == -1
    && s.lock.oldest == s.lock.next && 0 <= t < s.lock.next
    && s.threads[v].Queued? && s.threads[v].request == Read && s.threads[v].ticket == t
    && forall i {:trigger s.threads[i]} :: 0 <= i < n && i != v ==> s.threads[i] == Idle
  }

  /** The lock is free, thread 1 waits to read with ticket 1 at the front, everybody else is idle. */
  ghost predicate OneWaits(s: System, n: nat, r: nat) {
    && 2 <= n && Shaped(s, n, r) && s.leaked == 0
    && s.lock.readers == 0 && s.lock.writers == 0 && s.lock.quickWaiters == 0 && s.lock.batchEnd == -1
    && s.lock.oldest == 1 && s.lock.next == 2 && SlotMatchesAs(s.lock, 1, Read)
    && s.threads[1] == Queued(Read, 1, false)
    && forall i {:trigger s.threads[i]} :: 0 <= i < n && i != 1 ==> s.threads[i] == Idle
  }

  lemma ReaderQueues(n: nat, r: nat) returns (s: System)
    requires 0 < r && 2 <= n
    ensures Reachable(n, r, s) && OneWaits(s, n, r)
  {
    hide *;
    StartIsReachable(n, r);
    FirstWriter(n, r);
    StartShape(n, r);
    ReachableThenStep(n, r, Start(n, r), CallWrite(0));
    var a := Apply(Start(n, r), CallWrite(0));
    ReaderBehindWriter(a, n, r);
    ReachableThenStep(n, r, a, CallRead(1));
    ReachableThenStep(n, r, Apply(a, CallRead(1)), ReleaseWrite(0));
    s := Apply(Apply(a, CallRead(1)), ReleaseWrite(0));
  }

  lemma StartShape(n: nat, r: nat)
    requires 0 < r && 0 < n
    ensures WellFormed(Start(n, r).lock) && Enabled(Start(n, r), CallWrite(0))
    ensures var a := Apply(Start(n, r), CallWrite(0)); a.leaked == 0 && WellFormed(a.lock)
  {
    StartIsReachable(n, r);
    ReachableThenStep(n, r, Start(n, r), CallWrite(0));
    MutualExclusion(n, r, Apply(Start(n, r), CallWrite(0)));
  }

  lemma ReaderBehindWriter(a: System, n: nat, r: nat)
    requires 2 <= n && Filled(a, n, r, 0) && a.leaked == 0
    ensures WellFormed(a.lock) && Enabled(a, CallRead(1))
    ensures var b := Apply(a, CallRead(1)); WellFormed(b.lock) && Enabled(b, ReleaseWrite(0)) && OneWaits(Apply(b, ReleaseWrite(0)), n, r)
  {
    JoinKeepsWellFormed(a.lock, Read);
    var b := Apply(a, CallRead(1));
    assert b.lock == Join(a.lock, Read) && b.threads == a.threads[1 := Queued(Read, 1, true)];
    assert SlotMatchesAs(b.lock, 1, Read);
    var s := Apply(b, ReleaseWrite(0));
    assert SlotMatchesAs(s.lock, 1, Read);
  }

  /** A reader whose ticket is the last one out opens a batch that ends with it. */
  lemma LastTicketLeads(l: Lock, k: int, from: int)
    requires WellFormed(l) && l.writers == 0 && l.batchEnd == -1 && l.next == k + 1 && 0 <= from <= k && l.oldest == from
    requires SlotMatchesAs(l, k, Read) && forall j {:trigger SlotMatches(l, j)} :: from <= j < k ==> !SlotMatches(l, j)
    ensures ReadAttempt(l, k) == Effect(Consume(l.(oldest := k + 1, batchEnd := k, readers := l.readers + 1), k), Granted, true)
  {
    var h := l.(oldest := k);
    assert FindValidHead(l, from) == k;
    assert !SlotMatchesAs(h, k + 1, Read);
    assert SlotMatchesAs(h, k, Read);
    assert BatchScan(h, k + 1) == k + 1 && BatchScan(h, k) == k + 1;
  }

  /** Two entries or more: thread 1's batch covers thread 0's ticket, and ends before thread 0 runs. */
  lemma StrandWithRoom(n: nat, r: nat, s: System) returns (t: System)
    requires Reachable(n, r, s) && OneWaits(s, n, r) && 2 <= r
    ensures Reachable(n, r, t) && LeftBehind(t, n, r, 0, 2)
  {
    hide *;
    var a := SecondReaderQueues(n, r, s);
    BothAreCovered(a, n, r);
    ReachableThenStep(n, r, a, Retry(1));
    ReachableThenStep(n, r, Apply(a, Retry(1)), ReleaseRead(1));
    t := Apply(Apply(a, Retry(1)), ReleaseRead(1));
  }

  /** Threads 0 and 1 wait to read with tickets 2 and 1, thread 1 awake; everybody else is idle. */
  ghost predicate TwoWait(a: System, n: nat, r: nat) {
    && 2 <= n && Shaped(a, n, r) && a.leaked == 0
    && a.lock.readers == 0 && a.lock.writers == 0 && a.lock.quickWaiters == 0 && a.lock.batchEnd == -1
    && a.lock.oldest == 1 && a.lock.next == 3 && SlotMatchesAs(a.lock, 1, Read) && SlotMatchesAs(a.lock, 2, Read)
    && a.threads[0] == Queued(Read, 2, true) && a.threads[1] == Queued(Read, 1, false)
    && forall i {:trigger a.threads[i]} :: 2 <= i < n ==> a.threads[i] == Idle
  }

  lemma BothAreCovered(a: System, n: nat, r: nat)
    requires TwoWait(a, n, r)
    ensures WellFormed(a.lock) && Enabled(a, Retry(1))
    ensures var b := Apply(a, Retry(1));
      WellFormed(b.lock) && Enabled(b, ReleaseRead(1)) && LeftBehind(Apply(b, ReleaseRead(1)), n, r, 0, 2)
  {
    TwoAreCovered(a.lock);
    var b := Apply(a, Retry(1));
    assert b.threads[1] == Reading && b.threads[0] == Queued(Read, 2, false) && !b.jammed;
  }

  lemma SecondReaderQueues(n: nat, r: nat, s: System) returns (a: System)
    requires Reachable(n, r, s) && OneWaits(s, n, r) && 2 <= r
    ensures Reachable(n, r, a) && TwoWait(a, n, r)
  {
    var l := Join(s.lock, Read);
    JoinKeepsWellFormed(s.lock, Read);
    EntriesDiffer(r, 1, 2);
    assert SlotMatchesAs(l, 1, Read) && SlotMatchesAs(l, 2, Read);
    assert FindValidHead(l, 1) == 1;
    assert ReadAttempt(l, 2) == Effect(l, Waits, false);
    ReachableThenStep(n, r, s, CallRead(0));
    a := Apply(s, CallRead(0));
  }

  lemma TwoAreCovered(l: Lock)
    requires WellFormed(l) && l.writers == 0 && l.batchEnd == -1 && l.oldest == 1 && l.next == 3
    requires SlotMatchesAs(l, 1, Read) && SlotMatchesAs(l, 2, Read)
    ensures ReadAttempt(l, 1) == Effect(Consume(l.(oldest := 3, batchEnd := 2, readers := l.readers + 1), 1), Granted, true)
    ensures WellFormed(ReadAttempt(l, 1).lock)
  {
    assert FindValidHead(l, 1) == 1 && l.(oldest := 1) == l;
    assert !SlotMatchesAs(l, 3, Read);
    assert BatchScan(l, 3) == 3 && BatchScan(l, 2) == 3 && BatchScan(l, 1) == 3;
  }

  /** One entry: thread 0's ticket takes it over from thread 1. */
  lemma StrandWithoutRoom(n: nat, s: System) returns (t: System)
    requires Reachable(n, 1, s) && OneWaits(s, n, 1)
    ensures Reachable(n, 1, t) && LeftBehind(t, n, 1, 1, 1)
  {
    var l := Join(s.lock, Read);
    JoinKeepsWellFormed(s.lock, Read);
    assert SlotMatchesAs(l, 2, Read) && !SlotMatches(l, 1);
    LastTicketLeads(l, 2, 1);
    ReachableThenStep(n, 1, s, CallRead(0));
    var a := Apply(s, CallRead(0));
    assert a.threads[0] == Reading && a.threads[1] == Queued(Read, 1, false) && !a.jammed;
    ReachableThenStep(n, 1, a, ReleaseRead(0));
    t := Apply(a, ReleaseRead(0));
  }

  lemma FallsAsleep(n: nat, r: nat, v: nat, k: int, s: System) returns (t: System)
    requires Reachable(n, r, s) && LeftBehind(s, n, r, v, k)
    ensures Reachable(n, r, t) && Stranded(t, v)
  {
    if Asleep(s.threads[v]) {
      t := s;
    } else {
      assert FindValidHead(s.lock, s.lock.oldest) == s.lock.next;
      ReachableThenStep(n, r, s, Retry(v));
      t := Apply(s, Retry(v));
    }
  }

  /** Another thread reads: a batch is open above ticket `t`, and only that thread holds the lock. */
  ghost predicate ReadAbove(s: System, n: nat, r: nat, v: nat, u: nat, t: int) {
    && u < n && v < n && u != v && Shaped(s, n, r) && s.leaked == 0
    && s.lock.readers == 1 && s.lock.writers == 0 && s.lock.quickWaiters == 0
    && s.lock.oldest == s.lock.next == s.lock.batchEnd + 1 && 0 <= t < s.lock.batchEnd
    && s.threads[u] == Reading && s.threads[v] == Queued(Read, t, false)
    && forall i {:trigger s.threads[i]} :: 0 <= i < n && i != v && i != u ==> s.threads[i] == Idle
  }

  lemma AnotherReads(n: nat, r: nat, v: nat, u: nat, k: int, s: System) returns (t: System)
    requires Reachable(n, r, s) && LeftBehind(s, n, r, v, k) && u < n && u != v
    ensures Reachable(n, r, t) && ReadAbove(t, n, r, v, u, k) && t.lock.next == s.lock.next + 1
  {
    var l := Join(s.lock, Read);
    JoinKeepsWellFormed(s.lock, Read);
    assert SlotMatchesAs(l, s.lock.next, Read);
    LastTicketLeads(l, s.lock.next, s.lock.next);
    ReachableThenStep(n, r, s, CallRead(u));
    t := Apply(s, CallRead(u));
    assert t.threads[u] == Reading && t.threads[v] == Queued(Read, k, false);
  }

  lemma AnotherIsDone(n: nat, r: nat, v: nat, u: nat, k: int, s: System) returns (t: System)
    requires Reachable(n, r, s) && ReadAbove(s, n, r, v, u, k)
    ensures Reachable(n, r, t) && LeftBehind(t, n, r, v, k) && t.lock.next == s.lock.next
  {
    ReachableThenStep(n, r, s, ReleaseRead(u));
    t := Apply(s, ReleaseRead(u));
  }

  /** The other thread reads again and again until a whole ring of later tickets is out. */
  lemma {:induction false} OverrunReader(n: nat, r: nat, v: nat, u: nat, k: int, s: System) returns (t: System)
    requires Reachable(n, r, s) && LeftBehind(s, n, r, v, k) && u < n && u != v
    ensures Reachable(n, r, t) && ReadAbove(t, n, r, v, u, k) && ReadFails(t, v)
    decreases k + r - s.lock.next
  {
    t := AnotherReads(n, r, v, u, k, s);
    LateReaderAdmittedIff(n, r, t, v);
    if t.lock.next <= k + r {
      var a := AnotherIsDone(n, r, v, u, k, t);
      t := OverrunReader(n, r, v, u, k, a);
    }
  }

  lemma CountOutlivesUsers(n: nat, r: nat, v: nat, u: nat, k: int, s: System) returns (t: System)
    requires Reachable(n, r, s) && ReadAbove(s, n, r, v, u, k) && ReadFails(s, v)
    ensures Reachable(n, r, t) && Leaked(t)
  {
    ReachableThenStep(n, r, s, Retry(v));
    var a := Apply(s, Retry(v));
    assert a.lock == s.lock.(readers := 2) && a.threads == s.threads[v := Idle] && !a.jammed;
    ReachableThenStep(n, r, a, ReleaseRead(u));
    t := Apply(a, ReleaseRead(u));
  }

  /** For every ring size: a reader can be stranded, a read lock call can fail, and a reader count can
      outlive every user of the lock, each exactly when there are at least two threads. */
  lemma TwoThreadsSuffice(n: nat, r: nat)
    requires 0 < r
    ensures (exists s, i :: Reachable(n, r, s) && Stranded(s, i)) <==> 2 <= n
    ensures (exists s, i :: Reachable(n, r, s) && ReadFails(s, i)) <==> 2 <= n
    ensures (exists s :: Reachable(n, r, s) && Leaked(s)) <==> 2 <= n
  {
    if 2 <= n {
      var a := ReaderQueues(n, r);
      var b, v, u, k := a, 0, 1, 2;
      if r == 1 {
        b := StrandWithoutRoom(n, a);
        v, u, k := 1, 0, 1;
      } else {
        b := StrandWithRoom(n, r, a);
      }
      var c := FallsAsleep(n, r, v, k, b);
      var d := OverrunReader(n, r, v, u, k, b);
      var e := CountOutlivesUsers(n, r, v, u, k, d);
    } else {
      forall s | Reachable(n, r, s)
        ensures !Leaked(s) && forall i :: !Stranded(s, i) && !ReadFails(s, i)
      {
        AloneIsSafe(n, r, s);
      }
    }
  }
}
