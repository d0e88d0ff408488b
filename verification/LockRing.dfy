/** The ring must have an entry for every thread, and that is enough: with more threads than entries, and
    only then, a writer's ticket can be lost, a writer overtaken, and a call return with the mutex locked. */
module LockRing {
  import opened LockSteps
  import opened LockThreads
  import opened LockSystem
  import opened LockQueue
  import opened LockFairness

  /** A waiting writer's ticket is no longer in its ring entry. */
  ghost predicate LosesATicket(s: System) {
    0 < |s.lock.slot| &&
    exists i :: 0 <= i < |s.threads| && s.threads[i].Queued? && s.threads[i].request == Write && !SlotMatches(s.lock, s.threads[i].ticket)
  }

  /** A waiting writer has an earlier ticket than somebody already admitted. */
  ghost predicate WriterOvertaken(s: System) {
    exists i, k :: 0 <= i < |s.threads| && s.threads[i].Queued? && s.threads[i].request == Write && 0 <= k < |s.log|
                   && s.threads[i].ticket < s.log[k].ticket
  }

  /** A waiting ticket is neither queued in its ring entry nor a READ ticket that a batch covered. */
  ghost predicate OutOfPlace(s: System) {
    0 < |s.lock.slot| == |s.lock.request| &&
    exists i :: 0 <= i < |s.threads| && !Placed(s.lock, s.covered, s.threads[i])
  }

  lemma LostIsOutOfPlace(s: System)
    requires LosesATicket(s) && WellFormed(s.lock)
    ensures OutOfPlace(s)
  {
    var i :| 0 <= i < |s.threads| && s.threads[i].Queued? && s.threads[i].request == Write && !SlotMatches(s.lock, s.threads[i].ticket);
    assert !Placed(s.lock, s.covered, s.threads[i]);
  }

  /** With an entry for every thread none of this happens. */
  lemma EnoughEntries(n: nat, r: nat, s: System)
    requires Reachable(n, r, s) && n <= r
    ensures !LosesATicket(s) && !OutOfPlace(s) && !WriterOvertaken(s) && !s.jammed
  {
    ReachableIsOrderly(n, r, s);
    ReachableIsFair(n, r, s);
    forall i | 0 <= i < |s.threads| && s.threads[i].Queued? && s.threads[i].request == Write
      ensures SlotMatches(s.lock, s.threads[i].ticket) && s.lock.oldest <= s.threads[i].ticket
    {
      assert Placed(s.lock, s.covered, s.threads[i]);
    }
  }

  // The run: thread 0 writes while threads 1 .. r queue to write, and then asks again.

  ghost predicate Shaped(s: System, n: nat, r: nat) {
    |s.threads| == n && WellFormed(s.lock) && |s.lock.slot| == r && !s.jammed
  }

  ghost predicate WaitsAs(s: System, i: int, ticket: int) {
    0 <= i < |s.threads| && s.threads[i].Queued? && s.threads[i].request == Write && s.threads[i].ticket == ticket
  }

  /** Thread 0 writes; threads 1 .. k wait with tickets 1 .. k, each in its entry. */
  ghost predicate Filled(s: System, n: nat, r: nat, k: nat) {
    && 0 < r && k < n && k <= r && Shaped(s, n, r)
    && s.lock.readers == 0 && s.lock.writers == 1 && s.lock.quickWaiters == 0 && s.lock.next == k + 1 && s.lock.oldest == 1
    && s.threads[0] == Writing
    && (forall t {:trigger WaitsAs(s, t, t)} :: 1 <= t <= k ==> WaitsAs(s, t, t))
    && (forall t {:trigger SlotMatchesAs(s.lock, t, Write)} :: 1 <= t <= k ==> SlotMatchesAs(s.lock, t, Write))
    && (forall i {:trigger s.threads[i]} :: k < i < n ==> s.threads[i] == Idle)
  }

  lemma FirstWriter(n: nat, r: nat)
    requires 0 < r && 0 < n
    ensures Enabled(Start(n, r), CallWrite(0)) && Filled(Apply(Start(n, r), CallWrite(0)), n, r, 0)
  {
    var l := NewLock(r);
    JoinKeepsWellFormed(l, Write);
    assert SlotMatchesAs(Join(l, Write), 0, Write);
    assert FindValidHead(Join(l, Write), 0) == 0;
  }

  lemma FillOne(s: System, n: nat, r: nat, k: nat)
    requires Filled(s, n, r, k) && k < r && k + 1 < n
    ensures Enabled(s, CallWrite(k + 1)) && Filled(Apply(s, CallWrite(k + 1)), n, r, k + 1)
  {
    var t := Apply(s, CallWrite(k + 1));
    JoinKeepsWellFormed(s.lock, Write);
    assert t.lock == Join(s.lock, Write);
    forall j | 1 <= j <= k + 1
      ensures SlotMatchesAs(t.lock, j, Write)
    {
      if j <= k {
        assert SlotMatchesAs(s.lock, j, Write);
        EntriesDiffer(r, j, k + 1);
      }
    }
    forall j | 1 <= j <= k + 1
      ensures WaitsAs(t, j, j)
    {
      if j <= k { assert WaitsAs(s, j, j); }
    }
  }

  lemma {:induction false} FillUpTo(n: nat, r: nat, k: nat) returns (s: System)
    requires 0 < r < n && k <= r
    ensures Reachable(n, r, s) && Filled(s, n, r, k)
  {
    if k == 0 {
      StartIsReachable(n, r);
      FirstWriter(n, r);
      ReachableThenStep(n, r, Start(n, r), CallWrite(0));
      s := Apply(Start(n, r), CallWrite(0));
    } else {
      var before := FillUpTo(n, r, k - 1);
      FillOne(before, n, r, k - 1);
      ReachableThenStep(n, r, before, CallWrite(k));
      s := Apply(before, CallWrite(k));
    }
  }

  /** The thread that holds ticket `t` once thread 0 has taken ticket `r + 1`. */
  function OwnerOf(r: nat, t: nat): nat {
    if t == r + 1 then 0 else t
  }

  /** Ticket 1 has lost its entry to ticket `r + 1`; the lock is free and tickets `k .. r + 1` are queued. */
  ghost predicate Draining(s: System, n: nat, r: nat, k: nat) {
    && 0 < r < n && 2 <= k <= r + 2 && Shaped(s, n, r)
    && s.lock.readers == 0 && s.lock.writers == 0 && s.lock.quickWaiters == 0 && s.lock.next == r + 2 && s.lock.oldest == k
    && WaitsAs(s, 1, 1) && !SlotMatches(s.lock, 1)
    && (forall t {:trigger OwnerOf(r, t)} :: k <= t <= r + 1 ==> WaitsAs(s, OwnerOf(r, t), t))
    && (forall t {:trigger SlotMatchesAs(s.lock, t, Write)} :: k <= t <= r + 1 ==> SlotMatchesAs(s.lock, t, Write))
    && (2 < k ==> Grant(true, k - 1) in s.log)
  }

  lemma WakeOne(s: System, n: nat, r: nat, k: nat, i: nat)
    requires Draining(s, n, r, k) && i < n && Asleep(s.threads[i])
    ensures Enabled(s, Wake(i)) && Draining(Apply(s, Wake(i)), n, r, k) && !Asleep(Apply(s, Wake(i)).threads[i])
  {
    var t := Apply(s, Wake(i));
    WaitsSurvive(s, t, n, r, k);
  }

  /** Waking threads changes no place in the queue. */
  lemma WaitsSurvive(s: System, t: System, n: nat, r: nat, k: nat)
    requires 0 < r < n && 2 <= k <= r + 2 && |t.threads| == n == |s.threads|
    requires WaitsAs(s, 1, 1) && forall j {:trigger OwnerOf(r, j)} :: k <= j <= r + 1 ==> WaitsAs(s, OwnerOf(r, j), j)
    requires forall i {:trigger t.threads[i]} :: 0 <= i < n && s.threads[i].Queued? ==> t.threads[i] == s.threads[i] || t.threads[i] == Awake(s.threads[i])
    ensures WaitsAs(t, 1, 1) && forall j {:trigger OwnerOf(r, j)} :: k <= j <= r + 1 ==> WaitsAs(t, OwnerOf(r, j), j)
  {
    forall j | k <= j <= r + 1
      ensures WaitsAs(t, OwnerOf(r, j), j)
    {
      assert WaitsAs(s, OwnerOf(r, j), j);
    }
  }

  /** The lock once the writer at the front has been admitted. */
  function Admitted(l: Lock, k: int): Lock
    requires 0 < |l.slot| == |l.request|
  {
    Consume(l.(writers := 1), k).(oldest := k + 1, batchEnd := -1)
  }

  lemma FrontIsAdmitted(l: Lock, k: nat, r: nat)
    requires WellFormed(l) && |l.slot| == r && l.readers == 0 && l.writers == 0 && l.quickWaiters == 0
    requires l.oldest == k && 2 <= k <= r + 1 && l.next == r + 2
    requires forall t {:trigger SlotMatchesAs(l, t, Write)} :: k <= t <= r + 1 ==> SlotMatchesAs(l, t, Write)
    ensures WriteAttempt(l, k) == Effect(Admitted(l, k), Granted, false) && WellFormed(Admitted(l, k))
    ensures forall t {:trigger SlotMatchesAs(Admitted(l, k), t, Write)} :: k < t <= r + 1 ==> SlotMatchesAs(Admitted(l, k), t, Write)
  {
    assert SlotMatchesAs(l, k, Write);
    var l1 := l.(writers := 1);
    assert l.(oldest := k).(writers := 1) == l1;
    ConsumeKeepsWellFormed(l1, k);
    var l2 := Consume(l1, k);
    forall t | k < t <= r + 1
      ensures SlotMatchesAs(l2, t, Write)
    {
      assert SlotMatchesAs(l, t, Write);
      EntriesDiffer(r, k, t);
    }
    assert k + 1 < l.next ==> SlotMatchesAs(l2, k + 1, Write);
    assert FindValidHead(l2, k + 1) == k + 1;
    forall t | k < t <= r + 1
      ensures SlotMatchesAs(Admitted(l, k), t, Write)
    {
      assert SlotMatchesAs(l2, t, Write);
    }
  }

  /** The thread at the front is awake: it is admitted and releases. */
  lemma AdmitAwake(n: nat, r: nat, k: nat, s: System) returns (t: System)
    requires Reachable(n, r, s) && Draining(s, n, r, k) && k <= r + 1 && !Asleep(s.threads[OwnerOf(r, k)])
    ensures Reachable(n, r, t) && Draining(t, n, r, k + 1)
  {
    var o := OwnerOf(r, k);
    assert WaitsAs(s, o, k);
    FrontIsAdmitted(s.lock, k, r);
    ReachableThenStep(n, r, s, Retry(o));
    var m := Apply(s, Retry(o));
    assert m.lock == Admitted(s.lock, k) && m.threads == s.threads[o := Writing] && m.log == s.log + [Grant(true, k)];
    assert !m.jammed;
    ReachableThenStep(n, r, m, ReleaseWrite(o));
    t := Apply(m, ReleaseWrite(o));
    DrainedOne(s, m, t, n, r, k);
  }

  lemma DrainedOne(s: System, m: System, t: System, n: nat, r: nat, k: nat)
    requires Draining(s, n, r, k) && k <= r + 1
    requires m.lock == Admitted(s.lock, k) && m.threads == s.threads[OwnerOf(r, k) := Writing] && m.log == s.log + [Grant(true, k)] && !m.jammed
    requires WellFormed(m.lock) && Enabled(m, ReleaseWrite(OwnerOf(r, k))) && t == Apply(m, ReleaseWrite(OwnerOf(r, k)))
    requires forall j {:trigger SlotMatchesAs(m.lock, j, Write)} :: k < j <= r + 1 ==> SlotMatchesAs(m.lock, j, Write)
    ensures Draining(t, n, r, k + 1)
  {
    assert t.lock == m.lock.(writers := 0);
    forall j | k + 1 <= j <= r + 1
      ensures SlotMatchesAs(t.lock, j, Write)
    {
      assert SlotMatchesAs(m.lock, j, Write);
    }
    forall j | k + 1 <= j <= r + 1
      ensures WaitsAs(t, OwnerOf(r, j), j)
    {
      assert WaitsAs(s, OwnerOf(r, j), j) && OwnerOf(r, j) != OwnerOf(r, k);
    }
    assert m.log[|s.log|] == Grant(true, k);
  }

  lemma Admit(n: nat, r: nat, k: nat, s: System) returns (t: System)
    requires Reachable(n, r, s) && Draining(s, n, r, k) && k <= r + 1
    ensures Reachable(n, r, t) && Draining(t, n, r, k + 1)
  {
    var o := OwnerOf(r, k);
    assert WaitsAs(s, o, k);
    if Asleep(s.threads[o]) {
      WakeOne(s, n, r, k, o);
      ReachableThenStep(n, r, s, Wake(o));
      t := AdmitAwake(n, r, k, Apply(s, Wake(o)));
    } else {
      t := AdmitAwake(n, r, k, s);
    }
  }

  lemma {:induction false} DrainAll(n: nat, r: nat, k: nat, s: System) returns (t: System)
    requires Reachable(n, r, s) && Draining(s, n, r, k)
    ensures Reachable(n, r, t) && Draining(t, n, r, r + 2)
    decreases r + 2 - k
  {
    assert k <= r + 2;
    hide *;
    if k == r + 2 {
      t := s;
    } else {
      var u := Admit(n, r, k, s);
      t := DrainAll(n, r, k + 1, u);
    }
  }

  /** The writer that lost its entry finds the queue empty, and its call returns with the mutex locked. */
  lemma LostWriterJams(n: nat, r: nat, s: System) returns (t: System)
    requires Reachable(n, r, s) && Draining(s, n, r, r + 2)
    ensures Reachable(n, r, t) && t.jammed
  {
    assert WaitsAs(s, 1, 1);
    var u := s;
    if Asleep(s.threads[1]) {
      WakeOne(s, n, r, r + 2, 1);
      ReachableThenStep(n, r, s, Wake(1));
      u := Apply(s, Wake(1));
    }
    assert WaitsAs(u, 1, 1);
    assert FindValidHead(u.lock, u.lock.oldest) == u.lock.next;
    ReachableThenStep(n, r, u, Retry(1));
    t := Apply(u, Retry(1));
  }

  // Thread 0 takes the ticket that costs ticket 1 its entry.

  /** Nobody holds the lock; threads 1 .. r wait with tickets 1 .. r; the others are idle. */
  ghost predicate Freed(s: System, n: nat, r: nat) {
    && 0 < r < n && Shaped(s, n, r)
    && s.lock.readers == 0 && s.lock.writers == 0 && s.lock.quickWaiters == 0 && s.lock.next == r + 1 && s.lock.oldest == 1
    && s.threads[0] == Idle && (forall i {:trigger s.threads[i]} :: r < i < n ==> s.threads[i] == Idle)
    && (forall t {:trigger WaitsAs(s, t, t)} :: 1 <= t <= r ==> WaitsAs(s, t, t))
    && (forall t {:trigger SlotMatchesAs(s.lock, t, Write)} :: 1 <= t <= r ==> SlotMatchesAs(s.lock, t, Write))
  }

  lemma FreeUp(s: System, n: nat, r: nat)
    requires r < n && Filled(s, n, r, r)
    ensures Enabled(s, ReleaseWrite(0)) && Freed(Apply(s, ReleaseWrite(0)), n, r)
  {
    var t := Apply(s, ReleaseWrite(0));
    forall j | 1 <= j <= r
      ensures WaitsAs(t, j, j) && SlotMatchesAs(t.lock, j, Write)
    {
      assert WaitsAs(s, j, j) && SlotMatchesAs(s.lock, j, Write);
    }
  }

  /** The ring once ticket `r + 1` is in it. */
  lemma RingOverrun(l: Lock, r: nat)
    requires WellFormed(l) && |l.slot| == r && l.next == r + 1 && l.oldest == 1
    requires forall t {:trigger SlotMatchesAs(l, t, Write)} :: 1 <= t <= r ==> SlotMatchesAs(l, t, Write)
    ensures var m := Join(l, Write);
      && WellFormed(m) && !SlotMatches(m, 1) && FindValidHead(m, 1) == 2
      && forall t {:trigger SlotMatchesAs(m, t, Write)} :: 2 <= t <= r + 1 ==> SlotMatchesAs(m, t, Write)
  {
    var m := Join(l, Write);
    JoinKeepsWellFormed(l, Write);
    SameEntry(r, 1);
    forall t | 2 <= t <= r + 1
      ensures SlotMatchesAs(m, t, Write)
    {
      if t <= r {
        assert SlotMatchesAs(l, t, Write);
        EntriesDiffer(r, t, r + 1);
      }
    }
    assert SlotMatchesAs(m, 2, Write);
    assert FindValidHead(m, 2) == 2;
  }

  lemma OverrunOfMany(n: nat, r: nat, s: System) returns (t: System)
    requires Reachable(n, r, s) && Freed(s, n, r) && 2 <= r
    ensures Reachable(n, r, t) && Draining(t, n, r, 2) && t.threads == s.threads[0 := Queued(Write, r + 1, true)]
  {
    RingOverrun(s.lock, r);
    var m := Join(s.lock, Write);
    assert WriteAttempt(m, r + 1) == Effect(m.(oldest := 2), Waits, false);
    ReachableThenStep(n, r, s, CallWrite(0));
    t := Apply(s, CallWrite(0));
    assert t.lock == m.(oldest := 2) && t.threads == s.threads[0 := Queued(Write, r + 1, true)];
    forall j | 2 <= j <= r + 1
      ensures WaitsAs(t, OwnerOf(r, j), j) && SlotMatchesAs(t.lock, j, Write)
    {
      assert SlotMatchesAs(m, j, Write);
      if j <= r { assert WaitsAs(s, j, j); }
    }
    assert WaitsAs(s, 1, 1);
  }

  lemma OverrunOfOne(n: nat, s: System) returns (t: System)
    requires Reachable(n, 1, s) && Freed(s, n, 1)
    ensures Reachable(n, 1, t) && Draining(t, n, 1, 3)
  {
    RingOverrun(s.lock, 1);
    var m := Join(s.lock, Write);
    assert SlotMatchesAs(m, 2, Write);
    FrontIsAdmitted(m.(oldest := 2), 2, 1);
    assert m.(oldest := 2).(oldest := 2) == m.(oldest := 2);
    assert WriteAttempt(m, 2) == WriteAttempt(m.(oldest := 2), 2);
    ReachableThenStep(n, 1, s, CallWrite(0));
    var u := Apply(s, CallWrite(0));
    assert u.threads[0] == Writing && u.lock == Admitted(m.(oldest := 2), 2);
    ReachableThenStep(n, 1, u, ReleaseWrite(0));
    t := Apply(u, ReleaseWrite(0));
    assert WaitsAs(s, 1, 1);
    assert u.log[|s.log|] == Grant(true, 2);
  }

  /** With more threads than entries, all of it happens. */
  lemma TooFewEntries(n: nat, r: nat) returns (s: System, t: System)
    requires 0 < r < n
    ensures Reachable(n, r, s) && LosesATicket(s) && OutOfPlace(s) && WriterOvertaken(s)
    ensures Reachable(n, r, t) && t.jammed
  {
    var a := FillUpTo(n, r, r);
    FreeUp(a, n, r);
    ReachableThenStep(n, r, a, ReleaseWrite(0));
    var b := Apply(a, ReleaseWrite(0));
    if r == 1 {
      s := OverrunOfOne(n, b);
    } else {
      var c := OverrunOfMany(n, r, b);
      s := DrainAll(n, r, 2, c);
    }
    assert WaitsAs(s, 1, 1) && Grant(true, r + 1) in s.log;
    LostIsOutOfPlace(s);
    t := LostWriterJams(n, r, s);
  }

  /** The bound is exact: for every number of threads and every ring size, waiting writers keep their
      entries in every reachable state, every waiting ticket is in the queue or covered, no waiting writer is
      overtaken, and no call returns with the mutex locked, each exactly when there are at most as many threads as ring entries. */
  lemma RingBoundIsExact(n: nat, r: nat)
    requires 0 < r
    ensures (forall s :: Reachable(n, r, s) ==> !LosesATicket(s)) <==> n <= r
    ensures (forall s :: Reachable(n, r, s) ==> !OutOfPlace(s)) <==> n <= r
    ensures (forall s :: Reachable(n, r, s) ==> !WriterOvertaken(s)) <==> n <= r
    ensures (forall s :: Reachable(n, r, s) ==> !s.jammed) <==> n <= r
  {
    if n <= r {
      forall s | Reachable(n, r, s)
        ensures !LosesATicket(s) && !OutOfPlace(s) && !WriterOvertaken(s) && !s.jammed
      {
        EnoughEntries(n, r, s);
      }
    } else {
      var s, t := TooFewEntries(n, r);
    }
  }
}
