/** When a wakeup can be lost. With at most as many threads as ring entries, or with one entry, a thread
    asleep in a call would only wait again; with two entries or more and more threads than that, some run
    puts everybody to sleep while the lock is free and the thread at the front could be admitted. */
module LockWakeups {
  import opened LockSteps
  import opened LockThreads
  import opened LockSystem
  import opened LockQueue
  import opened LockLate
  import opened LockFairness
  import opened LockRing

  /** A thread sleeps although its next pass would not wait. */
  ghost predicate MissesAWakeup(s: System) {
    WellFormed(s.lock) && exists i :: 0 <= i < |s.threads| && Asleep(s.threads[i]) && Pass(s.lock, s.threads[i]).outcome != Waits
  }

  /** Nobody is counted as holding the lock, and somebody waits in the queue or as a quick reader. */
  predicate FreeWithWaiters(s: System) {
    s.lock.readers == 0 && s.lock.writers == 0 && (s.lock.oldest < s.lock.next || 0 < s.lock.quickWaiters)
  }

  /** An awake thread's next pass admits it. */
  ghost predicate AdmitsSomebody(s: System) {
    WellFormed(s.lock) && exists i: nat :: Enabled(s, Retry(i)) && Pass(s.lock, s.threads[i]).outcome == Granted
  }

  /** The lock is free and somebody could be admitted, but every thread is asleep or outside. */
  ghost predicate Deadlocked(s: System) {
    && WellFormed(s.lock) && !s.jammed
    && s.lock.readers == 0 && s.lock.writers == 0 && s.lock.quickWaiters == 0 && s.lock.oldest < s.lock.next
    && (forall i {:trigger s.threads[i]} :: 0 <= i < |s.threads| ==> s.threads[i].Idle? || Asleep(s.threads[i]))
    && exists i :: 0 <= i < |s.threads| && Asleep(s.threads[i]) && Pass(s.lock, s.threads[i]).outcome == Granted
  }

  // One ring entry: the last ticket issued has it, and sleepers wait for that ticket or for the holders.

  /** The ring entry that holds a thread's ticket says what it asked for. */
  ghost predicate Marked(l: Lock, th: Thread)
    requires 0 < |l.slot| == |l.request|
  {
    th.Queued? ==> (th.request == Read || th.request == Write) && (SlotMatches(l, th.ticket) ==> SlotMatchesAs(l, th.ticket, th.request))
  }

  ghost predicate AllMarked(s: System)
    requires 0 < |s.lock.slot| == |s.lock.request|
  {
    forall i {:trigger s.threads[i]} :: 0 <= i < |s.threads| ==> Marked(s.lock, s.threads[i])
  }

  /** With one ring entry, what keeps a sleeping thread from being admitted. */
  predicate Blocked(l: Lock, th: Thread)
    requires InCall(th)
  {
    if th.Quick? then l.writers > 0
    else if th.request == Write then
      l.readers > 0 || l.writers > 0 || l.quickWaiters > 0 || (l.oldest < l.next && th.ticket != l.next - 1)
    else l.writers > 0 || (th.ticket > l.batchEnd && (l.oldest == l.next || th.ticket != l.next - 1))
  }

  ghost predicate SleepersBlocked(s: System) {
    forall i {:trigger s.threads[i]} :: 0 <= i < |s.threads| && Asleep(s.threads[i]) ==> Blocked(s.lock, s.threads[i])
  }

  /** A lock with one entry, as reachable states have it. */
  ghost predicate OneEntry(l: Lock) {
    && WellFormed(l) && |l.slot| == 1 && 0 <= l.readers && 0 <= l.writers && 0 <= l.quickWaiters
    && -1 <= l.batchEnd < l.oldest + (if l.batchEnd == -1 then 1 else 0)
    && (l.oldest < l.next ==> l.slot[0] == l.next - 1)
  }

  ghost predicate Single(s: System) {
    && Fair(s) && |s.lock.slot| == 1
    && AllMarked(s)
    && (!s.jammed ==> SleepersBlocked(s))
  }

  lemma LastHasTheEntry(s: System)
    requires Fair(s) && |s.lock.slot| == 1
    ensures OneEntry(s.lock)
  {
    if s.lock.oldest < s.lock.next {
      var i :| 0 <= i < |s.threads| && s.threads[i].Queued? && s.threads[i].ticket == s.lock.next - 1;
      assert InRing(s.lock, s.threads[i]);
      SoleEntry(s.lock, s.threads[i].ticket);
    }
  }

  lemma SoleEntry(l: Lock, k: int)
    requires |l.slot| == 1
    ensures Index(l, k) == 0
  {
  }

  lemma SoleHead(l: Lock)
    requires OneEntry(l)
    ensures FindValidHead(l, l.oldest) == if l.oldest < l.next then l.next - 1 else l.next
  {
    var h := FindValidHead(l, l.oldest);
    SoleEntry(l, h);
    if l.oldest < l.next {
      SoleEntry(l, l.next - 1);
      assert SlotMatches(l, l.next - 1);
    }
  }

  /** A pass waits when the thread is blocked, and only leaves it waiting when it is blocked. */
  lemma PassBlocks(l: Lock, th: Thread)
    requires OneEntry(l) && InCall(th) && InRing(l, th) && Marked(l, th)
    ensures Blocked(l, th) ==> Pass(l, th).outcome == Waits
    ensures Pass(l, th).outcome == Waits ==> Blocked(Pass(l, th).lock, th)
    ensures FreeOf(l) && th.Queued? && th.ticket == l.next - 1 && l.oldest < l.next ==> Pass(l, th).outcome == Granted
  {
    SoleHead(l);
    if th.Queued? {
      SoleEntry(l, th.ticket);
      SoleEntry(l, l.next - 1);
      if th.request == Write { WriteBlocks(l, th); } else { ReadBlocks(l, th); }
    }
  }

  predicate FreeOf(l: Lock) {
    l.readers == 0 && l.writers == 0 && l.quickWaiters == 0
  }

  lemma WriteBlocks(l: Lock, th: Thread)
    requires OneEntry(l) && th.Queued? && th.request == Write && Marked(l, th)
    requires FindValidHead(l, l.oldest) == if l.oldest < l.next then l.next - 1 else l.next
    ensures var e := WriteAttempt(l, th.ticket);
      && (Blocked(l, th) ==> e.outcome == Waits)
      && (e.outcome == Waits ==> Blocked(e.lock, th))
      && (FreeOf(l) && th.ticket == l.next - 1 && l.oldest < l.next ==> e.outcome == Granted)
  {
  }

  lemma ReadBlocks(l: Lock, th: Thread)
    requires OneEntry(l) && th.Queued? && th.request == Read && Marked(l, th)
    requires FindValidHead(l, l.oldest) == if l.oldest < l.next then l.next - 1 else l.next
    ensures var e := ReadAttempt(l, th.ticket);
      && (Blocked(l, th) ==> e.outcome == Waits)
      && (e.outcome == Waits ==> Blocked(e.lock, th))
      && (FreeOf(l) && th.ticket == l.next - 1 && l.oldest < l.next ==> e.outcome == Granted)
  {
  }

  /** A pass that wakes nobody and does not jam leaves every blocked thread blocked. */
  lemma OthersStayBlocked(l: Lock, th: Thread, other: Thread)
    requires OneEntry(l) && InCall(th) && InRing(l, th) && Marked(l, th) && InCall(other)
    requires Blocked(l, other) && !Pass(l, th).broadcast && Pass(l, th).outcome != NotInserted
    ensures Blocked(Pass(l, th).lock, other)
  {
    SoleHead(l);
  }

  // Marks.

  lemma PassMarks(l: Lock, th: Thread)
    requires WellFormed(l) && InCall(th)
    ensures var m := Pass(l, th).lock;
      && |m.slot| == |l.slot| == |m.request|
      && ((m.slot == l.slot && m.request == l.request)
          || (th.Queued? && m.slot == l.slot[Index(l, th.ticket) := -1] && m.request == l.request[Index(l, th.ticket) := NoRequest]))
  {
  }

  lemma OthersStayMarked(l: Lock, m: Lock, th: Thread, other: Thread)
    requires 0 < |l.slot| == |l.request| == |m.slot| == |m.request| && InRing(l, other) && Marked(l, other)
    requires (m.slot == l.slot && m.request == l.request)
          || (th.Queued? && m.slot == l.slot[Index(l, th.ticket) := -1] && m.request == l.request[Index(l, th.ticket) := NoRequest])
    ensures Marked(m, other) && Marked(m, Awake(other))
  {
  }

  lemma PassKeepsMarks(s: System, i: nat)
    requires Timely(s) && AllMarked(s) && i < |s.threads| && InCall(s.threads[i])
    ensures |Passed(s, i).lock.slot| == |Passed(s, i).lock.request| == |s.lock.slot| && AllMarked(Passed(s, i))
  {
    var th, t := s.threads[i], Passed(s, i);
    PassMarks(s.lock, th);
    PassThreads(s, i);
    hide Pass, Passed, Exclusive;
    forall j | 0 <= j < |t.threads|
      ensures Marked(t.lock, t.threads[j])
    {
      assert InRing(s.lock, s.threads[j]) && Marked(s.lock, s.threads[j]);
      OthersStayMarked(s.lock, t.lock, th, s.threads[j]);
    }
  }

  lemma JoinKeepsMarks(s: System, i: nat, r: Request)
    requires Timely(s) && AllMarked(s) && i < |s.threads| && s.threads[i] == Idle && (r == Read || r == Write)
    ensures AllMarked(Joined(s, i, r))
  {
    var t := Joined(s, i, r);
    forall j | 0 <= j < |t.threads|
      ensures Marked(t.lock, t.threads[j])
    {
      assert InRing(s.lock, s.threads[j]) && Marked(s.lock, s.threads[j]);
    }
  }

  // Every step keeps the sleepers blocked.

  lemma PassKeepsSingle(s: System, i: nat)
    requires Single(s) && i < |s.threads| && InCall(s.threads[i]) && !s.jammed && Fair(Passed(s, i))
    ensures Single(Passed(s, i))
  {
    var th, t := s.threads[i], Passed(s, i);
    LastHasTheEntry(s);
    PassKeepsMarks(s, i);
    assert InRing(s.lock, th) && Marked(s.lock, th);
    PassBlocks(s.lock, th);
    if !t.jammed { PassKeepsBlocked(s, i); }
  }

  lemma PassKeepsBlocked(s: System, i: nat)
    requires OneEntry(s.lock) && SleepersBlocked(s) && i < |s.threads| && InCall(s.threads[i])
    requires InRing(s.lock, s.threads[i]) && Marked(s.lock, s.threads[i])
    requires !Passed(s, i).jammed
    ensures SleepersBlocked(Passed(s, i))
  {
    var th, t := s.threads[i], Passed(s, i);
    var e := Pass(s.lock, th);
    PassThreads(s, i);
    PassWakes(s, i);
    PassBlocks(s.lock, th);
    hide Pass, Passed, Blocked, OneEntry;
    forall j | 0 <= j < |t.threads| && Asleep(t.threads[j])
      ensures Blocked(t.lock, t.threads[j])
    {
      if j != i { OthersStayBlocked(s.lock, th, s.threads[j]); }
    }
  }

  lemma PassWakes(s: System, i: nat)
    requires WellFormed(s.lock) && i < |s.threads| && InCall(s.threads[i]) && !Passed(s, i).jammed
    ensures var t, e := Passed(s, i), Pass(s.lock, s.threads[i]);
      && e.outcome != NotInserted
      && forall j {:trigger t.threads[j]} :: 0 <= j < |s.threads| && j != i && Asleep(t.threads[j]) ==>
           !e.broadcast && t.threads[j] == s.threads[j]
  {
  }

  lemma JoinKeepsSingle(s: System, i: nat, r: Request)
    requires Single(s) && i < |s.threads| && s.threads[i] == Idle && (r == Read || r == Write)
    ensures Single(Joined(s, i, r))
  {
    var t := Joined(s, i, r);
    JoinKeepsFair(s, i, r);
    JoinKeepsMarks(s, i, r);
    forall j | 0 <= j < |t.threads| && Asleep(t.threads[j]) && !t.jammed
      ensures Blocked(t.lock, t.threads[j])
    {
      assert InRing(s.lock, s.threads[j]) && Blocked(s.lock, s.threads[j]);
    }
  }

  lemma CallKeepsSingle(s: System, i: nat, r: Request, t: System)
    requires Single(s) && !s.jammed && i < |s.threads| && s.threads[i] == Idle && (r == Read || r == Write) && Fair(t)
    requires WellFormed(Join(s.lock, r)) && t == Passed(Joined(s, i, r), i)
    ensures Single(t)
  {
    JoinKeepsSingle(s, i, r);
    PassKeepsSingle(Joined(s, i, r), i);
  }

  /** A step that leaves the ring alone and puts nobody in the queue. */
  lemma QuietKeepsSingle(s: System, t: System)
    requires Single(s) && Fair(t) && t.lock.slot == s.lock.slot && t.lock.request == s.lock.request
    requires |t.threads| == |s.threads| && (!t.jammed ==> SleepersBlocked(t))
    requires forall j {:trigger t.threads[j]} :: 0 <= j < |t.threads| && t.threads[j].Queued? ==>
               t.threads[j] == s.threads[j] || t.threads[j] == Awake(s.threads[j])
    ensures Single(t)
  {
    assert WellFormed(s.lock) && WellFormed(t.lock);
    hide Fair, SleepersBlocked;
    forall j | 0 <= j < |t.threads|
      ensures Marked(t.lock, t.threads[j])
    {
      assert Marked(s.lock, s.threads[j]);
    }
  }

  lemma QuickCallBlocks(s: System, i: nat)
    requires Exclusive(s) && SleepersBlocked(s) && Enabled(s, CallQuick(i))
    ensures SleepersBlocked(Apply(s, CallQuick(i)))
  {
    var t := Apply(s, CallQuick(i));
    forall j | 0 <= j < |t.threads| && Asleep(t.threads[j])
      ensures Blocked(t.lock, t.threads[j])
    {
      if j != i { assert Blocked(s.lock, s.threads[j]); }
    }
  }

  lemma ReleaseBlocks(s: System, step: Step)
    requires Exclusive(s) && SleepersBlocked(s) && Enabled(s, step) && (step.ReleaseRead? || step.ReleaseWrite? || step.Wake?)
    ensures SleepersBlocked(Apply(s, step))
  {
    var i, t := step.thread, Apply(s, step);
    if step.ReleaseRead? { CountSome(s.threads, i, HoldsRead); }
    forall j | 0 <= j < |t.threads| && Asleep(t.threads[j])
      ensures Blocked(t.lock, t.threads[j])
    {
      if j != i { assert Blocked(s.lock, s.threads[j]); }
    }
  }

  lemma StepKeepsSingle(s: System, step: Step)
    requires Single(s) && Enabled(s, step)
    ensures Single(Apply(s, step))
  {
    var i, t := step.thread, Apply(s, step);
    StepKeepsFair(s, step);
    match step
    case CallRead(_) =>
      JoinKeepsWellFormed(s.lock, Read);
      FirstPass(s, i, Read, t);
      CallKeepsSingle(s, i, Read, t);
    case CallWrite(_) =>
      JoinKeepsWellFormed(s.lock, Write);
      FirstPass(s, i, Write, t);
      CallKeepsSingle(s, i, Write, t);
    case Retry(_) =>
      PassKeepsSingle(s, i);
    case CallQuick(_) =>
      QuickCallBlocks(s, i);
      QuietKeepsSingle(s, t);
    case _ =>
      ReleaseBlocks(s, step);
      QuietKeepsSingle(s, t);
  }

  lemma {:induction false} RunKeepsSingle(s: System, run: seq<Step>, t: System)
    requires Single(s) && Reaches(s, run, t)
    ensures Single(t)
    decreases |run|
  {
    if run != [] {
      StepKeepsSingle(s, run[0]);
      RunKeepsSingle(Apply(s, run[0]), run[1..], t);
    }
  }

  lemma ReachableIsSingle(n: nat, s: System)
    requires Reachable(n, 1, s)
    ensures Single(s)
  {
    var run :| Reaches(Start(n, 1), run, s);
    StartIsReachable(n, 1);
    ReachableIsFair(n, 1, Start(n, 1));
    RunKeepsSingle(Start(n, 1), run, s);
  }

  /** With one ring entry no wakeup is lost, for any number of threads. */
  lemma OneEntryLosesNoWakeup(n: nat, s: System)
    requires Reachable(n, 1, s) && !s.jammed
    ensures !MissesAWakeup(s) && (FreeWithWaiters(s) ==> AdmitsSomebody(s))
  {
    ReachableIsSingle(n, s);
    LastHasTheEntry(s);
    forall i | 0 <= i < |s.threads| && Asleep(s.threads[i])
      ensures Pass(s.lock, s.threads[i]).outcome == Waits
    {
      assert InRing(s.lock, s.threads[i]) && Marked(s.lock, s.threads[i]) && Blocked(s.lock, s.threads[i]);
      PassBlocks(s.lock, s.threads[i]);
    }
    if FreeWithWaiters(s) { SingleAdmits(s); }
  }

  lemma SingleAdmits(s: System)
    requires Single(s) && OneEntry(s.lock) && !s.jammed && FreeWithWaiters(s)
    ensures AdmitsSomebody(s)
  {
    var i: nat;
    if 0 < s.lock.quickWaiters {
      i := CountFind(s.threads, QuickWait);
    } else {
      i :| 0 <= i < |s.threads| && s.threads[i].Queued? && s.threads[i].ticket == s.lock.next - 1;
      assert InRing(s.lock, s.threads[i]) && Marked(s.lock, s.threads[i]);
      PassBlocks(s.lock, s.threads[i]);
    }
    assert Enabled(s, Retry(i)) && Pass(s.lock, s.threads[i]).outcome == Granted;
  }

  // At most as many threads as entries.

  lemma EnoughEntriesLoseNoWakeup(n: nat, r: nat, s: System)
    requires Reachable(n, r, s) && n <= r
    ensures !MissesAWakeup(s) && (FreeWithWaiters(s) ==> AdmitsSomebody(s))
  {
    forall i: nat | i < |s.threads| && Asleep(s.threads[i])
      ensures WellFormed(s.lock) && Pass(s.lock, s.threads[i]).outcome == Waits
    {
      NoLostWakeup(n, r, s, i);
    }
    if FreeWithWaiters(s) {
      var i := SomebodyIsAdmitted(n, r, s);
    }
  }

  // Two entries or more, and more threads: everybody falls asleep. Threads 1 .. r queue to write behind
  // thread 0; it leaves; all but thread 1 find ticket 1 at the front and sleep; thread 0 asks again, takes
  // ticket 1's entry and sleeps behind ticket 2; thread 1 finds ticket 2 at the front and sleeps.

  ghost predicate AsleepFrom(s: System, lo: int, hi: int) {
    0 <= lo && hi <= |s.threads| && forall i {:trigger s.threads[i]} :: lo <= i < hi ==> Asleep(s.threads[i])
  }

  lemma FallAsleep(n: nat, r: nat, k: nat, s: System) returns (t: System)
    requires Reachable(n, r, s) && Freed(s, n, r) && 2 <= k <= r && AsleepFrom(s, 2, k)
    ensures Reachable(n, r, t) && Freed(t, n, r) && AsleepFrom(t, 2, k + 1)
  {
    assert WaitsAs(s, k, k) && SlotMatchesAs(s.lock, 1, Write);
    if Asleep(s.threads[k]) {
      t := s;
    } else {
      assert FindValidHead(s.lock, 1) == 1 && s.lock.(oldest := 1) == s.lock;
      assert WriteAttempt(s.lock, k) == Effect(s.lock, Waits, false);
      ReachableThenStep(n, r, s, Retry(k));
      t := Apply(s, Retry(k));
      assert t.lock == s.lock && t.threads == s.threads[k := Queued(Write, k, true)];
      forall j | 1 <= j <= r
        ensures WaitsAs(t, j, j) && SlotMatchesAs(t.lock, j, Write)
      {
        assert WaitsAs(s, j, j) && SlotMatchesAs(s.lock, j, Write);
      }
    }
  }

  lemma {:induction false} AllFallAsleep(n: nat, r: nat, k: nat, s: System) returns (t: System)
    requires Reachable(n, r, s) && Freed(s, n, r) && 2 <= k <= r + 1 && AsleepFrom(s, 2, k)
    ensures Reachable(n, r, t) && Freed(t, n, r) && AsleepFrom(t, 2, r + 1)
    decreases r + 1 - k
  {
    hide *;
    if k == r + 1 {
      t := s;
    } else {
      var u := FallAsleep(n, r, k, s);
      t := AllFallAsleep(n, r, k + 1, u);
    }
  }

  /** Thread 1 looks at a queue that starts at ticket 2. */
  lemma LostWriterSleeps(n: nat, r: nat, s: System) returns (t: System)
    requires Reachable(n, r, s) && Draining(s, n, r, 2)
    ensures Reachable(n, r, t) && Draining(t, n, r, 2) && t.threads == s.threads[1 := Queued(Write, 1, true)]
  {
    assert WaitsAs(s, 1, 1) && SlotMatchesAs(s.lock, 2, Write);
    if Asleep(s.threads[1]) {
      t := s;
    } else {
      assert FindValidHead(s.lock, 2) == 2 && s.lock.(oldest := 2) == s.lock;
      assert WriteAttempt(s.lock, 1) == Effect(s.lock, Waits, false);
      ReachableThenStep(n, r, s, Retry(1));
      t := Apply(s, Retry(1));
      forall j | 2 <= j <= r + 1
        ensures WaitsAs(t, OwnerOf(r, j), j)
      {
        assert WaitsAs(s, OwnerOf(r, j), j);
      }
    }
  }

  lemma FrontSleeps(n: nat, r: nat, s: System)
    requires Draining(s, n, r, 2) && 2 <= r && AsleepFrom(s, 0, r + 1)
    requires forall i {:trigger s.threads[i]} :: r < i < n ==> s.threads[i] == Idle
    ensures Deadlocked(s) && MissesAWakeup(s) && FreeWithWaiters(s) && !AdmitsSomebody(s)
  {
    FrontIsAdmitted(s.lock, 2, r);
    assert OwnerOf(r, 2) == 2 && WaitsAs(s, 2, 2);
    assert Asleep(s.threads[2]) && Pass(s.lock, s.threads[2]).outcome == Granted;
  }

  /** With two entries or more, and more threads than that, a run ends with everybody asleep. */
  lemma EverybodySleeps(n: nat, r: nat) returns (s: System)
    requires 2 <= r < n
    ensures Reachable(n, r, s) && Deadlocked(s) && MissesAWakeup(s) && FreeWithWaiters(s) && !AdmitsSomebody(s)
  {
    var a := FillUpTo(n, r, r);
    FreeUp(a, n, r);
    ReachableThenStep(n, r, a, ReleaseWrite(0));
    var b := Apply(a, ReleaseWrite(0));
    var c := AllFallAsleep(n, r, 2, b);
    var d := OverrunOfMany(n, r, c);
    s := LostWriterSleeps(n, r, d);
    FrontSleeps(n, r, s);
  }

  /** For every number of threads and every ring size: no wakeup is lost, and a free lock with somebody
      waiting has somebody awake to admit, each exactly when there is an entry for every thread or only
      one entry; otherwise, and only then, a run can end with everybody asleep on a free lock. */
  lemma WakeupsAreExact(n: nat, r: nat)
    requires 0 < r
    ensures (forall s :: Reachable(n, r, s) && !s.jammed ==> !MissesAWakeup(s)) <==> n <= r || r == 1
    ensures (forall s :: Reachable(n, r, s) && !s.jammed && FreeWithWaiters(s) ==> AdmitsSomebody(s)) <==> n <= r || r == 1
    ensures (exists s :: Reachable(n, r, s) && Deadlocked(s)) <==> 2 <= r < n
  {
    if n <= r || r == 1 {
      forall s | Reachable(n, r, s) && !s.jammed
        ensures !MissesAWakeup(s) && (FreeWithWaiters(s) ==> AdmitsSomebody(s)) && !Deadlocked(s)
      {
        if n <= r { EnoughEntriesLoseNoWakeup(n, r, s); } else { OneEntryLosesNoWakeup(n, s); }
      }
    } else {
      var s := EverybodySleeps(n, r);
    }
  }
}
