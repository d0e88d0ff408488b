/** Any number of threads using one lock, as a transition system. A step is one stretch of code under
    the mutex, or a spurious wakeup. */
module LockSystem {
  import opened LockSteps
  import opened LockThreads

  /** A ticketed admission. */
  datatype Grant = Grant(write: bool, ticket: int)

  /** `leaked` counts readers that left through the consume failure after being counted; `jammed` says
      that a call returned with the mutex locked. `covered` and `log` are history: the tickets that
      batches have covered, and the ticketed admissions in order. */
  datatype System = System(
    lock: Lock,
    threads: seq<Thread>,
    leaked: nat,
    jammed: bool,
    covered: set<int>,
    log: seq<Grant>)

  datatype Step =
    | CallRead(thread: nat)
    | CallQuick(thread: nat)
    | CallWrite(thread: nat)
    | Retry(thread: nat)
    | Wake(thread: nat)
    | ReleaseRead(thread: nat)
    | ReleaseWrite(thread: nat)

  function Start(threads: nat, ringSize: nat): System
    requires 0 < ringSize
  {
    System(NewLock(ringSize), seq(threads, _ => Idle), 0, false, {}, [])
  }

  predicate Enabled(s: System, step: Step) {
    var i := step.thread;
    && i < |s.threads|
    && !s.jammed
    && match step
       case CallRead(_) => s.threads[i] == Idle
       case CallQuick(_) => s.threads[i] == Idle
       case CallWrite(_) => s.threads[i] == Idle
       case Retry(_) => InCall(s.threads[i]) && !Asleep(s.threads[i])
       case Wake(_) => Asleep(s.threads[i])
       case ReleaseRead(_) => s.threads[i] == Reading
       case ReleaseWrite(_) => s.threads[i] == Writing
  }

  /** One pass of a waiting thread through its wait loop. */
  function Pass(l: Lock, th: Thread): Effect
    requires WellFormed(l) && InCall(th)
  {
    if th.Quick? then QuickAttempt(l)
    else if th.request == Write then WriteAttempt(l, th.ticket)
    else ReadAttempt(l, th.ticket)
  }

  function Interval(lo: int, hi: int): (r: set<int>)
    ensures forall k {:trigger k in r} :: k in r <==> lo <= k < hi
    decreases hi - lo
  {
    if hi <= lo then {} else Interval(lo, hi - 1) + {hi - 1}
  }

  /** The tickets of the batch that a pass from `l` opens. */
  function Batch(l: Lock, th: Thread, e: Effect): set<int>
    requires WellFormed(l)
  {
    if th.Queued? && e.outcome == Granted && e.broadcast then Interval(FindValidHead(l, l.oldest), e.lock.oldest)
    else {}
  }

  /** The system once thread `i`, waiting as `th`, has made a pass from lock `l` with effect `e`. */
  function Settle(s: System, i: nat, th: Thread, l: Lock, e: Effect): System
    requires i < |s.threads| && InCall(th) && WellFormed(l)
  {
    var others := if e.broadcast then WakeAll(s.threads) else s.threads;
    var mine :=
      match e.outcome
      case Granted => if th.Queued? && th.request == Write then Writing else Reading
      case Waits => th.(asleep := true)
      case ConsumeFailed => Idle
      case NotInserted => Idle;
    System(
      e.lock,
      others[i := mine],
      if e.outcome == ConsumeFailed then s.leaked + 1 else s.leaked,
      e.outcome == NotInserted,
      s.covered + Batch(l, th, e),
      if e.outcome == Granted && th.Queued? then s.log + [Grant(th.request == Write, th.ticket)] else s.log)
  }

  /** The system once thread `i` has released the lock with result `r`. */
  function Released(s: System, i: nat, r: (Lock, bool, bool)): System
    requires i < |s.threads|
  {
    s.(lock := r.0, threads := (if r.2 then WakeAll(s.threads) else s.threads)[i := Idle])
  }

  function Apply(s: System, step: Step): System
    requires WellFormed(s.lock) && Enabled(s, step)
  {
    var i, l := step.thread, s.lock;
    match step
    case CallRead(_) =>
      JoinKeepsWellFormed(l, Read);
      Settle(s, i, Queued(Read, l.next, false), Join(l, Read), ReadEnter(l))
    case CallWrite(_) =>
      JoinKeepsWellFormed(l, Write);
      Settle(s, i, Queued(Write, l.next, false), Join(l, Write), WriteEnter(l))
    case CallQuick(_) =>
      Settle(s, i, Quick(false), l, QuickEnter(l))
    case Retry(_) =>
      Settle(s, i, s.threads[i], l, Pass(l, s.threads[i]))
    case Wake(_) =>
      s.(threads := s.threads[i := Awake(s.threads[i])])
    case ReleaseRead(_) =>
      Released(s, i, ReadUnlock(l))
    case ReleaseWrite(_) =>
      Released(s, i, WriteUnlock(l))
  }

  // Mutual exclusion, for any number of threads.

  /** The counters are exact, and a writer excludes readers and other writers. */
  ghost predicate Exclusive(s: System) {
    && WellFormed(s.lock)
    && s.lock.writers == Count(s.threads, HoldsWrite) <= 1
    && s.lock.readers == Count(s.threads, HoldsRead) + s.leaked
    && (s.lock.writers == 1 ==> s.lock.readers == 0 && s.lock.batchEnd == -1)
    && s.lock.quickWaiters == Count(s.threads, QuickWait)
    && -1 <= s.lock.batchEnd < s.lock.oldest + (if s.lock.batchEnd == -1 then 1 else 0)
  }

  /** What a pass does to the counters. */
  lemma PassCounters(l: Lock, th: Thread)
    requires WellFormed(l) && InCall(th) && 0 <= l.writers <= 1 && 0 <= l.readers && 0 <= l.quickWaiters
    requires -1 <= l.batchEnd < l.oldest + (if l.batchEnd == -1 then 1 else 0)
    requires l.writers == 1 ==> l.readers == 0 && l.batchEnd == -1
    requires th.Quick? ==> 0 < l.quickWaiters
    ensures var e := Pass(l, th); var m := e.lock; var write := th.Queued? && th.request == Write;
      && WellFormed(m) && |m.slot| == |l.slot|
      && -1 <= m.batchEnd < m.oldest + (if m.batchEnd == -1 then 1 else 0)
      && m.quickWaiters == l.quickWaiters - (if th.Quick? && e.outcome == Granted then 1 else 0)
      && m.writers == l.writers + (if write && e.outcome == Granted then 1 else 0)
      && m.readers == l.readers + (if e.outcome == ConsumeFailed || (!write && e.outcome == Granted) then 1 else 0)
      && (m.writers == 1 ==> m.readers == 0 && m.batchEnd == -1)
      && m.writers <= 1
      && (write && e.outcome == Granted ==> l.readers == 0 && l.writers == 0 && l.quickWaiters == 0)
  {
    if th.Queued? && th.request == Write {
      WriteCounters(l, th.ticket);
    } else if th.Queued? {
      ReadCounters(l, th.ticket);
    }
  }

  lemma ReadCounters(l: Lock, ticket: int)
    requires WellFormed(l) && 0 <= l.writers <= 1 && 0 <= l.readers
    requires -1 <= l.batchEnd < l.oldest + (if l.batchEnd == -1 then 1 else 0)
    requires l.writers == 1 ==> l.readers == 0 && l.batchEnd == -1
    ensures var e := ReadAttempt(l, ticket); var m := e.lock;
      && WellFormed(m) && |m.slot| == |l.slot|
      && -1 <= m.batchEnd < m.oldest + (if m.batchEnd == -1 then 1 else 0)
      && m.quickWaiters == l.quickWaiters && m.writers == l.writers
      && m.readers == l.readers + (if e.outcome == ConsumeFailed || e.outcome == Granted then 1 else 0)
      && (m.writers == 1 ==> m.readers == 0 && m.batchEnd == -1)
  {
    var head := FindValidHead(l, l.oldest);
    if ticket == head && head < l.next && l.request[Index(l, head)] == Read {
      assert SlotMatchesAs(l, head, Read);
      var end := BatchScan(l.(oldest := head), head);
      assert head < end;
    }
  }

  lemma WriteCounters(l: Lock, ticket: int)
    requires WellFormed(l) && 0 <= l.writers <= 1 && 0 <= l.readers && 0 <= l.quickWaiters
    requires -1 <= l.batchEnd < l.oldest + (if l.batchEnd == -1 then 1 else 0)
    requires l.writers == 1 ==> l.readers == 0 && l.batchEnd == -1
    ensures var e := WriteAttempt(l, ticket); var m := e.lock;
      && WellFormed(m) && |m.slot| == |l.slot|
      && -1 <= m.batchEnd < m.oldest + (if m.batchEnd == -1 then 1 else 0)
      && m.quickWaiters == l.quickWaiters && m.readers == l.readers && e.outcome != ConsumeFailed
      && m.writers == l.writers + (if e.outcome == Granted then 1 else 0)
      && (m.writers == 1 ==> m.readers == 0 && m.batchEnd == -1)
      && m.writers <= 1
      && (e.outcome == Granted ==> l.readers == 0 && l.writers == 0 && l.quickWaiters == 0)
  {
  }

  /** How a pass changes the number of threads busy with `a`. */
  lemma SettleCounts(s: System, i: nat, th: Thread, l: Lock, e: Effect, a: Activity)
    requires i < |s.threads| && InCall(th) && WellFormed(l)
    ensures var t := Settle(s, i, th, l, e);
      && |t.threads| == |s.threads|
      && Count(t.threads, a) ==
         Count(s.threads, a) - (if ActivityOf(s.threads[i]) == a then 1 else 0)
                             + (if ActivityOf(t.threads[i]) == a then 1 else 0)
  {
    var t := Settle(s, i, th, l, e);
    CountSame(s.threads, WakeAll(s.threads), a);
    CountUpdate(if e.broadcast then WakeAll(s.threads) else s.threads, i, t.threads[i], a);
  }

  lemma ReleasedCounts(s: System, i: nat, r: (Lock, bool, bool), a: Activity)
    requires i < |s.threads|
    ensures var t := Released(s, i, r);
      && |t.threads| == |s.threads|
      && Count(t.threads, a) ==
         Count(s.threads, a) - (if ActivityOf(s.threads[i]) == a then 1 else 0) + (if a == Outside then 1 else 0)
  {
    CountSame(s.threads, WakeAll(s.threads), a);
    CountUpdate(if r.2 then WakeAll(s.threads) else s.threads, i, Idle, a);
  }

  /** A pass keeps mutual exclusion. `l` is the lock it starts from: the system's, or with the thread's
      ticket just added. */
  lemma SettleKeepsExclusive(s: System, i: nat, th: Thread, l: Lock)
    requires i < |s.threads| && InCall(th) && Exclusive(s.(lock := l))
    requires th.Quick? ==> ActivityOf(s.threads[i]) == QuickWait
    requires th.Queued? ==> ActivityOf(s.threads[i]) == Outside || ActivityOf(s.threads[i]) == QueueWait
    ensures Exclusive(Settle(s, i, th, l, Pass(l, th)))
  {
    var e := Pass(l, th);
    if th.Quick? { CountSome(s.threads, i, QuickWait); }
    PassCounters(l, th);
    SettleCounts(s, i, th, l, e, HoldsRead);
    SettleCounts(s, i, th, l, e, HoldsWrite);
    SettleCounts(s, i, th, l, e, QuickWait);
  }

  lemma QuickCallKeepsExclusive(s: System, i: nat)
    requires i < |s.threads| && Exclusive(s) && s.threads[i] == Idle
    ensures Exclusive(Settle(s, i, Quick(false), s.lock, QuickEnter(s.lock)))
  {
    var e := QuickEnter(s.lock);
    SettleCounts(s, i, Quick(false), s.lock, e, HoldsRead);
    SettleCounts(s, i, Quick(false), s.lock, e, HoldsWrite);
    SettleCounts(s, i, Quick(false), s.lock, e, QuickWait);
  }

  lemma ReleaseKeepsExclusive(s: System, i: nat)
    requires i < |s.threads| && Exclusive(s)
    ensures s.threads[i] == Reading ==> Exclusive(Released(s, i, ReadUnlock(s.lock))) && ReadUnlock(s.lock).1
    ensures s.threads[i] == Writing ==> Exclusive(Released(s, i, WriteUnlock(s.lock))) && WriteUnlock(s.lock).1
  {
    var r := if s.threads[i] == Reading then ReadUnlock(s.lock) else WriteUnlock(s.lock);
    ReleasedCounts(s, i, r, HoldsRead);
    ReleasedCounts(s, i, r, HoldsWrite);
    ReleasedCounts(s, i, r, QuickWait);
    if s.threads[i] == Reading { CountSome(s.threads, i, HoldsRead); }
    if s.threads[i] == Writing { CountSome(s.threads, i, HoldsWrite); }
  }

  lemma StepKeepsExclusive(s: System, step: Step)
    requires Exclusive(s) && Enabled(s, step)
    ensures Exclusive(Apply(s, step))
  {
    var i, l := step.thread, s.lock;
    match step
    case CallRead(_) =>
      JoinKeepsWellFormed(l, Read);
      SettleKeepsExclusive(s, i, Queued(Read, l.next, false), Join(l, Read));
    case CallWrite(_) =>
      JoinKeepsWellFormed(l, Write);
      SettleKeepsExclusive(s, i, Queued(Write, l.next, false), Join(l, Write));
    case CallQuick(_) =>
      QuickCallKeepsExclusive(s, i);
    case Retry(_) =>
      SettleKeepsExclusive(s, i, s.threads[i], l);
    case Wake(_) =>
      CountUpdate(s.threads, i, Awake(s.threads[i]), HoldsRead);
      CountUpdate(s.threads, i, Awake(s.threads[i]), HoldsWrite);
      CountUpdate(s.threads, i, Awake(s.threads[i]), QuickWait);
    case ReleaseRead(_) =>
      ReleaseKeepsExclusive(s, i);
    case ReleaseWrite(_) =>
      ReleaseKeepsExclusive(s, i);
  }

  // Runs.

  /** `t` is reached from `s` by the steps of `run`. */
  ghost predicate Reaches(s: System, run: seq<Step>, t: System)
    decreases |run|
  {
    if run == [] then t == s
    else WellFormed(s.lock) && Enabled(s, run[0]) && Reaches(Apply(s, run[0]), run[1..], t)
  }

  ghost predicate Reachable(threads: nat, ringSize: nat, s: System) {
    0 < ringSize && exists run :: Reaches(Start(threads, ringSize), run, s)
  }

  lemma {:induction false} RunThenStep(s: System, run: seq<Step>, t: System, step: Step)
    requires Reaches(s, run, t) && WellFormed(t.lock) && Enabled(t, step)
    ensures Reaches(s, run + [step], Apply(t, step))
    decreases |run|
  {
    if run == [] {
      assert (run + [step])[1..] == [];
    } else {
      RunThenStep(Apply(s, run[0]), run[1..], t, step);
      assert (run + [step])[1..] == run[1..] + [step];
    }
  }

  lemma ReachableThenStep(threads: nat, ringSize: nat, s: System, step: Step)
    requires Reachable(threads, ringSize, s) && WellFormed(s.lock) && Enabled(s, step)
    ensures Reachable(threads, ringSize, Apply(s, step))
  {
    var run :| Reaches(Start(threads, ringSize), run, s);
    RunThenStep(Start(threads, ringSize), run, s, step);
  }

  lemma StartIsReachable(threads: nat, ringSize: nat)
    requires 0 < ringSize
    ensures Reachable(threads, ringSize, Start(threads, ringSize))
  {
    assert Reaches(Start(threads, ringSize), [], Start(threads, ringSize));
  }

  lemma {:induction false} StartCounts(n: nat, a: Activity)
    ensures Count(seq(n, _ => Idle), a) == if a == Outside then n else 0
  {
    if n > 0 {
      StartCounts(n - 1, a);
      assert seq<Thread>(n, _ => Idle)[..n - 1] == seq<Thread>(n - 1, _ => Idle);
    }
  }

  lemma {:induction false} RunKeepsExclusive(s: System, run: seq<Step>, t: System)
    requires Exclusive(s) && Reaches(s, run, t)
    ensures Exclusive(t)
    decreases |run|
  {
    if run != [] {
      StepKeepsExclusive(s, run[0]);
      RunKeepsExclusive(Apply(s, run[0]), run[1..], t);
    }
  }

  /** Mutual exclusion in every reachable state, for any number of threads and any ring size. */
  lemma MutualExclusion(threads: nat, ringSize: nat, s: System)
    requires Reachable(threads, ringSize, s)
    ensures Exclusive(s)
    ensures forall i, j {:trigger s.threads[i], s.threads[j]} :: 0 <= i < j < |s.threads| ==>
              !(s.threads[i].Writing? && (s.threads[j].Writing? || s.threads[j].Reading?))
              && !(s.threads[j].Writing? && s.threads[i].Reading?)
  {
    var s0 := Start(threads, ringSize);
    var run :| Reaches(s0, run, s);
    StartCounts(threads, HoldsRead);
    StartCounts(threads, HoldsWrite);
    StartCounts(threads, QuickWait);
    RunKeepsExclusive(s0, run, s);
    forall i, j | 0 <= i < |s.threads| && 0 <= j < |s.threads| && i != j && s.threads[i].Writing?
      ensures !s.threads[j].Writing? && !s.threads[j].Reading?
    {
      CountSome(s.threads, i, HoldsWrite);
      if s.threads[j].Writing? {
        CountTwo(s.threads, if i < j then i else j, if i < j then j else i, HoldsWrite);
      } else if s.threads[j].Reading? {
        CountSome(s.threads, j, HoldsRead);
      }
    }
  }
}