/** Threads running table operations against the buckets' locks, in any interleaving. Every pass at a
    lock, every look at a chain entry, the change of a chain and the change of its counter are steps of
    their own. */
module TableRuns {
  import opened HashFunction
  import opened TableHistory
  import LS = LockSteps
  import LT = LockThreads
  import opened LockSystem

  /** What a thread is doing: nothing; getting the lock of its key's bucket; about to look at position
      `pos` of the chain with the lock held; about to act on what it found there; about to bring the
      bucket's counter up to date; or about to release the lock and return `answer`. */
  datatype Job =
    | Free
    | Locking(op: Op)
    | Walking(op: Op, pos: nat)
    | Deciding(op: Op, pos: nat)
    | Counting(op: Op, answer: Answer)
    | Leaving(op: Op, answer: Answer)

  /** A table with one lock per bucket. `history` is ghost: it records what the threads did. */
  datatype Table = Table(locks: seq<System>, chains: seq<seq<Pair>>, sizes: seq<int>, jobs: seq<Job>, history: seq<Event>)

  datatype Action =
    | Begin(thread: nat, op: Op)
    | AtLock(thread: nat, wake: bool)
    | Look(thread: nat)
    | Decide(thread: nat)
    | Count(thread: nat)
    | Leave(thread: nat)

  /** The job is done with the lock held. */
  predicate Holding(j: Job) {
    j.Walking? || j.Deciding? || j.Counting? || j.Leaving?
  }

  predicate Writes(op: Op) {
    !op.OpRead?
  }

  function LockCall(t: nat, op: Op): Step {
    if Writes(op) then CallWrite(t) else if op.quick then CallQuick(t) else CallRead(t)
  }

  function BucketFor(s: Table, op: Op): (b: int)
    requires 0 < |s.chains|
    ensures 0 <= b < |s.chains|
  {
    BucketOf(op.key, |s.chains|)
  }

  /** What thread `t` does once a step at its bucket's lock has left the lock as `l`. */
  function JobAfterLock(l: System, t: nat, op: Op): Job
    requires t < |l.threads|
  {
    if LT.InCall(l.threads[t]) then Locking(op)
    else if l.threads[t] == LT.Idle then Free
    else Walking(op, 0)
  }

  /** The step thread `t` makes at the lock of bucket `b`. */
  function LockMove(s: Table, t: nat, op: Op, b: int, step: Step, h: seq<Event>): Table
    requires 0 <= b < |s.locks| && t < |s.jobs|
    requires LS.WellFormed(s.locks[b].lock) && Enabled(s.locks[b], step) && step.thread == t
    requires t < |Apply(s.locks[b], step).threads|
  {
    var l := Apply(s.locks[b], step);
    var job := JobAfterLock(l, t, op);
    s.(locks := s.locks[b := l], jobs := s.jobs[t := job], history := if job == Free then h + [Failed(t)] else h)
  }

  predicate Possible(s: Table, a: Action)
    requires 0 < |s.chains| == |s.locks|
  {
    var t := a.thread;
    && t < |s.jobs|
    && match a
       case Begin(_, op) => s.jobs[t] == Free && Enabled(s.locks[BucketFor(s, op)], LockCall(t, op))
       case AtLock(_, wake) =>
         && s.jobs[t].Locking?
         && Enabled(s.locks[BucketFor(s, s.jobs[t].op)], if wake then Wake(t) else Retry(t))
       case Look(_) => s.jobs[t].Walking?
       case Decide(_) => s.jobs[t].Deciding?
       case Count(_) => s.jobs[t].Counting?
       case Leave(_) =>
         && s.jobs[t].Leaving?
         && Enabled(s.locks[BucketFor(s, s.jobs[t].op)], Release(t, s.jobs[t].op))
  }

  function Release(t: nat, op: Op): Step {
    if Writes(op) then ReleaseWrite(t) else ReleaseRead(t)
  }

  ghost predicate Sized(s: Table) {
    && 0 < |s.chains| == |s.locks| == |s.sizes|
    && (forall b {:trigger s.locks[b]} :: 0 <= b < |s.locks| ==> Exclusive(s.locks[b]) && |s.locks[b].threads| == |s.jobs|)
  }

  /** One look at the chain: an entry with another key is passed; the key's entry, or the end, is acted on. */
  function LookAt(s: Table, t: nat): Table
    requires 0 < |s.chains| && t < |s.jobs| && s.jobs[t].Walking?
  {
    var op, pos, c := s.jobs[t].op, s.jobs[t].pos, s.chains[BucketFor(s, s.jobs[t].op)];
    s.(jobs := s.jobs[t := if pos < |c| && c[pos].key != op.key then Walking(op, pos + 1) else Deciding(op, pos)])
  }

  /** What the operation adds to its bucket's counter when it succeeds. */
  function Delta(op: Op): int {
    if op.OpInsert? then 1 else if op.OpDelete? then -1 else 0
  }

  /** Acting on what was found: the chain is relinked or the value read or replaced; a chain that grew or
      shrank is still to be counted. */
  function DecideAt(s: Table, t: nat): Table
    requires 0 < |s.chains| && t < |s.jobs| && s.jobs[t].Deciding?
  {
    var op, pos, b := s.jobs[t].op, s.jobs[t].pos, BucketFor(s, s.jobs[t].op);
    var c := s.chains[b];
    var at := if pos < |c| then pos else |c|;
    var answer := AnswerAt(c, op, at);
    s.(chains := s.chains[b := ChainAfter(c, op, at)],
       jobs := s.jobs[t := if answer.code == 1 && Delta(op) != 0 then Counting(op, answer) else Leaving(op, answer)],
       history := s.history + [TakesEffect(t, op, answer)])
  }

  function CountAt(s: Table, t: nat): Table
    requires 0 < |s.chains| == |s.sizes| && t < |s.jobs| && s.jobs[t].Counting?
  {
    var op, b := s.jobs[t].op, BucketFor(s, s.jobs[t].op);
    s.(sizes := s.sizes[b := s.sizes[b] + Delta(op)], jobs := s.jobs[t := Leaving(op, s.jobs[t].answer)])
  }

  ghost function Do(s: Table, a: Action): Table
    requires Sized(s) && Possible(s, a)
  {
    var t := a.thread;
    match a
    case Begin(_, op) =>
      StepKeepsThreads(s.locks[BucketFor(s, op)], LockCall(t, op));
      LockMove(s, t, op, BucketFor(s, op), LockCall(t, op), s.history + [Called(t, op)])
    case AtLock(_, wake) =>
      var op := s.jobs[t].op;
      StepKeepsThreads(s.locks[BucketFor(s, op)], if wake then Wake(t) else Retry(t));
      LockMove(s, t, op, BucketFor(s, op), if wake then Wake(t) else Retry(t), s.history)
    case Look(_) =>
      LookAt(s, t)
    case Decide(_) =>
      DecideAt(s, t)
    case Count(_) =>
      CountAt(s, t)
    case Leave(_) =>
      var op, b := s.jobs[t].op, BucketFor(s, s.jobs[t].op);
      s.(locks := s.locks[b := Apply(s.locks[b], Release(t, op))],
         jobs := s.jobs[t := Free],
         history := s.history + [Returned(t, s.jobs[t].answer)])
  }

  lemma StepKeepsThreads(s: System, step: Step)
    requires Exclusive(s) && Enabled(s, step)
    ensures |Apply(s, step).threads| == |s.threads|
    ensures forall j {:trigger Apply(s, step).threads[j]} :: 0 <= j < |s.threads| && j != step.thread ==>
              Apply(s, step).threads[j] == s.threads[j] || Apply(s, step).threads[j] == LT.Awake(s.threads[j])
  {
  }

  // The invariant.

  /** A lock-side thread that is in a call for `op`. */
  predicate CallsFor(th: LT.Thread, op: Op) {
    (th.Queued? && th.request == (if Writes(op) then LS.Write else LS.Read)) || (th.Quick? && !Writes(op))
  }

  predicate HoldsFor(th: LT.Thread, op: Op) {
    th == if Writes(op) then LT.Writing else LT.Reading
  }

  /** Thread `t` is at the lock of bucket `b` as its job says, and at no other lock. */
  ghost predicate AtItsLock(s: Table, b: int, t: int)
    requires Sized(s) && 0 <= b < |s.locks| && 0 <= t < |s.jobs|
  {
    var th := s.locks[b].threads[t];
    match s.jobs[t]
    case Free => th == LT.Idle
    case Locking(op) => if BucketFor(s, op) == b then CallsFor(th, op) else th == LT.Idle
    case _ => if BucketFor(s, s.jobs[t].op) == b then HoldsFor(th, s.jobs[t].op) else th == LT.Idle
  }

  function StandingFor(j: Job): Standing {
    match j
    case Free => Quiet
    case Locking(op) => Pending(op)
    case Walking(op, _) => Pending(op)
    case Deciding(op, _) => Pending(op)
    case Counting(op, a) => Done(op, a)
    case Leaving(op, a) => Done(op, a)
  }

  ghost predicate LocksFit(s: Table)
    requires Sized(s)
  {
    forall b, t {:trigger AtItsLock(s, b, t)} :: 0 <= b < |s.locks| && 0 <= t < |s.jobs| ==> AtItsLock(s, b, t)
  }

  /** A walking thread has not met its key; a deciding thread is at its key or at the end. */
  ghost predicate PlaceFits(c: seq<Pair>, j: Job)
    requires j.Walking? || j.Deciding?
  {
    Passed(c, j.op.key, j.pos) && (j.Deciding? && j.pos < |c| ==> c[j.pos].key == j.op.key)
  }

  ghost predicate WalksFit(s: Table)
    requires Sized(s)
  {
    forall t {:trigger s.jobs[t]} :: 0 <= t < |s.jobs| && (s.jobs[t].Walking? || s.jobs[t].Deciding?) ==>
      PlaceFits(s.chains[BucketFor(s, s.jobs[t].op)], s.jobs[t])
  }

  /** Thread `t` still has to count its change of bucket `b`. */
  predicate Owes(s: Table, t: int, b: int)
    requires 0 < |s.chains|
  {
    0 <= t < |s.jobs| && s.jobs[t].Counting? && BucketFor(s, s.jobs[t].op) == b
  }

  /** Nobody owes bucket `b` a count. */
  ghost predicate Settled(s: Table, b: int)
    requires 0 < |s.chains|
  {
    forall t {:trigger Owes(s, t, b)} :: !Owes(s, t, b)
  }

  /** A bucket's counter is the length of its chain, but for the change a thread still has to count. */
  ghost predicate CountersFit(s: Table)
    requires Sized(s)
  {
    && (forall b, t {:trigger Owes(s, t, b)} :: Owes(s, t, b) ==> s.sizes[b] + Delta(s.jobs[t].op) == |s.chains[b]|)
    && (forall b {:trigger Settled(s, b)} :: 0 <= b < |s.sizes| && Settled(s, b) ==> s.sizes[b] == |s.chains[b]|)
    && (forall t {:trigger s.jobs[t]} :: 0 <= t < |s.jobs| && s.jobs[t].Counting? ==> Delta(s.jobs[t].op) != 0)
  }

  ghost predicate HistoryFits(s: Table) {
    && Legal(s.history)
    && Represents(s.chains, Replay(s.history))
    && (forall t: nat {:trigger StandingOf(s.history, t)} ::
          StandingOf(s.history, t) == if t < |s.jobs| then StandingFor(s.jobs[t]) else Quiet)
  }

  ghost predicate Explained(s: Table) {
    Sized(s) && LocksFit(s) && WalksFit(s) && CountersFit(s) && HistoryFits(s)
  }

  /** What the moving thread's state at the lock becomes. */
  lemma OwnThread(s: System, step: Step, op: Op)
    requires Exclusive(s) && Enabled(s, step)
    requires step == LockCall(step.thread, op) || ((step.Retry? || step.Wake?) && CallsFor(s.threads[step.thread], op))
    ensures |Apply(s, step).threads| == |s.threads|
    ensures var th := Apply(s, step).threads[step.thread]; CallsFor(th, op) || HoldsFor(th, op) || th == LT.Idle
    ensures step.Wake? ==> CallsFor(Apply(s, step).threads[step.thread], op)
  {
  }

  /** The lock of bucket `b` is replaced by `l`, and thread `t`'s job follows it. */
  lemma MovingKeepsFit(s: Table, u: Table, t: nat, op: Op, l: System)
    requires Sized(s) && LocksFit(s) && Sized(u) && t < |s.jobs| && |l.threads| == |s.jobs|
    requires s.jobs[t] == Free || s.jobs[t] == Locking(op)
    requires u.locks == s.locks[BucketFor(s, op) := l] && u.chains == s.chains
    requires u.jobs == s.jobs[t := JobAfterLock(l, t, op)]
    requires CallsFor(l.threads[t], op) || HoldsFor(l.threads[t], op) || l.threads[t] == LT.Idle
    requires forall j {:trigger l.threads[j]} :: 0 <= j < |s.jobs| && j != t ==>
               l.threads[j] == s.locks[BucketFor(s, op)].threads[j] || l.threads[j] == LT.Awake(s.locks[BucketFor(s, op)].threads[j])
    ensures LocksFit(u)
  {
    forall c, j | 0 <= c < |u.locks| && 0 <= j < |u.jobs|
      ensures AtItsLock(u, c, j)
    {
      assert AtItsLock(s, c, j);
      assert u.locks[c].threads[j] == if c == BucketFor(s, op) then l.threads[j] else s.locks[c].threads[j];
    }
  }

  lemma LockMoveKeepsLocks(s: Table, t: nat, op: Op, step: Step, h: seq<Event>)
    requires Explained(s) && t < |s.jobs|
    requires Enabled(s.locks[BucketFor(s, op)], step) && step.thread == t
    requires (s.jobs[t] == Free && step == LockCall(t, op)) || (s.jobs[t] == Locking(op) && (step.Retry? || step.Wake?))
    requires |Apply(s.locks[BucketFor(s, op)], step).threads| == |s.jobs|
    ensures var u := LockMove(s, t, op, BucketFor(s, op), step, h); Sized(u) && LocksFit(u) && WalksFit(u) && CountersFit(u)
  {
    var b := BucketFor(s, op);
    var u := LockMove(s, t, op, b, step, h);
    assert AtItsLock(s, b, t);
    hide LocksFit, WalksFit, CountersFit, HistoryFits, Apply;
    StepKeepsExclusive(s.locks[b], step);
    StepKeepsThreads(s.locks[b], step);
    OwnThread(s.locks[b], step, op);
    assert Sized(u);
    hide Exclusive, Sized;
    MovingKeepsFit(s, u, t, op, Apply(s.locks[b], step));
    MovingKeepsWalks(s, u, t);
    MovingKeepsCounters(s, u, t);
  }

  /** A thread that is not counting, before or after, leaves the counters as they fit. */
  lemma MovingKeepsCounters(s: Table, u: Table, t: nat)
    requires Sized(s) && Sized(u) && CountersFit(s) && t < |s.jobs| && |u.jobs| == |s.jobs|
    requires u.sizes == s.sizes && |u.chains| == |s.chains| && !s.jobs[t].Counting? && !u.jobs[t].Counting?
    requires forall b {:trigger u.chains[b]} :: 0 <= b < |s.chains| ==> |u.chains[b]| == |s.chains[b]|
    requires forall j {:trigger u.jobs[j]} :: 0 <= j < |s.jobs| && j != t ==> u.jobs[j] == s.jobs[j]
    ensures CountersFit(u)
  {
    forall b, j
      ensures Owes(u, j, b) <==> Owes(s, j, b)
    {
      if 0 <= j < |s.jobs| && j != t { assert u.jobs[j] == s.jobs[j]; }
    }
    forall b | 0 <= b < |u.sizes| && Settled(u, b)
      ensures u.sizes[b] == |u.chains[b]|
    {
      assert Settled(s, b);
    }
  }

  lemma MovingKeepsWalks(s: Table, u: Table, t: nat)
    requires Sized(s) && Sized(u) && WalksFit(s) && t < |s.jobs|
    requires u.chains == s.chains && |u.jobs| == |s.jobs| && (u.jobs[t].Walking? ==> u.jobs[t].pos == 0) && !u.jobs[t].Deciding?
    requires forall j {:trigger u.jobs[j]} :: 0 <= j < |s.jobs| && j != t ==> u.jobs[j] == s.jobs[j]
    ensures WalksFit(u)
  {
  }

  lemma LockMoveKeepsHistory(s: Table, t: nat, op: Op, step: Step, h: seq<Event>)
    requires Explained(s) && t < |s.jobs|
    requires Enabled(s.locks[BucketFor(s, op)], step) && step.thread == t
    requires t < |Apply(s.locks[BucketFor(s, op)], step).threads|
    requires Legal(h) && Replay(h) == Replay(s.history) && StandingOf(h, t) == Pending(op)
    requires forall j: nat {:trigger StandingOf(h, j)} :: j != t ==> StandingOf(h, j) == StandingOf(s.history, j)
    ensures HistoryFits(LockMove(s, t, op, BucketFor(s, op), step, h))
  {
    Snoc(h, Failed(t));
  }

  lemma BeginKeeps(s: Table, t: nat, op: Op)
    requires Explained(s) && Possible(s, Begin(t, op))
    ensures Explained(Do(s, Begin(t, op)))
  {
    var b, step := BucketFor(s, op), LockCall(t, op);
    StepKeepsThreads(s.locks[b], step);
    var h := s.history + [Called(t, op)];
    Snoc(s.history, Called(t, op));
    LockMoveKeepsLocks(s, t, op, step, h);
    LockMoveKeepsHistory(s, t, op, step, h);
  }

  lemma AtLockKeeps(s: Table, t: nat, wake: bool)
    requires Explained(s) && Possible(s, AtLock(t, wake))
    ensures Explained(Do(s, AtLock(t, wake)))
  {
    var op := s.jobs[t].op;
    var b, step := BucketFor(s, op), if wake then Wake(t) else Retry(t);
    StepKeepsThreads(s.locks[b], step);
    LockMoveKeepsLocks(s, t, op, step, s.history);
    LockMoveKeepsHistory(s, t, op, step, s.history);
  }

  /** A thread with a writing operation shares its bucket's lock with nobody. */
  lemma NobodyElseHolds(s: Table, t: nat, j: nat)
    requires Sized(s) && LocksFit(s) && t < |s.jobs| && j < |s.jobs| && t != j
    requires Holding(s.jobs[t]) && Writes(s.jobs[t].op) && Holding(s.jobs[j])
    ensures BucketFor(s, s.jobs[j].op) != BucketFor(s, s.jobs[t].op)
  {
    var b := BucketFor(s, s.jobs[t].op);
    assert AtItsLock(s, b, t) && AtItsLock(s, b, j);
    var ths := s.locks[b].threads;
    assert ths[t] == LT.Writing;
    LT.CountSome(ths, t, LT.HoldsWrite);
    HoldersExclude(ths, t, j);
  }

  /** A step of thread `t` between two jobs done with the lock held, for the same operation. */
  lemma HoldingKeepsLocks(s: Table, u: Table, t: nat)
    requires Sized(s) && LocksFit(s) && t < |s.jobs| && Holding(s.jobs[t])
    requires u.locks == s.locks && |u.chains| == |s.chains| && |u.sizes| == |s.sizes| && |u.jobs| == |s.jobs|
    requires Holding(u.jobs[t]) && u.jobs[t].op == s.jobs[t].op
    requires forall j {:trigger u.jobs[j]} :: 0 <= j < |s.jobs| && j != t ==> u.jobs[j] == s.jobs[j]
    ensures Sized(u) && LocksFit(u)
  {
    assert Sized(u);
    forall i, j | 0 <= i < |u.locks| && 0 <= j < |u.jobs|
      ensures AtItsLock(u, i, j)
    {
      assert AtItsLock(s, i, j);
    }
  }

  lemma LookKeeps(s: Table, t: nat)
    requires Explained(s) && Possible(s, Look(t))
    ensures Explained(Do(s, Look(t)))
  {
    var u := LookAt(s, t);
    assert PlaceFits(s.chains[BucketFor(s, s.jobs[t].op)], s.jobs[t]);
    assert StandingOf(s.history, t) == Pending(s.jobs[t].op);
    HoldingKeepsLocks(s, u, t);
    MovingKeepsCounters(s, u, t);
    hide LocksFit, CountersFit, Sized, Represents;
  }

  lemma DecidingKeepsWalks(s: Table, t: nat, u: Table)
    requires Explained(s) && Sized(u) && t < |s.jobs| && s.jobs[t].Deciding? && |u.jobs| == |s.jobs|
    requires !u.jobs[t].Walking? && !u.jobs[t].Deciding?
    requires forall j {:trigger u.jobs[j]} :: 0 <= j < |u.jobs| && j != t ==> u.jobs[j] == s.jobs[j]
    requires |u.chains| == |s.chains|
    requires forall b {:trigger u.chains[b]} :: 0 <= b < |u.chains| && (b != BucketFor(s, s.jobs[t].op) || !Writes(s.jobs[t].op)) ==> u.chains[b] == s.chains[b]
    ensures WalksFit(u)
  {
    forall j: nat | j < |u.jobs| && (u.jobs[j].Walking? || u.jobs[j].Deciding?)
      ensures PlaceFits(u.chains[BucketFor(u, u.jobs[j].op)], u.jobs[j])
    {
      assert u.jobs[j] == s.jobs[j];
      assert PlaceFits(s.chains[BucketFor(s, s.jobs[j].op)], s.jobs[j]);
      if Writes(s.jobs[t].op) { NobodyElseHolds(s, t, j); }
    }
  }

  lemma DecidingKeepsHistory(s: Table, t: nat)
    requires Explained(s) && Possible(s, Decide(t))
    ensures HistoryFits(DecideAt(s, t))
  {
    var op, pos, c := s.jobs[t].op, s.jobs[t].pos, s.chains[BucketFor(s, s.jobs[t].op)];
    assert PlaceFits(c, s.jobs[t]);
    assert StandingOf(s.history, t) == Pending(op);
    hide LocksFit, WalksFit, CountersFit, Sized, Represents, ChainAfter, AnswerAt, Legal, Replay;
    DecisionIsAStep(s.chains, s.history, t, op, pos);
  }

  /** Acting at the key's place is one legal step of the sequential map. */
  lemma DecisionIsAStep(chains: seq<seq<Pair>>, h: seq<Event>, t: nat, op: Op, pos: nat)
    requires Represents(chains, Replay(h)) && Legal(h)
    requires var c := chains[BucketOf(op.key, |chains|)]; Passed(c, op.key, pos) && (pos < |c| ==> c[pos].key == op.key)
    ensures var b := BucketOf(op.key, |chains|); var e := TakesEffect(t, op, AnswerAt(chains[b], op, pos));
      && Legal(h + [e]) && Represents(chains[b := ChainAfter(chains[b], op, pos)], Replay(h + [e]))
      && forall j {:trigger StandingOf(h + [e], j)} :: StandingOf(h + [e], j) == Next(StandingOf(h, j), j, e)
  {
    AnswerIsMaps(chains, Replay(h), op, pos);
    ChainsFollowMap(chains, Replay(h), op, pos);
    var answer := AnswerAt(chains[BucketOf(op.key, |chains|)], op, pos);
    hide *;
    Snoc(h, TakesEffect(t, op, answer));
  }

  /** The length of the chain changes by what the operation has to count. */
  lemma LengthAfter(c: seq<Pair>, op: Op, pos: nat)
    requires pos <= |c|
    ensures |ChainAfter(c, op, pos)| == |c| + if AnswerAt(c, op, pos).code == 1 then Delta(op) else 0
  {
  }

  lemma DecidingKeepsCounters(s: Table, t: nat)
    requires Explained(s) && Possible(s, Decide(t)) && Sized(DecideAt(s, t))
    ensures CountersFit(DecideAt(s, t))
  {
    var op, pos, b := s.jobs[t].op, s.jobs[t].pos, BucketFor(s, s.jobs[t].op);
    var u := DecideAt(s, t);
    assert PlaceFits(s.chains[b], s.jobs[t]);
    LengthAfter(s.chains[b], op, pos);
    if u.jobs[t].Counting? {
      NobodyOwes(s, t);
      CountingStarts(s, u, t, b);
    } else {
      MovingKeepsCounters(s, u, t);
    }
  }

  /** While a thread holds a bucket's lock and is not counting, nobody owes that bucket a count. */
  lemma NobodyOwes(s: Table, t: nat)
    requires Sized(s) && LocksFit(s) && t < |s.jobs| && Holding(s.jobs[t]) && !s.jobs[t].Counting?
    requires CountersFit(s)
    ensures Settled(s, BucketFor(s, s.jobs[t].op))
  {
    forall j: nat | j < |s.jobs| && s.jobs[j].Counting?
      ensures BucketFor(s, s.jobs[j].op) != BucketFor(s, s.jobs[t].op)
    {
      NobodyElseHolds(s, j, t);
    }
  }

  lemma CountingStarts(s: Table, u: Table, t: nat, b: int)
    requires Sized(s) && Sized(u) && CountersFit(s) && t < |s.jobs| && u == s.(chains := u.chains, jobs := u.jobs, history := u.history)
    requires |u.jobs| == |s.jobs| && s.jobs[t].Deciding? && b == BucketFor(s, s.jobs[t].op)
    requires u.jobs[t].Counting? && u.jobs[t].op == s.jobs[t].op && Delta(s.jobs[t].op) != 0
    requires forall j {:trigger u.jobs[j]} :: 0 <= j < |s.jobs| && j != t ==> u.jobs[j] == s.jobs[j]
    requires |u.chains| == |s.chains| && |u.chains[b]| == |s.chains[b]| + Delta(s.jobs[t].op)
    requires forall c {:trigger u.chains[c]} :: 0 <= c < |s.chains| && c != b ==> u.chains[c] == s.chains[c]
    requires Settled(s, b)
    ensures CountersFit(u)
  {
    forall c, j
      ensures Owes(u, j, c) <==> Owes(s, j, c) || (j == t && c == b)
    {
      if 0 <= j < |s.jobs| && j != t { assert u.jobs[j] == s.jobs[j]; }
    }
    assert Owes(u, t, b);
    forall c | 0 <= c < |u.sizes| && Settled(u, c)
      ensures u.sizes[c] == |u.chains[c]|
    {
      assert c != b && Settled(s, c);
    }
  }

  lemma DecideKeeps(s: Table, t: nat)
    requires Explained(s) && Possible(s, Decide(t))
    ensures Explained(Do(s, Decide(t)))
  {
    var u := DecideAt(s, t);
    HoldingKeepsLocks(s, u, t);
    DecidingKeepsWalks(s, t, u);
    DecidingKeepsHistory(s, t);
    DecidingKeepsCounters(s, t);
  }

  lemma CountKeeps(s: Table, t: nat)
    requires Explained(s) && Possible(s, Count(t))
    ensures Explained(Do(s, Count(t)))
  {
    var u := CountAt(s, t);
    assert StandingOf(s.history, t) == Done(s.jobs[t].op, s.jobs[t].answer);
    HoldingKeepsLocks(s, u, t);
    CountingEnds(s, u, t, BucketFor(s, s.jobs[t].op));
    hide LocksFit, CountersFit, Sized, Represents;
  }

  lemma CountingEnds(s: Table, u: Table, t: nat, b: int)
    requires Sized(s) && LocksFit(s) && CountersFit(s) && t < |s.jobs| && s.jobs[t].Counting? && Sized(u)
    requires u == CountAt(s, t) && b == BucketFor(s, s.jobs[t].op)
    ensures CountersFit(u)
  {
    assert Owes(s, t, b);
    forall j: nat | j < |s.jobs| && j != t && s.jobs[j].Counting?
      ensures BucketFor(s, s.jobs[j].op) != b
    {
      NobodyElseHolds(s, t, j);
    }
    forall c, j
      ensures Owes(u, j, c) <==> Owes(s, j, c) && j != t
    {
      if 0 <= j < |s.jobs| && j != t { assert u.jobs[j] == s.jobs[j]; }
    }
    forall c | 0 <= c < |u.sizes| && Settled(u, c)
      ensures u.sizes[c] == |u.chains[c]|
    {
      if c != b { OthersSettled(s, u, t, c); }
    }
  }

  lemma OthersSettled(s: Table, u: Table, t: nat, c: int)
    requires 0 < |s.chains| && |u.chains| == |s.chains| && t < |s.jobs| && s.jobs[t].Counting? && BucketFor(s, s.jobs[t].op) != c
    requires |u.jobs| == |s.jobs| && forall j {:trigger u.jobs[j]} :: 0 <= j < |s.jobs| && j != t ==> u.jobs[j] == s.jobs[j]
    requires Settled(u, c)
    ensures Settled(s, c)
  {
    forall j
      ensures !Owes(s, j, c)
    {
      if 0 <= j < |s.jobs| && j != t { assert u.jobs[j] == s.jobs[j] && !Owes(u, j, c); }
    }
  }

  /** Thread `t` has released its bucket's lock, which is now `l`. */
  lemma LeavingKeepsLocks(s: Table, u: Table, t: nat, l: System)
    requires Sized(s) && LocksFit(s) && t < |s.jobs| && s.jobs[t].Leaving?
    requires Exclusive(l) && |l.threads| == |s.jobs| && l.threads[t] == LT.Idle
    requires forall j {:trigger l.threads[j]} :: 0 <= j < |s.jobs| && j != t ==>
               l.threads[j] == s.locks[BucketFor(s, s.jobs[t].op)].threads[j] || l.threads[j] == LT.Awake(s.locks[BucketFor(s, s.jobs[t].op)].threads[j])
    requires u.locks == s.locks[BucketFor(s, s.jobs[t].op) := l] && u.chains == s.chains && u.sizes == s.sizes && u.jobs == s.jobs[t := Free]
    ensures Sized(u) && LocksFit(u)
  {
    hide Exclusive;
    forall i, j | 0 <= i < |u.locks| && 0 <= j < |u.jobs|
      ensures AtItsLock(u, i, j)
    {
      assert AtItsLock(s, i, j);
    }
  }

  lemma LeaveKeepsLocks(s: Table, t: nat)
    requires Explained(s) && Possible(s, Leave(t))
    ensures var u := Do(s, Leave(t)); Sized(u) && LocksFit(u) && WalksFit(u) && CountersFit(u)
  {
    var op, b := s.jobs[t].op, BucketFor(s, s.jobs[t].op);
    var step, u := Release(t, op), Do(s, Leave(t));
    StepKeepsExclusive(s.locks[b], step);
    StepKeepsThreads(s.locks[b], step);
    assert Apply(s.locks[b], step).threads[t] == LT.Idle;
    hide Exclusive, LocksFit, CountersFit, WalksFit, Apply;
    LeavingKeepsLocks(s, u, t, Apply(s.locks[b], step));
    MovingKeepsCounters(s, u, t);
    MovingKeepsWalks(s, u, t);
  }

  lemma LeaveKeeps(s: Table, t: nat)
    requires Explained(s) && Possible(s, Leave(t))
    ensures Explained(Do(s, Leave(t)))
  {
    LeaveKeepsLocks(s, t);
    Snoc(s.history, Returned(t, s.jobs[t].answer));
    assert StandingOf(s.history, t) == Done(s.jobs[t].op, s.jobs[t].answer);
    hide LocksFit, WalksFit, CountersFit, Sized, Represents;
  }

  lemma ActionKeepsExplained(s: Table, a: Action)
    requires Explained(s) && Possible(s, a)
    ensures Explained(Do(s, a))
  {
    match a
    case Begin(t, op) => BeginKeeps(s, t, op);
    case AtLock(t, wake) => AtLockKeeps(s, t, wake);
    case Look(t) => LookKeeps(s, t);
    case Decide(t) => DecideKeeps(s, t);
    case Count(t) => CountKeeps(s, t);
    case Leave(t) => LeaveKeeps(s, t);
  }

  // Runs.

  function Fresh(threads: nat, buckets: nat, ringSize: nat): Table
    requires 0 < buckets && 0 < ringSize
  {
    Table(seq(buckets, _ => Start(threads, ringSize)), seq(buckets, _ => []), seq(buckets, _ => 0), seq(threads, _ => Free), [])
  }

  ghost predicate Leads(s: Table, run: seq<Action>, t: Table)
    decreases |run|
  {
    if run == [] then t == s
    else Sized(s) && Possible(s, run[0]) && Leads(Do(s, run[0]), run[1..], t)
  }

  lemma FreshIsExplained(threads: nat, buckets: nat, ringSize: nat)
    requires 0 < buckets && 0 < ringSize
    ensures Explained(Fresh(threads, buckets, ringSize))
  {
    StartCounts(threads, LT.HoldsRead);
    StartCounts(threads, LT.HoldsWrite);
    StartCounts(threads, LT.QuickWait);
    var s := Fresh(threads, buckets, ringSize);
    assert Exclusive(Start(threads, ringSize));
    assert Sized(s);
    assert s.history == [];
  }

  lemma {:induction false} RunStaysExplained(s: Table, run: seq<Action>, t: Table)
    requires Explained(s) && Leads(s, run, t)
    ensures Explained(t)
    decreases |run|
  {
    if run != [] {
      ActionKeepsExplained(s, run[0]);
      RunStaysExplained(Do(s, run[0]), run[1..], t);
    }
  }

  /** Any interleaving of table operations by any number of threads is explained by one sequential run
      on one map, and the chains represent that run's final map. A call that fails at its lock has no
      effect. */
  lemma EveryRunIsLinearizable(threads: nat, buckets: nat, ringSize: nat, run: seq<Action>, s: Table)
    requires 0 < buckets && 0 < ringSize && Leads(Fresh(threads, buckets, ringSize), run, s)
    ensures Linearizable(s.history)
    ensures Represents(s.chains, Replay(s.history))
  {
    FreshIsExplained(threads, buckets, ringSize);
    RunStaysExplained(Fresh(threads, buckets, ringSize), run, s);
    forall t: nat
      ensures StandingOf(s.history, t) != Confused
    {
      assert StandingOf(s.history, t) == if t < |s.jobs| then StandingFor(s.jobs[t]) else Quiet;
    }
  }

  /** An action changes a chain or its counter only when a writing operation decides or counts there. */
  lemma OnlyWritersChange(s: Table, a: Action, b: int)
    requires Sized(s) && Possible(s, a) && 0 <= b < |s.chains|
    requires a.Decide? || a.Count? ==>
               (a.Decide? && !Writes(s.jobs[a.thread].op)) || BucketFor(s, s.jobs[a.thread].op) != b
    ensures Do(s, a).chains[b] == s.chains[b] && |Do(s, a).sizes| == |s.sizes| && Do(s, a).sizes[b] == s.sizes[b]
  {
  }

  /** While a thread holds the lock of a bucket, nobody else changes that bucket's chain or counter. */
  lemma ChainIsProtected(threads: nat, buckets: nat, ringSize: nat, run: seq<Action>, s: Table, t: nat, a: Action)
    requires 0 < buckets && 0 < ringSize && Leads(Fresh(threads, buckets, ringSize), run, s)
    requires Sized(s) && Possible(s, a) && t < |s.jobs| && a.thread != t && Holding(s.jobs[t])
    ensures var b := BucketFor(s, s.jobs[t].op);
      Do(s, a).chains[b] == s.chains[b] && |Do(s, a).sizes| == |s.sizes| && Do(s, a).sizes[b] == s.sizes[b]
  {
    hide Do;
    FreshIsExplained(threads, buckets, ringSize);
    RunStaysExplained(Fresh(threads, buckets, ringSize), run, s);
    if (a.Decide? || a.Count?) && Writes(s.jobs[a.thread].op) {
      NobodyElseHolds(s, a.thread, t);
    }
    OnlyWritersChange(s, a, BucketFor(s, s.jobs[t].op));
  }

  /** A bucket's counter is the length of its chain whenever nobody is between changing the chain and
      counting the change; so it is for every thread that holds the lock and has nothing to count. */
  lemma CountersAreExact(threads: nat, buckets: nat, ringSize: nat, run: seq<Action>, s: Table, b: int)
    requires 0 < buckets && 0 < ringSize && Leads(Fresh(threads, buckets, ringSize), run, s)
    ensures 0 < |s.chains| == |s.sizes|
    ensures 0 <= b < |s.chains| && Settled(s, b) ==> s.sizes[b] == |s.chains[b]|
    ensures forall t: nat {:trigger s.jobs[t]} :: t < |s.jobs| && Holding(s.jobs[t]) && !s.jobs[t].Counting? ==>
              Settled(s, BucketFor(s, s.jobs[t].op))
  {
    FreshIsExplained(threads, buckets, ringSize);
    RunStaysExplained(Fresh(threads, buckets, ringSize), run, s);
    forall t: nat | t < |s.jobs| && Holding(s.jobs[t]) && !s.jobs[t].Counting?
      ensures Settled(s, BucketFor(s, s.jobs[t].op))
    {
      NobodyOwes(s, t);
    }
  }

  /** Only a quick read takes no ticket at its bucket's lock. */
  lemma OnlyQuickReadsSkipTheQueue(s: Table, t: nat, op: Op)
    requires Sized(s) && Possible(s, Begin(t, op))
    ensures var b, u := BucketFor(s, op), Do(s, Begin(t, op));
      |u.locks| == |s.locks| &&
      u.locks[b].lock.next == s.locks[b].lock.next + (if op.OpRead? && op.quick then 0 else 1)
  {
    var l, step := s.locks[BucketFor(s, op)], LockCall(t, op);
    StepKeepsThreads(l, step);
    TicketsDrawn(l, step);
  }

  lemma TicketsDrawn(l: System, step: Step)
    requires Exclusive(l) && Enabled(l, step) && (step.CallRead? || step.CallWrite? || step.CallQuick?)
    ensures Apply(l, step).lock.next == l.lock.next + if step.CallQuick? then 0 else 1
  {
  }

  /** A quick read whose bucket no writing operation holds starts its walk at once, whoever is queued. */
  lemma QuickReadStartsAtOnce(threads: nat, buckets: nat, ringSize: nat, run: seq<Action>, s: Table, t: nat, key: CString)
    requires 0 < buckets && 0 < ringSize && Leads(Fresh(threads, buckets, ringSize), run, s)
    requires Sized(s) && Possible(s, Begin(t, OpRead(key, true)))
    requires forall j {:trigger s.jobs[j]} :: 0 <= j < |s.jobs| && Holding(s.jobs[j]) && Writes(s.jobs[j].op) ==>
               BucketOf(s.jobs[j].op.key, |s.chains|) != BucketOf(key, |s.chains|)
    ensures Do(s, Begin(t, OpRead(key, true))).jobs[t] == Walking(OpRead(key, true), 0)
  {
    FreshIsExplained(threads, buckets, ringSize);
    RunStaysExplained(Fresh(threads, buckets, ringSize), run, s);
    var op := OpRead(key, true);
    var b := BucketFor(s, op);
    StepKeepsThreads(s.locks[b], CallQuick(t));
    if s.locks[b].lock.writers > 0 {
      var j := WriterIsHolding(s, b);
    }
    hide Explained, LocksFit, Represents;
    QuickCallEnters(s.locks[b], t);
  }

  lemma WriterIsHolding(s: Table, b: int) returns (j: int)
    requires Sized(s) && LocksFit(s) && 0 <= b < |s.locks| && 0 < s.locks[b].lock.writers
    ensures 0 <= j < |s.jobs| && Holding(s.jobs[j]) && Writes(s.jobs[j].op) && BucketOf(s.jobs[j].op.key, |s.chains|) == b
  {
    j := LT.CountFind(s.locks[b].threads, LT.HoldsWrite);
    assert AtItsLock(s, b, j);
  }

  lemma QuickCallEnters(l: System, t: nat)
    requires Exclusive(l) && Enabled(l, CallQuick(t)) && l.lock.writers == 0
    ensures Apply(l, CallQuick(t)).threads[t] == LT.Reading
  {
  }

  lemma HoldersExclude(ths: seq<LT.Thread>, i: nat, j: nat)
    requires i < |ths| && j < |ths| && i != j && ths[i] == LT.Writing
    ensures ths[j] == LT.Writing ==> LT.Count(ths, LT.HoldsWrite) >= 2
    ensures ths[j] == LT.Reading ==> LT.Count(ths, LT.HoldsRead) >= 1
  {
    if ths[j] == LT.Writing {
      LT.CountTwo(ths, if i < j then i else j, if i < j then j else i, LT.HoldsWrite);
    } else if ths[j] == LT.Reading {
      LT.CountSome(ths, j, LT.HoldsRead);
    }
  }

  // Real-time order.

  /** The operation returned from at `r` was called at `c` and took effect at `e`, with nothing else
      from its thread in between. */
  ghost predicate EffectBetween(h: seq<Event>, c: nat, e: nat, r: nat)
    requires r < |h| && h[r].Returned?
  {
    && c < e < r
    && h[e].TakesEffect? && h[e].thread == h[r].thread && h[e].answer == h[r].answer
    && h[c] == Called(h[r].thread, h[e].op)
    && forall k {:trigger h[k]} :: c < k < r && k != e ==> h[k].thread != h[r].thread
  }

  /** In a linearizable history, an operation that has returned took effect after its call and before
      its return, with the answer it returned. So the sequential run keeps the real-time order. */
  lemma EffectWithinCall(h: seq<Event>, r: nat)
    requires Linearizable(h) && r < |h| && h[r].Returned?
    ensures exists c, e :: EffectBetween(h, c, e, r)
  {
    var t := h[r].thread;
    Unfold(h, r, t);
    NotConfusedBefore(h, r + 1, t);
    var e := LastEvent(h, r, t);
    Unfold(h, e, t);
    var c := LastEvent(h, e, t);
    Unfold(h, c, t);
    assert EffectBetween(h, c, e, r);
  }

  lemma Unfold(h: seq<Event>, n: nat, t: nat)
    requires n < |h|
    ensures StandingOf(h[..n + 1], t) == Next(StandingOf(h[..n], t), t, h[n])
  {
    assert h[..n + 1][..n] == h[..n];
  }

  /** Once confused, always confused. */
  lemma {:induction false} NotConfusedBefore(h: seq<Event>, n: nat, t: nat)
    requires n <= |h| && StandingOf(h, t) != Confused
    ensures StandingOf(h[..n], t) != Confused
    decreases |h| - n
  {
    if n < |h| {
      NotConfusedBefore(h, n + 1, t);
      Unfold(h, n, t);
    } else {
      assert h[..n] == h;
    }
  }

  /** A thread that is not quiet got where it stands by its last event. */
  lemma {:induction false} LastEvent(h: seq<Event>, n: nat, t: nat) returns (k: nat)
    requires n <= |h| && StandingOf(h[..n], t) != Quiet
    ensures k < n && h[k].thread == t && StandingOf(h[..n], t) == StandingOf(h[..k + 1], t)
    ensures forall j {:trigger h[j]} :: k < j < n ==> h[j].thread != t
    ensures StandingOf(h[..k + 1], t) == Next(StandingOf(h[..k], t), t, h[k])
  {
    assert n > 0;
    assert h[..n][..n - 1] == h[..n - 1];
    if h[n - 1].thread == t {
      k := n - 1;
    } else {
      k := LastEvent(h, n - 1, t);
    }
  }
}