/** The ticketed read/write lock as a value, and what each stretch of code between taking the mutex
    and waiting or releasing it does to that value. */
module LockSteps {

  datatype Request = NoRequest | Read | Write

  /** The lock's fields. The ring has `|slot|` entries; `slot[k]` is the ticket in entry `k`, or -1. */
  datatype Lock = Lock(
    readers: int,
    writers: int,
    quickWaiters: int,
    next: int,
    oldest: int,
    batchEnd: int,
    slot: seq<int>,
    request: seq<Request>)

  /** How a stretch of code ends: the lock call succeeds; the thread waits on the condition variable;
      the call fails because the thread's ring entry was taken over; or the call fails because the
      queue looks empty, and that exit leaves the mutex locked. */
  datatype Outcome = Granted | Waits | ConsumeFailed | NotInserted

  datatype Effect = Effect(lock: Lock, outcome: Outcome, broadcast: bool)

  /** The ring exists and holds only tickets already issued. */
  ghost predicate WellFormed(l: Lock) {
    && 0 < |l.slot| == |l.request|
    && (forall k {:trigger l.slot[k]} :: 0 <= k < |l.slot| ==> l.slot[k] < l.next)
    && 0 <= l.oldest <= l.next
  }

  function NewLock(ringSize: nat): (l: Lock)
    requires 0 < ringSize
    ensures WellFormed(l)
  {
    Lock(0, 0, 0, 0, 0, -1, seq(ringSize, _ => -1), seq(ringSize, _ => NoRequest))
  }

  function Index(l: Lock, ticket: int): (k: int)
    requires 0 < |l.slot|
    ensures 0 <= k < |l.slot|
  {
    ticket % |l.slot|
  }

  predicate SlotMatches(l: Lock, ticket: int)
    requires 0 < |l.slot|
  {
    l.slot[Index(l, ticket)] == ticket
  }

  predicate SlotMatchesAs(l: Lock, ticket: int, r: Request)
    requires 0 < |l.slot| == |l.request|
  {
    SlotMatches(l, ticket) && l.request[Index(l, ticket)] == r
  }

  function Join(l: Lock, r: Request): Lock
    requires 0 < |l.slot| == |l.request|
  {
    l.(next := l.next + 1,
       slot := l.slot[Index(l, l.next) := l.next],
       request := l.request[Index(l, l.next) := r])
  }

  function Consume(l: Lock, ticket: int): Lock
    requires 0 < |l.slot| == |l.request|
  {
    l.(slot := l.slot[Index(l, ticket) := -1], request := l.request[Index(l, ticket) := NoRequest])
  }

  /** First ticket from `head` that is in the ring, or the next ticket to be issued. */
  function FindValidHead(l: Lock, head: int): (h: int)
    requires WellFormed(l) && head <= l.next
    ensures head <= h <= l.next
    ensures h < l.next ==> SlotMatches(l, h)
    ensures forall k {:trigger SlotMatches(l, k)} :: head <= k < h ==> !SlotMatches(l, k)
    decreases l.next - head
  {
    if head < l.next && !SlotMatches(l, head) then FindValidHead(l, head + 1) else head
  }

  /** End of the run of READ tickets that starts at `head`. */
  function BatchScan(l: Lock, head: int): (end: int)
    requires WellFormed(l) && head <= l.next
    ensures head <= end <= l.next && !SlotMatchesAs(l, end, Read)
    ensures forall k {:trigger SlotMatchesAs(l, k, Read)} :: head <= k < end ==> SlotMatchesAs(l, k, Read)
    decreases l.next - head
  {
    if SlotMatchesAs(l, head, Read) then BatchScan(l, head + 1) else head
  }

  /** The front reader covers the run of READ tickets at the front and is admitted. */
  function OpenBatch(l: Lock, ticket: int): Effect
    requires WellFormed(l)
  {
    var end := BatchScan(l, l.oldest);
    var l2 := l.(batchEnd := if end > l.oldest then end - 1 else ticket, oldest := end, readers := l.readers + 1);
    if SlotMatches(l2, ticket) then Effect(Consume(l2, ticket), Granted, true)
    else Effect(l2, ConsumeFailed, false)
  }

  /** A ticketed reader's pass through its wait loop. */
  function ReadAttempt(l: Lock, ticket: int): Effect
    requires WellFormed(l)
  {
    if l.writers > 0 then
      Effect(l, Waits, false)
    else if ticket <= l.batchEnd && l.writers == 0 then
      var l1 := l.(readers := l.readers + 1);
      if SlotMatches(l1, ticket) then Effect(Consume(l1, ticket), Granted, false)
      else Effect(l1, ConsumeFailed, false)
    else
      var head := FindValidHead(l, l.oldest);
      if head == l.next then
        Effect(l, Waits, false)
      else
        var l1 := l.(oldest := head);
        if ticket == head && l1.request[Index(l1, head)] == Read then
          OpenBatch(l1, ticket)
        else
          Effect(l1, Waits, false)
  }

  /** The writer at the front is admitted. */
  function AdmitWriter(l: Lock, ticket: int): Lock
    requires WellFormed(l) && ticket < l.next && 0 < l.next
  {
    ConsumeKeepsWellFormed(l.(writers := 1), ticket);
    var l2 := Consume(l.(writers := 1), ticket);
    l2.(oldest := FindValidHead(l2, ticket + 1), batchEnd := -1)
  }

  /** A writer's pass through its wait loop. */
  function WriteAttempt(l: Lock, ticket: int): Effect
    requires WellFormed(l)
  {
    if l.readers > 0 || l.writers > 0 || l.quickWaiters > 0 then
      Effect(l, Waits, false)
    else
      var head := FindValidHead(l, l.oldest);
      var l1 := l.(oldest := head);
      if head == l.next then
        Effect(l1, NotInserted, false)
      else if ticket == head && SlotMatchesAs(l1, ticket, Write) then
        Effect(AdmitWriter(l1, ticket), Granted, false)
      else
        Effect(l1, Waits, false)
  }

  /** A waiting quick reader's pass through its wait loop. */
  function QuickAttempt(l: Lock): Effect {
    if l.writers > 0 then Effect(l, Waits, false)
    else Effect(l.(quickWaiters := l.quickWaiters - 1, readers := l.readers + 1), Granted, true)
  }

  /** From the call to the first wait or the release, for the three kinds of request. */
  function ReadEnter(l: Lock): Effect
    requires WellFormed(l)
  {
    JoinKeepsWellFormed(l, Read);
    ReadAttempt(Join(l, Read), l.next)
  }

  function WriteEnter(l: Lock): Effect
    requires WellFormed(l)
  {
    JoinKeepsWellFormed(l, Write);
    WriteAttempt(Join(l, Write), l.next)
  }

  function QuickEnter(l: Lock): Effect {
    if l.writers == 0 then Effect(l.(readers := l.readers + 1), Granted, false)
    else QuickAttempt(l.(quickWaiters := l.quickWaiters + 1))
  }

  /** Releasing. The third component says whether the condition variable is broadcast. */
  function ReadUnlock(l: Lock): (r: (Lock, bool, bool)) {
    var l1 := l.(readers := l.readers - 1);
    if l1.readers < 0 then (l1, false, false)
    else if l1.readers > 0 then (l1, true, false)
    else (l1.(batchEnd := -1), true, true)
  }

  function WriteUnlock(l: Lock): (r: (Lock, bool, bool)) {
    var l1 := l.(writers := l.writers - 1, batchEnd := -1);
    (l1, l1.writers == 0, true)
  }

  /** Whether destroying the lock is allowed. */
  predicate DestroyAllowed(l: Lock) {
    !(l.readers > 0 || l.writers > 0 || l.quickWaiters > 0 || l.oldest != l.next)
  }

  lemma JoinKeepsWellFormed(l: Lock, r: Request)
    requires WellFormed(l)
    ensures WellFormed(Join(l, r))
  {
  }

  lemma ConsumeKeepsWellFormed(l: Lock, ticket: int)
    requires WellFormed(l) && 0 < l.next
    ensures WellFormed(Consume(l, ticket))
  {
  }

  // The lock while its queue is intact.

  /** Ticket `k` is in its ring entry, as a request. */
  ghost predicate Intact(l: Lock, k: int)
    requires 0 < |l.slot| == |l.request|
  {
    SlotMatches(l, k) && l.request[Index(l, k)] != NoRequest
  }

  /** The tickets from the oldest up to the next all sit in the ring, each in its own entry. */
  ghost predicate QueueIntact(l: Lock) {
    && WellFormed(l)
    && l.next - l.oldest <= |l.slot|
    && (forall k {:trigger Intact(l, k)} :: l.oldest <= k < l.next ==> Intact(l, k))
  }

  /** Two tickets less than a ring apart have different entries. */
  lemma EntriesDiffer(n: int, j: int, k: int)
    requires 0 < n && j < k < j + n
    ensures j % n != k % n
  {
    var q := k / n - j / n;
    assert k == n * (k / n) + k % n;
    assert j == n * (j / n) + j % n;
    if j % n == k % n {
      MultipleInRange(n, q, k - j);
    }
  }

  lemma MultipleInRange(n: int, q: int, d: int)
    requires 0 < n && d == n * q
    ensures !(0 < d < n)
  {
    if q <= 0 {
      assert n * q <= 0;
    } else {
      assert n * (q - 1) >= 0;
    }
  }

  /** Tickets a ring apart share their entry. */
  lemma SameEntry(n: int, k: int)
    requires 0 < n
    ensures (k + n) % n == k % n
  {
    var q, r := k / n, k % n;
    assert k + n == n * (q + 1) + r;
    QuotientUnique(n, k + n, q + 1, r);
  }

  lemma QuotientUnique(n: int, a: int, q: int, r: int)
    requires 0 < n && a == n * q + r && 0 <= r < n
    ensures a % n == r
  {
    var d := a / n - q;
    assert n * d == r - a % n;
    assert n * -d == a % n - r;
    MultipleInRange(n, d, r - a % n);
    MultipleInRange(n, -d, a % n - r);
  }

  lemma HeadIsOldest(l: Lock)
    requires QueueIntact(l)
    ensures FindValidHead(l, l.oldest) == l.oldest
  {
    if l.oldest < l.next {
      assert Intact(l, l.oldest);
    }
  }

  /** `m` has every queued ticket from `from` on as `l` has it. */
  ghost predicate KeepsQueue(l: Lock, m: Lock, from: int)
    requires 0 < |l.slot| == |l.request| && |m.slot| == |l.slot| && |m.request| == |l.request|
  {
    forall k {:trigger SlotMatches(m, k)} :: from <= k < l.next ==>
      SlotMatches(m, k) && m.request[Index(m, k)] == l.request[Index(l, k)]
  }

  lemma JoinKeepsQueue(l: Lock, r: Request)
    requires QueueIntact(l) && l.next - l.oldest < |l.slot| && r != NoRequest
    ensures QueueIntact(Join(l, r)) && KeepsQueue(l, Join(l, r), l.oldest)
    ensures SlotMatchesAs(Join(l, r), l.next, r)
  {
    var m := Join(l, r);
    JoinKeepsWellFormed(l, r);
    forall k | l.oldest <= k < l.next
      ensures SlotMatches(m, k) && m.request[Index(m, k)] == l.request[Index(l, k)] && Intact(m, k)
    {
      assert Intact(l, k);
      JoinKeepsEntry(l, r, k);
    }
  }

  lemma JoinKeepsEntry(l: Lock, r: Request, k: int)
    requires 0 < |l.slot| == |l.request| && k < l.next < k + |l.slot|
    ensures Join(l, r).slot[Index(l, k)] == l.slot[Index(l, k)]
    ensures Join(l, r).request[Index(l, k)] == l.request[Index(l, k)]
  {
    EntriesDiffer(|l.slot|, k, l.next);
  }

  /** Consuming a ticket that holds its entry disturbs no other queued ticket. */
  lemma ConsumeKeepsQueue(l: Lock, ticket: int, from: int)
    requires QueueIntact(l) && SlotMatches(l, ticket) && l.oldest <= from <= l.next && (ticket < from)
    ensures KeepsQueue(l, Consume(l, ticket), from)
    ensures QueueIntact(Consume(l, ticket).(oldest := from))
  {
    var m := Consume(l, ticket);
    forall k | from <= k < l.next
      ensures SlotMatches(m, k) && m.request[Index(m, k)] == l.request[Index(l, k)] && Intact(m, k)
    {
      assert Intact(l, k);
    }
    forall k | from <= k < l.next
      ensures Intact(m.(oldest := from), k)
    {
      assert Intact(m, k);
    }
  }

  /** A ticketed reader's pass, on an intact queue: a covered reader is admitted or finds its entry
      taken over; the front reader opens a batch over the whole run of READ tickets at the front;
      everyone else waits, and the lock does not change. */
  lemma ReadAttemptCases(l: Lock, ticket: int)
    requires QueueIntact(l) && ticket < l.next && 0 <= l.writers && l.batchEnd < l.oldest
    ensures var e := ReadAttempt(l, ticket);
      && e.lock.next == l.next && e.lock.writers == l.writers && e.lock.quickWaiters == l.quickWaiters
      && |e.lock.slot| == |l.slot| && |e.lock.request| == |l.request|
      && l.oldest <= e.lock.oldest && QueueIntact(e.lock) && KeepsQueue(l, e.lock, e.lock.oldest)
      && e.lock.batchEnd < e.lock.oldest
      && if l.writers > 0 then e == Effect(l, Waits, false)
         else if ticket <= l.batchEnd then
           && e.lock.readers == l.readers + 1 && e.lock.oldest == l.oldest && e.lock.batchEnd == l.batchEnd && !e.broadcast
           && e.outcome == if SlotMatches(l, ticket) then Granted else ConsumeFailed
         else if ticket == l.oldest && l.request[Index(l, ticket)] == Read then
           && e.outcome == Granted && e.broadcast && e.lock.readers == l.readers + 1
           && e.lock.batchEnd == e.lock.oldest - 1 && ticket < e.lock.oldest
           && !SlotMatchesAs(l, e.lock.oldest, Read)
           && (forall k {:trigger SlotMatchesAs(l, k, Read)} :: l.oldest <= k < e.lock.oldest ==> SlotMatchesAs(l, k, Read))
         else e == Effect(l, Waits, false)
  {
    HeadIsOldest(l);
    if l.writers > 0 {
      QueueKeptIntact(l);
    } else if ticket <= l.batchEnd {
      var l1 := l.(readers := l.readers + 1);
      SameRing(l, l1);
      if SlotMatches(l1, ticket) { ConsumeKeepsQueue(l1, ticket, l.oldest); SameRingBack(l, l1, Consume(l1, ticket), l.oldest); }
      else { QueueKeptIntact(l); }
    } else if ticket == l.oldest && l.request[Index(l, ticket)] == Read {
      ReadLeads(l, ticket);
    } else {
      QueueKeptIntact(l);
    }
  }

  lemma QueueKeptIntact(l: Lock)
    requires QueueIntact(l)
    ensures KeepsQueue(l, l, l.oldest)
  {
    forall k | l.oldest <= k < l.next
      ensures SlotMatches(l, k)
    {
      assert Intact(l, k);
    }
  }

  /** Intactness looks only at the ring and its bounds. */
  lemma SameRing(l: Lock, m: Lock)
    requires QueueIntact(l) && m.slot == l.slot && m.request == l.request && m.next == l.next
    requires l.oldest <= m.oldest <= l.next
    ensures QueueIntact(m) && KeepsQueue(l, m, m.oldest)
  {
    forall k | m.oldest <= k < m.next
      ensures Intact(m, k) && SlotMatches(m, k)
    {
      assert Intact(l, k);
    }
  }

  lemma SameRingBack(l: Lock, l1: Lock, m: Lock, from: int)
    requires 0 < |l.slot| == |l.request| && l1.slot == l.slot && l1.request == l.request && l1.next == l.next
    requires |m.slot| == |l.slot| && |m.request| == |l.request| && KeepsQueue(l1, m, from)
    ensures KeepsQueue(l, m, from)
  {
    forall k | from <= k < l.next
      ensures SlotMatches(m, k) && m.request[Index(m, k)] == l.request[Index(l, k)]
    {
      assert SlotMatches(m, k) && m.request[Index(m, k)] == l1.request[Index(l1, k)];
    }
  }

  lemma ReadLeads(l: Lock, ticket: int)
    requires QueueIntact(l) && ticket < l.next && l.writers == 0 && l.batchEnd < l.oldest
    requires ticket == l.oldest && l.request[Index(l, ticket)] == Read
    ensures var e := ReadAttempt(l, ticket);
      && e.lock.next == l.next && e.lock.writers == l.writers && e.lock.quickWaiters == l.quickWaiters
      && |e.lock.slot| == |l.slot| && |e.lock.request| == |l.request|
      && QueueIntact(e.lock) && KeepsQueue(l, e.lock, e.lock.oldest)
      && e.outcome == Granted && e.broadcast && e.lock.readers == l.readers + 1
      && e.lock.batchEnd == e.lock.oldest - 1 && ticket < e.lock.oldest
      && !SlotMatchesAs(l, e.lock.oldest, Read)
      && (forall k {:trigger SlotMatchesAs(l, k, Read)} :: l.oldest <= k < e.lock.oldest ==> SlotMatchesAs(l, k, Read))
  {
    HeadIsOldest(l);
    assert Intact(l, l.oldest);
    var l1 := l.(oldest := l.oldest);
    assert l1 == l;
    var end := BatchScan(l, l.oldest);
    assert SlotMatchesAs(l, l.oldest, Read);
    var l2 := l.(batchEnd := end - 1, oldest := end, readers := l.readers + 1);
    SameRing(l, l2);
    ConsumeKeepsQueue(l2, ticket, end);
    assert Consume(l2, ticket).(oldest := end) == Consume(l2, ticket);
    SameRingBack(l, l2, Consume(l2, ticket), end);
  }

  /** A writer's pass, on an intact queue that holds its ticket: it is admitted exactly when it is at
      the front and no reader, writer or quick reader is in the way. The error exit is not taken. */
  lemma WriteAttemptCases(l: Lock, ticket: int)
    requires QueueIntact(l) && l.oldest <= ticket < l.next
    requires SlotMatchesAs(l, ticket, Write)
    ensures var e := WriteAttempt(l, ticket);
      && !e.broadcast && e.lock.next == l.next && e.lock.quickWaiters == l.quickWaiters && e.lock.readers == l.readers
      && |e.lock.slot| == |l.slot| && |e.lock.request| == |l.request|
      && QueueIntact(e.lock) && KeepsQueue(l, e.lock, e.lock.oldest)
      && if l.readers > 0 || l.writers > 0 || l.quickWaiters > 0 || ticket != l.oldest then e == Effect(l, Waits, false)
         else
           && e.outcome == Granted && e.lock.writers == 1 && e.lock.oldest == ticket + 1 && e.lock.batchEnd == -1
  {
    HeadIsOldest(l);
    QueueKeptIntact(l);
    if !(l.readers > 0 || l.writers > 0 || l.quickWaiters > 0 || ticket != l.oldest) {
      var l1 := l.(writers := 1);
      SameRing(l, l1);
      ConsumeKeepsQueue(l1, ticket, ticket + 1);
      var l2 := Consume(l1, ticket);
      ConsumeKeepsWellFormed(l1, ticket);
      var l3 := l2.(oldest := ticket + 1);
      HeadIsOldest(l3);
      FindValidHeadIgnoresOldest(l2, l3, ticket + 1);
      SameRing(l3, l3.(batchEnd := -1));
      SameRingBack(l, l1, l2, ticket + 1);
      SameRingForward(l, l2, l3.(batchEnd := -1), ticket + 1);
    }
  }

  lemma SameRingForward(l: Lock, m: Lock, m1: Lock, from: int)
    requires 0 < |l.slot| == |l.request| && |m.slot| == |l.slot| && |m.request| == |l.request|
    requires m1.slot == m.slot && m1.request == m.request && KeepsQueue(l, m, from)
    ensures KeepsQueue(l, m1, from)
  {
    forall k | from <= k < l.next
      ensures SlotMatches(m1, k) && m1.request[Index(m1, k)] == l.request[Index(l, k)]
    {
      assert SlotMatches(m, k);
    }
  }

  lemma {:induction false} FindValidHeadIgnoresOldest(l: Lock, m: Lock, head: int)
    requires WellFormed(l) && WellFormed(m) && m == l.(oldest := m.oldest) && head <= l.next
    ensures FindValidHead(l, head) == FindValidHead(m, head)
    decreases l.next - head
  {
    if head < l.next && !SlotMatches(l, head) {
      FindValidHeadIgnoresOldest(l, m, head + 1);
    }
  }
}