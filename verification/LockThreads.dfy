/** Threads using one lock, and counting them by what they are doing. */
module LockThreads {
  import opened LockSteps

  /** A thread outside the lock, holding it, or inside a lock call. `asleep` threads are blocked on
      the condition variable; the others in a lock call will take the mutex and try again. */
  datatype Thread =
    | Idle
    | Reading
    | Writing
    | Quick(asleep: bool)
    | Queued(request: Request, ticket: int, asleep: bool)

  datatype Activity = Outside | HoldsRead | HoldsWrite | QuickWait | QueueWait

  function ActivityOf(th: Thread): Activity {
    match th
    case Idle => Outside
    case Reading => HoldsRead
    case Writing => HoldsWrite
    case Quick(_) => QuickWait
    case Queued(_, _, _) => QueueWait
  }

  predicate InCall(th: Thread) {
    th.Quick? || th.Queued?
  }

  predicate Asleep(th: Thread) {
    InCall(th) && th.asleep
  }

  function Awake(th: Thread): Thread {
    if InCall(th) then th.(asleep := false) else th
  }

  function Count(ths: seq<Thread>, a: Activity): nat {
    if ths == [] then 0
    else Count(ths[..|ths| - 1], a) + if ActivityOf(ths[|ths| - 1]) == a then 1 else 0
  }

  function WakeAll(ths: seq<Thread>): (r: seq<Thread>)
    ensures |r| == |ths|
    ensures forall i {:trigger r[i]} :: 0 <= i < |ths| ==> r[i] == Awake(ths[i])
  {
    seq(|ths|, i requires 0 <= i < |ths| => Awake(ths[i]))
  }

  lemma {:induction false} CountUpdate(ths: seq<Thread>, i: int, th: Thread, a: Activity)
    requires 0 <= i < |ths|
    ensures Count(ths[i := th], a) ==
            Count(ths, a) - (if ActivityOf(ths[i]) == a then 1 else 0) + (if ActivityOf(th) == a then 1 else 0)
  {
    var n := |ths| - 1;
    if i < n {
      CountUpdate(ths[..n], i, th, a);
      assert ths[i := th][..n] == ths[..n][i := th];
    } else {
      assert ths[i := th][..n] == ths[..n];
    }
  }

  lemma {:induction false} CountSame(ths: seq<Thread>, after: seq<Thread>, a: Activity)
    requires |after| == |ths|
    requires forall i {:trigger after[i]} :: 0 <= i < |ths| ==> ActivityOf(after[i]) == ActivityOf(ths[i])
    ensures Count(after, a) == Count(ths, a)
  {
    if ths != [] {
      CountSame(ths[..|ths| - 1], after[..|ths| - 1], a);
    }
  }

  lemma {:induction false} CountSome(ths: seq<Thread>, i: int, a: Activity)
    requires 0 <= i < |ths| && ActivityOf(ths[i]) == a
    ensures Count(ths, a) >= 1
  {
    if i < |ths| - 1 {
      CountSome(ths[..|ths| - 1], i, a);
    }
  }

  lemma CountTwo(ths: seq<Thread>, i: int, j: int, a: Activity)
    requires 0 <= i < j < |ths| && ActivityOf(ths[i]) == a == ActivityOf(ths[j])
    ensures Count(ths, a) >= 2
  {
    CountUpdate(ths, j, if a == Outside then Reading else Idle, a);
    CountSome(ths[j := if a == Outside then Reading else Idle], i, a);
  }

  lemma {:induction false} CountFind(ths: seq<Thread>, a: Activity) returns (i: int)
    requires Count(ths, a) >= 1
    ensures 0 <= i < |ths| && ActivityOf(ths[i]) == a
  {
    if ActivityOf(ths[|ths| - 1]) == a {
      i := |ths| - 1;
    } else {
      i := CountFind(ths[..|ths| - 1], a);
    }
  }

  /** Tickets `lo .. hi`, each owned by a queued thread of `left`, are at most as many as `left` has. */
  lemma {:induction false} OwnersBoundTickets(ths: seq<Thread>, lo: int, hi: int, left: set<int>)
    requires lo <= hi
    requires forall k {:trigger Owned(ths, k, left)} :: lo <= k < hi ==> Owned(ths, k, left)
    ensures hi - lo <= |left|
    decreases hi - lo
  {
    if lo < hi {
      assert Owned(ths, hi - 1, left);
      var i :| i in left && 0 <= i < |ths| && ths[i].Queued? && ths[i].ticket == hi - 1;
      forall k | lo <= k < hi - 1
        ensures Owned(ths, k, left - {i})
      {
        assert Owned(ths, k, left);
        var j :| j in left && 0 <= j < |ths| && ths[j].Queued? && ths[j].ticket == k;
        assert j in left - {i};
      }
      OwnersBoundTickets(ths, lo, hi - 1, left - {i});
    }
  }

  /** A queued thread among `left` holds ticket `k`. */
  ghost predicate Owned(ths: seq<Thread>, k: int, left: set<int>) {
    exists i :: i in left && 0 <= i < |ths| && ths[i].Queued? && ths[i].ticket == k
  }
}
