/** The lock object. Each method is the code a call runs from taking the mutex to waiting on the
    condition variable or releasing the mutex, and is proved to be the step of module LockSteps. The
    `broadcast` results say whether the condition variable was broadcast on the way. */
module RwLock {
  import opened LockSteps

  class ReadWriteLock {
    var currentReaders: int
    var currentWriters: int
    var quickWaiters: int
    var nextElement: int
    var oldestElement: int
    var readBatchEnd: int
    const slotTable: array<int>
    const requestType: array<Request>

    ghost function View(): Lock
      reads this, slotTable, requestType
    {
      Lock(currentReaders, currentWriters, quickWaiters, nextElement, oldestElement, readBatchEnd,
           slotTable[..], requestType[..])
    }

    constructor (ringSize: nat)
      requires 0 < ringSize
      ensures View() == NewLock(ringSize)
      ensures fresh(slotTable) && fresh(requestType)
    {
      currentReaders, currentWriters := 0, 0;
      nextElement, oldestElement, quickWaiters, readBatchEnd := 0, 0, 0, -1;
      slotTable := new int[ringSize];
      requestType := new Request[ringSize];
      new;
      for i := 0 to ringSize
        invariant forall k :: 0 <= k < i ==> slotTable[k] == -1 && requestType[k] == NoRequest
        invariant currentReaders == currentWriters == nextElement == oldestElement == quickWaiters == 0 && readBatchEnd == -1
      {
        requestType[i] := NoRequest;
        slotTable[i] := -1;
      }
    }

    method ConsumeEntry(num: int) returns (ok: bool)
      requires WellFormed(View())
      modifies slotTable, requestType
      ensures ok == old(SlotMatches(View(), num))
      ensures View() == if ok then Consume(old(View()), num) else old(View())
    {
      var idx := num % slotTable.Length;
      if slotTable[idx] != num {
        return false;
      }
      slotTable[idx] := -1;
      requestType[idx] := NoRequest;
      ok := true;
    }

    method JoinFifo(r: Request)
      requires WellFormed(View()) && r != NoRequest
      modifies this`nextElement, slotTable, requestType
      ensures View() == Join(old(View()), r)
    {
      var num := nextElement;
      nextElement := nextElement + 1;
      slotTable[num % slotTable.Length] := num;
      requestType[num % requestType.Length] := r;
    }

    method ValidHead(from: int) returns (head: int)
      requires WellFormed(View()) && from <= nextElement
      ensures head == FindValidHead(View(), from)
    {
      head := from;
      while head < nextElement && slotTable[head % slotTable.Length] != head
        invariant head <= nextElement
        invariant FindValidHead(View(), head) == FindValidHead(View(), from)
      {
        assert !SlotMatches(View(), head);
        head := head + 1;
      }
      assert head < nextElement ==> SlotMatches(View(), head);
    }

    /** Moves the batch limit over the run of READ tickets at `from`. */
    method ExtendBatch(from: int) returns (head: int)
      requires WellFormed(View()) && from <= nextElement
      modifies this`readBatchEnd
      ensures head == BatchScan(old(View()), from)
      ensures readBatchEnd == if head > from then head - 1 else old(readBatchEnd)
    {
      head := from;
      ghost var l := View();
      while slotTable[head % slotTable.Length] == head && requestType[head % slotTable.Length] == Read
        invariant from <= head <= nextElement
        invariant View() == l.(batchEnd := readBatchEnd)
        invariant BatchScan(l, head) == BatchScan(l, from)
        invariant readBatchEnd == if head > from then head - 1 else old(readBatchEnd)
        decreases nextElement - head
      {
        assert SlotMatchesAs(l, head, Read);
        assert l.slot[Index(l, head)] < l.next;
        readBatchEnd := head;
        head := head + 1;
      }
      assert !SlotMatchesAs(l, head, Read);
    }

    /** What the reader at the front does. */
    method LeadBatch(myTurn: int) returns (outcome: Outcome, broadcast: bool)
      requires WellFormed(View())
      modifies this, slotTable, requestType
      ensures Effect(View(), outcome, broadcast) == OpenBatch(old(View()), myTurn)
    {
      readBatchEnd := myTurn;
      BatchScanIgnoresLimit(old(View()), View(), oldestElement);
      var head := ExtendBatch(oldestElement);
      oldestElement := head;
      currentReaders := currentReaders + 1;
      var ok := ConsumeEntry(myTurn);
      if !ok {
        return ConsumeFailed, false;
      }
      return Granted, true;
    }

    /** A ticketed reader's pass through the wait loop. */
    method ReadPass(myTurn: int) returns (outcome: Outcome, broadcast: bool)
      requires WellFormed(View())
      modifies this, slotTable, requestType
      ensures Effect(View(), outcome, broadcast) == ReadAttempt(old(View()), myTurn)
    {
      broadcast := false;
      if currentWriters > 0 {
        return Waits, false;
      }
      if myTurn <= readBatchEnd && currentWriters == 0 {
        currentReaders := currentReaders + 1;
        var ok := ConsumeEntry(myTurn);
        return if ok then Granted else ConsumeFailed, false;
      }
      var head := ValidHead(oldestElement);
      if head == nextElement {
        return Waits, false;
      }
      oldestElement := head;
      if myTurn == head && requestType[head % requestType.Length] == Read {
        outcome, broadcast := LeadBatch(myTurn);
        return;
      }
      outcome := Waits;
    }

    /** What the writer at the front does. The exit for a failing consume is not taken. */
    method AdmitFront(myTurn: int)
      requires WellFormed(View()) && myTurn == oldestElement < nextElement && SlotMatches(View(), myTurn)
      modifies this, slotTable, requestType
      ensures View() == AdmitWriter(old(View()), myTurn)
    {
      ConsumeKeepsWellFormed(View().(writers := 1), myTurn);
      currentWriters := 1;
      var ok := ConsumeEntry(myTurn);
      assert ok;
      ghost var l2 := View();
      oldestElement := oldestElement + 1;
      FindValidHeadIgnoresOldest(l2, View(), myTurn + 1);
      oldestElement := ValidHead(oldestElement);
      readBatchEnd := -1;
    }

    /** A writer's pass through the wait loop. */
    method WritePass(myTurn: int) returns (outcome: Outcome)
      requires WellFormed(View())
      modifies this, slotTable, requestType
      ensures Effect(View(), outcome, false) == WriteAttempt(old(View()), myTurn)
    {
      if currentReaders > 0 || currentWriters > 0 || quickWaiters > 0 {
        return Waits;
      }
      var head := ValidHead(oldestElement);
      oldestElement := head;
      if head == nextElement {
        return NotInserted;
      }
      if myTurn == head && slotTable[myTurn % slotTable.Length] == myTurn && requestType[myTurn % slotTable.Length] == Write {
        AdmitFront(myTurn);
        return Granted;
      }
      outcome := Waits;
    }

    /** A waiting quick reader's pass through the wait loop. */
    method QuickPass() returns (outcome: Outcome, broadcast: bool)
      modifies this
      ensures Effect(View(), outcome, broadcast) == QuickAttempt(old(View()))
    {
      if currentWriters > 0 {
        return Waits, false;
      }
      quickWaiters := quickWaiters - 1;
      currentReaders := currentReaders + 1;
      return Granted, true;
    }

    method ReadLock() returns (myTurn: int, outcome: Outcome, broadcast: bool)
      requires WellFormed(View())
      modifies this, slotTable, requestType
      ensures myTurn == old(nextElement)
      ensures Effect(View(), outcome, broadcast) == ReadEnter(old(View()))
    {
      myTurn := nextElement;
      JoinKeepsWellFormed(View(), Read);
      JoinFifo(Read);
      outcome, broadcast := ReadPass(myTurn);
    }

    method QuickReadLock() returns (outcome: Outcome, broadcast: bool)
      modifies this
      ensures Effect(View(), outcome, broadcast) == QuickEnter(old(View()))
    {
      if currentWriters == 0 {
        currentReaders := currentReaders + 1;
        return Granted, false;
      }
      quickWaiters := quickWaiters + 1;
      outcome, broadcast := QuickPass();
    }

    method WriteLock() returns (myTurn: int, outcome: Outcome)
      requires WellFormed(View())
      modifies this, slotTable, requestType
      ensures myTurn == old(nextElement)
      ensures Effect(View(), outcome, false) == WriteEnter(old(View()))
    {
      myTurn := nextElement;
      JoinKeepsWellFormed(View(), Write);
      JoinFifo(Write);
      outcome := WritePass(myTurn);
    }

    method ReadRelease() returns (ok: bool, broadcast: bool)
      modifies this
      ensures (View(), ok, broadcast) == ReadUnlock(old(View()))
      ensures currentReaders == old(currentReaders) - 1 && (ok <==> 0 < old(currentReaders)) && (broadcast <==> old(currentReaders) == 1)
      ensures readBatchEnd == if old(currentReaders) == 1 then -1 else old(readBatchEnd)
    {
      currentReaders := currentReaders - 1;
      if currentReaders < 0 {
        return false, false;
      }
      if currentReaders > 0 {
        return true, false;
      }
      readBatchEnd := -1;
      return true, true;
    }

    method WriteRelease() returns (ok: bool, broadcast: bool)
      modifies this
      ensures (View(), ok, broadcast) == WriteUnlock(old(View()))
      ensures currentWriters == old(currentWriters) - 1 && readBatchEnd == -1 && (ok <==> old(currentWriters) == 1) && broadcast
    {
      currentWriters := currentWriters - 1;
      readBatchEnd := -1;
      if currentWriters > 0 || currentWriters < 0 {
        return false, true;
      }
      return true, true;
    }
  }

  lemma {:induction false} BatchScanIgnoresLimit(l: Lock, m: Lock, head: int)
    requires WellFormed(l) && WellFormed(m) && m == l.(batchEnd := m.batchEnd) && head <= l.next
    ensures BatchScan(l, head) == BatchScan(m, head)
    decreases l.next - head
  {
    if SlotMatchesAs(l, head, Read) {
      assert l.slot[Index(l, head)] < l.next;
      BatchScanIgnoresLimit(l, m, head + 1);
    }
  }
}
