/** The address-ordered baseline heap manager. */
module BaseHeap {
  import opened Tiling
  import opened Chunk
  import opened BinLists
  import opened UsedUnits
  import opened ChunkBase
  import opened BaseLayout
  import opened BaseSteps
  import R = Regions

  class Heap {
    const mem: Memory
    var head: int
    var lo: int
    var hi: int
    var brk: int
    var booted: bool
    ghost var blocks: Blocks
    ghost var free: seq<int>
    ghost var refusals: nat

    ghost function Snap(): Layout
      reads this, mem
    {
      Layout(mem[..], head, lo, hi, blocks, free)
    }

    /** The invariant between client calls. The arena always ends at the program break. */
    ghost predicate Good()
      reads this, mem
    {
      && Valid(Snap())
      && 0 < brk <= mem.Length
      && (if booted then lo != NULL && hi == brk else lo == NULL)
    }

    ghost function Live(): R.Live
      reads this, mem
    {
      R.LiveWith(blocks, 1)
    }

    /** What the accessors read at the node at position `k`. */
    lemma NodeOf(k: int)
      requires Inv(Snap()) && 0 <= k < |free|
      ensures var c := free[k];
        && c in blocks && blocks[c].free && c != NULL && Addressable(mem, c) && lo != NULL && lo <= c < hi
        && mem[c].word0 == FREE && mem[c].word1 == blocks[c].span && mem[c].link == NextIn(free, k)
    {
      NodeFacts(Snap(), k);
    }

    /** What the accessors read at a block and after it. */
    lemma Around(c: int)
      requires Inv(Snap()) && c in blocks
      ensures 0 < lo <= c < hi <= mem.Length && mem[c].word1 == blocks[c].span >= 1 && c + blocks[c].span <= hi
      ensures mem[c].word0 == if blocks[c].free then FREE else USED
      ensures var n := BaseAdjacent(mem, c, lo, hi);
        && n == (if c + blocks[c].span == hi then NULL else c + blocks[c].span)
        && (n != NULL ==> n in blocks && Addressable(mem, n) && mem[n].word0 == (if blocks[n].free then FREE else USED))
      ensures hi !in blocks
    {
      BlockFacts(Snap(), c);
      if c + blocks[c].span in blocks {
        BlockFacts(Snap(), c + blocks[c].span);
      }
    }

    /** The layout as it will be once `head` is set, which pushing a block does last. */
    ghost function Pending(): Layout
      reads this, mem
    {
      Snap().(head := HeadOf(free))
    }

    /** Merges two adjacent list neighbours; the list link of the upper one moves to the lower one. */
    method CoalesceTwo(a: int, b: int, ghost k: int) returns (merged: int)
      requires Inv(Pending()) && 0 <= k && k + 1 < |free| && free[k] == a && free[k + 1] == b
      requires a in blocks && a + blocks[a].span == b
      modifies this`blocks, this`free, mem
      ensures merged == a && FusedAt(old(Pending()), Pending(), k) && Inv(Pending())
    {
      ghost var s := Pending();
      NodeFacts(s, k);
      NodeFacts(s, k + 1);
      hide Inv, FusedAt;
      assert a < b;
      assert BaseAdjacent(mem, a, lo, hi) == b;
      assert BaseStatus(mem, a) == FREE;
      assert BaseStatus(mem, b) == FREE;
      SetBaseSpan(mem, a, BaseSpan(mem, a) + BaseSpan(mem, b));
      SetBaseNext(mem, a, BaseNext(mem, b));
      merged := a;

      assert mem[..] == CoalesceStores(s.m, a, b);
      CoalesceStoresFuse(s, k);
      ghost var t := MergedUp(s, mem[..], k);
      blocks, free := t.blocks, t.free;
      assert HeadOf(free) == s.head;
      assert Pending() == t;
      FuseAtKeepsInv(s, t, k);
    }

    /** The list is empty, or its head can be read. */
    lemma HeadFacts()
      requires Inv(Snap())
      ensures head == HeadOf(free) && Pending() == Snap()
      ensures free != [] ==> head in blocks && blocks[head].free && head != NULL && Addressable(mem, head)
    {
      if free != [] { NodeFacts(Snap(), 0); }
    }

    /** Frees block `c`, whose place is before the whole list: link it at the front and merge it with
        the old head when they touch. */
    method FreelistPushFront(c: int)
      requires Valid(Snap()) && c in blocks && !blocks[c].free && Between(free, c, 0)
      modifies this`blocks, this`free, this`head, mem
      ensures Valid(Snap())
      ensures blocks == Coalesced(SetFree(old(blocks), c), c)
      ensures old(free) == [] ==> free == [c] && MergeStart(SetFree(old(blocks), c), c) == c
      ensures KeepsUsed(blocks, old(mem[..]), mem[..])
    {
      hide Inv, Coalesced, MergeStart, NoFreeNeighbours, KeepsUsed, Fuse, InsertedAt, FusedAt;
      ghost var s := Snap();
      Around(c);
      HeadFacts();
      FrontStoresLink(s, c);
      ghost var t1 := LinkedIn(s, FrontStores(s.m, c, s.head), c, 0);
      InsertKeepsInv(s, t1, c, 0);
      ghost var high := false;

      assert BaseSpan(mem, c) >= 1;
      SetBaseStatus(mem, c, FREE);
      if head == NULL {
        head := c;
        SetBaseNext(mem, c, NULL);
        blocks, free := t1.blocks, t1.free;
      } else {
        assert c < head;
        SetBaseNext(mem, c, head);
        blocks, free := t1.blocks, t1.free;
        assert Pending() == t1;
        if BaseAdjacent(mem, c, lo, hi) == head {
          high := true;
          var merged := CoalesceTwo(c, head, 0);
          FusedPlace(t1, Pending(), 0);
        }
        head := c;
      }
      assert Snap() == Pending();
      SuccessorIsListed(t1, 0);
      FreeingCoalesces(s, t1, t1, Snap(), c, 0, false, high);
    }

    /** Links the used block `c` as free right after node `e`. */
    method LinkAfter(e: int, c: int, ghost k: int)
      requires Inv(Snap()) && c in blocks && !blocks[c].free && Between(free, c, k) && 0 < k && free[k - 1] == e
      modifies this`blocks, this`free, mem
      ensures InsertedAt(old(Snap()), Snap(), c, k) && Inv(Snap())
    {
      ghost var s := Snap();
      Around(c);
      NodeOf(k - 1);
      AfterStoresLink(s, e, c, k);
      hide Inv, InsertedAt, Between;
      assert e < c;
      assert BaseStatus(mem, e) == FREE;
      assert BaseStatus(mem, c) != FREE;
      SetBaseNext(mem, c, BaseNext(mem, e));
      SetBaseNext(mem, e, c);
      SetBaseStatus(mem, c, FREE);
      ghost var t := LinkedIn(s, AfterStores(s.m, e, c), c, k);
      blocks, free := t.blocks, t.free;
      assert Snap() == t;
      InsertKeepsInv(s, t, c, k);
    }

    /** Merges node `e` with the next list node `c` when they touch. */
    method MergeLower(e: int, c: int, ghost k: int) returns (merged: int, ghost low: bool)
      requires Inv(Snap()) && 0 <= k && k + 1 < |free| && free[k] == e && free[k + 1] == c && e in blocks
      modifies this`blocks, this`free, mem
      ensures Inv(Snap()) && (low <==> e + old(blocks[e].span) == c)
      ensures merged == if low then e else c
      ensures if low then FusedAt(old(Snap()), Snap(), k) else Snap() == old(Snap())
    {
      hide FusedAt;
      HeadFacts();
      NodeOf(k + 1);
      Around(e);
      hide Inv;
      merged, low := c, false;
      if BaseAdjacent(mem, e, lo, hi) == c {
        low := true;
        merged := CoalesceTwo(e, c, k);
        FusedHead(old(Snap()), Pending(), k);
      }
    }

    lemma FusedHead(s: Layout, t: Layout, k: int)
      requires FusedAt(s, t, k)
      ensures HeadOf(t.free) == HeadOf(s.free) && t.head == s.head
    {
    }

    /** Merges node `c` with the block above it when that is free. */
    method MergeUpper(c: int, ghost k: int) returns (merged: int, ghost high: bool)
      requires Inv(Snap()) && 0 <= k < |free| && free[k] == c && c in blocks
      modifies this`blocks, this`free, mem
      ensures Inv(Snap()) && merged == c
      ensures var n := c + old(blocks[c].span); high <==> n in old(blocks) && old(blocks)[n].free
      ensures if high then FusedAt(old(Snap()), Snap(), k) else Snap() == old(Snap())
    {
      hide FusedAt;
      HeadFacts();
      Around(c);
      SuccessorIsListed(Snap(), k);
      hide Inv;
      merged, high := c, false;
      var n := BaseAdjacent(mem, c, lo, hi);
      if n != NULL && BaseStatus(mem, n) == FREE {
        high := true;
        merged := CoalesceTwo(c, n, k);
        FusedHead(old(Snap()), Pending(), k);
      }
    }

    /** Frees block `c`, whose place is right after node `e`: link it there, then merge it with `e`
        and with the block above it when they touch and are free. */
    method FreelistInsertAfter(e: int, c: int, ghost k: int) returns (merged: int)
      requires Valid(Snap()) && c in blocks && !blocks[c].free && Between(free, c, k) && 0 < k && free[k - 1] == e
      modifies this`blocks, this`free, mem
      ensures Valid(Snap())
      ensures blocks == Coalesced(SetFree(old(blocks), c), c)
      ensures merged == MergeStart(SetFree(old(blocks), c), c) && (merged == c || merged == e)
      ensures k == |old(free)| ==> free == if merged == c then old(free) + [c] else old(free)
      ensures KeepsUsed(blocks, old(mem[..]), mem[..])
    {
      hide Inv, Coalesced, MergeStart, NoFreeNeighbours, KeepsUsed, Fuse, InsertedAt, FusedAt;
      ghost var s := Snap();
      ghost var low, high;
      NodeOf(k - 1);
      LinkAfter(e, c, k);
      ghost var t1 := Snap();
      InsertedPlace(s, t1, c, k);
      merged, low := MergeLower(e, c, k - 1);
      ghost var t2 := Snap();
      FreedBelow(s, t1, t2, c, k, low);
      NodeOf(if low then k - 1 else k);
      merged, high := MergeUpper(merged, if low then k - 1 else k);
      FreeingCoalesces(s, t1, t2, Snap(), c, k, low, high);
    }

    /** Splits the free block `c`; the trailing part serves the request and `c` keeps its place. */
    method SplitForAlloc(c: int, need: int) returns (alloc: int)
      requires Inv(Snap()) && c in blocks && blocks[c].free && 0 <= need && need + 1 < blocks[c].span
      modifies this`blocks, mem
      ensures Inv(Snap()) && blocks == Carve(old(blocks), c, need + 1)
      ensures alloc == c + old(blocks[c].span) - (need + 1)
      ensures KeepsUsed(old(blocks), old(mem[..]), mem[..])
    {
      ghost var s := Snap();
      Around(c);
      hide Inv, CarvedAt, Carve;
      var oldSpan := BaseSpan(mem, c);
      var allocSpan := 1 + need;
      var remainSpan := oldSpan - allocSpan;
      assert lo <= c <= hi;
      assert BaseStatus(mem, c) == FREE;
      assert remainSpan > 0;

      SetBaseSpan(mem, c, remainSpan);
      alloc := BaseAdjacent(mem, c, lo, hi);
      SetBaseSpan(mem, alloc, allocSpan);
      SetBaseStatus(mem, alloc, USED);
      SetBaseNext(mem, alloc, BaseNext(mem, c));

      blocks := Carve(blocks, c, allocSpan);
      assert mem[..] == CarveStores(s.m, c, remainSpan, allocSpan);
      CarveStoresCarve(s, Snap(), c, allocSpan);
      CarveAtKeepsInv(s, Snap(), c, allocSpan);
      CarveAtKeepsUsed(s, Snap(), c, allocSpan);
    }

    /** Takes node `c` off the list, `prev` being the node before it or null, and marks it used. */
    method FreelistDetach(prev: int, c: int, ghost k: int)
      requires Inv(Snap()) && 0 <= k < |free| && free[k] == c && prev == PrevIn(free, k) && c in blocks
      modifies this`blocks, this`free, this`head, mem
      ensures Inv(Snap()) && blocks == old(blocks)[c := old(blocks)[c].(free := false)]
      ensures KeepsUsed(old(blocks), old(mem[..]), mem[..])
    {
      ghost var s := Snap();
      NodeOf(k);
      if 0 < k { NodeOf(k - 1); }
      HeadFacts();
      hide Inv, DetachedAt;
      assert BaseStatus(mem, c) == FREE;
      if prev == NULL {
        head := BaseNext(mem, c);
      } else {
        SetBaseNext(mem, prev, BaseNext(mem, c));
      }
      SetBaseNext(mem, c, NULL);
      SetBaseStatus(mem, c, USED);

      blocks, free := blocks[c := blocks[c].(free := false)], free[..k] + free[k + 1..];
      assert mem[..] == DetachStores(s.m, prev, c);
      DetachStoresDetach(s, Snap(), k);
      DetachAtKeepsInv(s, Snap(), k);
      DetachAtKeepsUsed(s, Snap(), k);
    }

    /** The kernel's side: move the program break up by `units`, or refuse. */
    method Sbrk(units: int) returns (c: int)
      requires 0 < units && 0 < brk <= mem.Length
      modifies this`brk, this`refusals
      ensures c == SBRK_FAILED ==> brk == old(brk) && refusals == old(refusals) + 1
      ensures c != SBRK_FAILED ==> c == old(brk) && brk == c + units <= mem.Length && refusals == old(refusals)
    {
      var refused := *;
      if refused || brk + units > mem.Length {
        refusals := refusals + 1;
        return SBRK_FAILED;
      }
      c := brk;
      brk := brk + units;
    }

    /** Moves the end of the arena up by `span` units and makes them one used block. */
    method ExtendArena(span: int) returns (c: int)
      requires Good() && booted && 1 <= span
      modifies this`blocks, this`hi, this`brk, this`refusals, mem
      ensures 0 < brk <= mem.Length && booted && lo != NULL && hi == brk
      ensures c == SBRK_FAILED ==> Good() && refusals == old(refusals) + 1 && Snap() == old(Snap())
      ensures c != SBRK_FAILED ==>
        && c == old(hi) && refusals == old(refusals) && GrownBy(old(Snap()), Snap(), span) && Inv(Snap())
    {
      ghost var s := Snap();
      c := Sbrk(span);
      if c == SBRK_FAILED {
        return;
      }
      hide Inv;
      hi := brk;
      SetBaseSpan(mem, c, span);
      SetBaseNext(mem, c, NULL);
      SetBaseStatus(mem, c, USED);
      blocks := blocks[c := Block(span, false)];
      GrowKeepsInv(s, Snap(), span);
    }

    /** The last list node, or null. */
    ghost function Last(): int
      reads this
    {
      if free == [] then NULL else free[|free| - 1]
    }

    /** Asks for more memory and frees it into the list; `prev` is the last node or null. The grown
        block is the last node then. */
    method SysGrowAndLink(prev: int, need: int) returns (c: int)
      requires Good() && booted && 0 <= need && prev == Last()
      modifies this`blocks, this`free, this`head, this`hi, this`brk, this`refusals, mem
      ensures Good()
      ensures c == NULL ==> refusals == old(refusals) + 1 && Snap() == old(Snap())
      ensures c != NULL ==> refusals == old(refusals) && lo == old(lo) && hi == old(hi) + GrowSpan(need)
      ensures c != NULL ==> hi == old(hi) + 1 + if need < 1024 then 1024 else need
      ensures c != NULL ==> blocks == old(GrownBlocks(Snap(), need)) && c == old(GrownAt(Snap(), need))
      ensures c != NULL ==> free == if c == prev then old(free) else old(free) + [c]
      ensures c != NULL && old(free) != [] ==> prev != NULL
      ensures c != NULL ==> KeepsUsed(old(blocks), old(mem[..]), mem[..])
    {
      hide Inv, Coalesced, MergeStart, KeepsUsed;
      ghost var s := Snap();
      var growData := if need < SYS_MIN_ALLOC_UNITS then SYS_MIN_ALLOC_UNITS else need;
      var growSpan := 1 + growData;
      c := ExtendArena(growSpan);
      if c == SBRK_FAILED {
        return NULL;
      }
      ghost var t := Snap();
      GrownUsed(s, t, growSpan);
      HeadFacts();
      if free != [] { NodeOf(|free| - 1); }
      if head == NULL {
        FreelistPushFront(c);
      } else {
        c := FreelistInsertAfter(prev, c, |free|);
      }
      GrowingKeepsClients(s, need);
      KeepsUsedWeakens(s.blocks, blocks, t.m, mem[..]);
      KeepsUsedTransitive(s.blocks, s.m, t.m, mem[..]);
    }

    lemma GrownUsed(s: Layout, t: Layout, span: int)
      requires Valid(s) && GrownBy(s, t, span) && Inv(t)
      ensures Valid(t) && s.hi in t.blocks && !t.blocks[s.hi].free && t.free == s.free && t.lo == s.lo && t.hi == s.hi + span
      ensures KeepsUsed(s.blocks, s.m, t.m)
      ensures SetFree(t.blocks, s.hi) == Extended(s.blocks, s.hi, span) && Between(t.free, s.hi, |t.free|)
      ensures t.free == [] ==> Between(t.free, s.hi, 0)
    {
      GrowKeepsUsed(s, t, span);
    }

    /** First-fit scan of the list, keeping the two nodes before the current one. */
    method Search(need: int) returns (cur: int, prev: int, prevprev: int, ghost k: int)
      requires Valid(Snap())
      ensures 0 <= k <= |free| && cur == (if k < |free| then free[k] else NULL)
      ensures prev == (if 0 < k then free[k - 1] else NULL) && prevprev == (if 1 < k then free[k - 2] else NULL)
      ensures if cur != NULL then IsFirstFit(blocks, cur, need) else NoRoom(blocks, need)
      ensures k < |free| ==> cur != NULL
      ensures k < |free| ==> !NoRoom(blocks, need)
    {
      hide Inv, IsFirstFit, NoRoom;
      prevprev, prev, cur, k := NULL, NULL, head, 0;
      HeadFacts();
      while cur != NULL
        invariant 0 <= k <= |free| && cur == if k < |free| then free[k] else NULL
        invariant k < |free| ==> cur != NULL
        invariant prev == (if 0 < k then free[k - 1] else NULL) && prevprev == (if 1 < k then free[k - 2] else NULL)
        invariant forall j {:trigger free[j]} :: 0 <= j < k ==> free[j] in blocks && blocks[free[j]].span <= need
        decreases |free| - k
      {
        NodeOf(k);
        var curPayload := BaseSpan(mem, cur) - 1;
        if curPayload >= need {
          break;
        }
        prevprev := prev;
        prev := cur;
        cur := BaseNext(mem, cur);
        k := k + 1;
        if k < |free| { NodeOf(k); }
      }
      if k < |free| { NodeOf(k); }
      ScanIsFirstFit(Snap(), need, k);
    }

    /** Serves a request from node `cur`: the trailing part of a larger block, or the whole block. */
    method ServeFrom(prev: int, cur: int, need: int, ghost k: int) returns (p: int)
      requires Valid(Snap()) && 0 <= k < |free| && free[k] == cur && cur in blocks && blocks[cur].free
      requires 0 <= need < blocks[cur].span
      requires blocks[cur].span == need + 1 ==> prev == PrevIn(free, k)
      modifies this`blocks, this`free, this`head, mem
      ensures Valid(Snap())
      ensures p == old(AllocatedAt(blocks, cur, need)) + 1 && blocks == old(Allocated(blocks, cur, need))
      ensures KeepsUsed(old(blocks), old(mem[..]), mem[..])
    {
      NodeOf(k);
      AllocatingKeepsApart(blocks, lo, hi, cur, need);
      hide Inv, NoFreeNeighbours, KeepsUsed, Carve;
      if BaseSpan(mem, cur) - 1 > need {
        var alloc := SplitForAlloc(cur, need);
        p := alloc + 1;
      } else {
        FreelistDetach(prev, cur, k);
        p := cur + 1;
      }
    }

    /** Fixes the bounds of the arena at the current program break, once. */
    method HeapBootstrap()
      requires Good()
      modifies this`lo, this`hi, this`booted
      ensures Good() && booted && Snap() == old(Booted())
    {
      if booted {
        return;
      }
      NothingUnbooted(Snap());
      lo := brk;
      hi := brk;
      booted := true;
    }

    lemma NothingUnbooted(s: Layout)
      requires Inv(s) && s.lo == NULL
      ensures s.blocks == map[] && s.free == []
    {
      BlocksNeedRoom(s);
    }

    lemma BlocksNeedRoom(s: Layout)
      requires Inv(s)
      ensures s.blocks == map[] || s.lo < s.hi
      ensures s.free == [] || s.blocks != map[]
    {
      forall a | a in s.blocks
        ensures s.lo < s.hi
      {
        assert s.blocks[a].span >= 1;
      }
      if s.lo >= s.hi {
        assert s.blocks == map[];
      }
      if s.free != [] { assert s.free[0] in s.free; }
    }

    /** The layout once the bounds of the arena are fixed. */
    ghost function Booted(): Layout
      reads this, mem
    {
      if booted then Snap() else Snap().(lo := brk, hi := brk)
    }

    /** The debug-build validity check succeeds on every heap that meets the invariant. */
    method CheckHeapValidity() returns (ok: bool)
      requires Good() && booted
      ensures ok
    {
      assert lo <= hi;
      hide Inv, NoFreeNeighbours;
      HeadFacts();
      if lo == NULL || hi == NULL {
        return false;
      }
      if lo == hi {
        if free != [] { NodeOf(0); }
        return head == NULL;
      }
      ok := CheckPhysicalBlocks();
      if ok {
        ok := CheckFreeList();
      }
    }

    method CheckPhysicalBlocks() returns (ok: bool)
      requires Good() && booted && lo < hi
      ensures ok
    {
      FirstBlockIsLow(Snap());
      hide Inv, NoFreeNeighbours;
      var w := lo;
      while w != NULL && w < hi
        invariant w == NULL || (w in blocks && w < hi)
        decreases if w == NULL then 0 else hi - w + 1
      {
        Around(w);
        if !BaseIsValid(mem, w, lo, hi) {
          return false;
        }
        w := BaseAdjacent(mem, w, lo, hi);
        if w != NULL { Around(w); }
      }
      ok := true;
    }

    lemma FirstBlockIsLow(s: Layout)
      requires Inv(s) && s.lo < s.hi
      ensures s.lo in s.blocks
    {
    }

    method CheckFreeList() returns (ok: bool)
      requires Good() && booted
      ensures ok
    {
      hide Inv, NoFreeNeighbours;
      HeadFacts();
      ghost var k := 0;
      var w := head;
      while w != NULL
        invariant 0 <= k <= |free| && w == if k < |free| then free[k] else NULL
        invariant k < |free| ==> w != NULL
        decreases |free| - k
      {
        NodeOf(k);
        Around(w);
        NotCoalescible(k);
        if BaseStatus(mem, w) != FREE {
          return false;
        }
        if !BaseIsValid(mem, w, lo, hi) {
          return false;
        }
        var n := BaseAdjacent(mem, w, lo, hi);
        if n != NULL && n == BaseNext(mem, w) {
          return false;
        }
        w := BaseNext(mem, w);
        k := k + 1;
        if k < |free| { NodeOf(k); }
      }
      ok := true;
    }

    lemma NotCoalescible(k: int)
      requires Good() && booted && 0 <= k < |free| && free[k] in blocks
      ensures k + 1 < |free| ==> free[k] + blocks[free[k]].span != free[k + 1]
    {
      NodeFacts(Snap(), k);
      if k + 1 < |free| { NodeFacts(Snap(), k + 1); }
    }

    /** Serves a request from the grown block `cur`, the last node. When that merged into the old last
        node `prev`, the node before it is `prevprev`. */
    method ServeGrown(prev: int, prevprev: int, cur: int, need: int) returns (p: int)
      requires Valid(Snap()) && free != [] && cur == free[|free| - 1]
      requires PrevIn(free, |free| - 1) == if cur == prev then prevprev else prev
      requires cur in blocks && blocks[cur].free && 0 <= need < blocks[cur].span
      modifies this`blocks, this`free, this`head, mem
      ensures Valid(Snap())
      ensures p == old(AllocatedAt(blocks, cur, need)) + 1 && blocks == old(Allocated(blocks, cur, need))
      ensures KeepsUsed(old(blocks), old(mem[..]), mem[..])
    {
      hide Inv, NoFreeNeighbours, KeepsUsed, Allocated;
      var before := prev;
      if cur == prev {
        before := prevprev;
      }
      p := ServeFrom(before, cur, need, |free| - 1);
    }

    /** Serves a request that no free block has room for. */
    method GrowAndServe(prev: int, prevprev: int, need: int) returns (p: int)
      requires Good() && booted && 0 < need && NoRoom(blocks, need)
      requires prev == Last() && prevprev == if 1 < |free| then free[|free| - 2] else NULL
      modifies this`blocks, this`free, this`head, this`hi, this`brk, this`refusals, mem
      ensures Good() && booted
      ensures MallocOutcome(old(Snap()), need, p, Snap())
      ensures refusals == if p == NULL then old(refusals) + 1 else old(refusals)
      ensures KeepsUsed(old(blocks), old(mem[..]), mem[..])
    {
      ghost var s := Snap();
      hide Inv, NoFreeNeighbours, NoRoom, KeepsUsed, GrownBlocks, GrownAt, Allocated, MallocOutcome, AllocatedAt;
      var cur := SysGrowAndLink(prev, need);
      if cur == NULL {
        RefusedOutcome(s, need);
        return NULL;
      }
      ghost var m1 := mem[..];
      GrownFits(s, need);
      assert PrevIn(free, |free| - 1) == if cur == prev then prevprev else prev;
      AllocatedIsNotNull(blocks, cur, need);
      p := ServeGrown(prev, prevprev, cur, need);
      GrownOutcome(s, need, p, m1, Snap());
    }

    lemma RefusedOutcome(s: Layout, need: int)
      requires NoRoom(s.blocks, need)
      ensures MallocOutcome(s, need, NULL, s) && KeepsUsed(s.blocks, s.m, s.m)
    {
    }

    lemma GrownOutcome(s: Layout, need: int, p: int, m1: seq<Unit>, t: Layout)
      requires Inv(s) && NoRoom(s.blocks, need) && p != NULL && GrownAt(s, need) in GrownBlocks(s, need)
      requires p == AllocatedAt(GrownBlocks(s, need), GrownAt(s, need), need) + 1
      requires t.blocks == Allocated(GrownBlocks(s, need), GrownAt(s, need), need)
      requires t.lo == s.lo && t.hi == s.hi + GrowSpan(need)
      requires KeepsUsed(s.blocks, s.m, m1) && KeepsUsed(GrownBlocks(s, need), m1, t.m)
      ensures MallocOutcome(s, need, p, t) && KeepsUsed(s.blocks, s.m, t.m)
    {
      GrowingKeepsClients(s, need);
      KeepsUsedWeakens(s.blocks, GrownBlocks(s, need), m1, t.m);
      KeepsUsedTransitive(s.blocks, s.m, m1, t.m);
    }

    lemma AllocatedIsNotNull(b: Blocks, c: int, need: int)
      requires c in b && 0 < c && need < b[c].span
      ensures AllocatedAt(b, c, need) + 1 != NULL
    {
    }

    /** Serves a request of at least one unit, the bounds of the arena being fixed. */
    method Request(need: int) returns (p: int)
      requires Good() && booted && 0 < need
      modifies this`blocks, this`free, this`head, this`hi, this`brk, this`refusals, mem
      ensures Good() && booted
      ensures MallocOutcome(old(Snap()), need, p, Snap())
      ensures refusals == if p == NULL then old(refusals) + 1 else old(refusals)
      ensures KeepsUsed(old(blocks), old(mem[..]), mem[..])
    {
      hide Inv, NoFreeNeighbours, NoRoom, IsFirstFit, KeepsUsed, GrownBlocks, GrownAt;
      ghost var s := Snap();
      var cur, prev, prevprev, k := Search(need);
      if cur != NULL {
        FirstFitFacts(s.blocks, cur, need);
        NodeOf(k);
        p := ServeFrom(prev, cur, need, k);
      } else {
        p := GrowAndServe(prev, prevprev, need);
      }
    }

    lemma FirstFitFacts(b: Blocks, c: int, need: int)
      requires IsFirstFit(b, c, need)
      ensures c in b && b[c].free && need < b[c].span
    {
    }

    /** Allocates `size` bytes. The outcome is exact: null for size 0; else the first fit in address
        order; else the grown block; and null again only when the kernel refuses to grow. */
    method Malloc(size: nat) returns (p: int)
      requires Good()
      modifies this, mem
      ensures Good()
      ensures size == 0 ==> p == NULL && Snap() == old(Snap()) && refusals == old(refusals)
      ensures 0 < size ==> MallocOutcome(old(Booted()), BytesToPayloadUnits(size), p, Snap())
      ensures 0 < size ==> ChoosesLowest(old(Booted()), BytesToPayloadUnits(size), p, Snap())
      ensures 0 < size ==> refusals == if p == NULL then old(refusals) + 1 else old(refusals)
      ensures ExactMallocStep(old(Live()), BytesToPayloadUnits(size), p, Live())
      ensures KeepsUsed(old(blocks), old(mem[..]), mem[..])
    {
      hide Inv, NoFreeNeighbours, MallocOutcome, ChoosesLowest;
      if size == 0 {
        return NULL;
      }
      HeapBootstrap();
      var valid := CheckHeapValidity();
      assert valid;
      ghost var s := Snap();
      p := Request(BytesToPayloadUnits(size));
      MallocRefines(s, BytesToPayloadUnits(size), p, Snap());
      OutcomeChooses(s, BytesToPayloadUnits(size), p, Snap());
      valid := CheckHeapValidity();
      assert valid;
    }

    lemma PlaceIsLastBelow(s: Layout, c: int)
      requires Inv(s) && c in s.blocks && !s.blocks[c].free
      ensures forall k {:trigger Between(s.free, c, k)} :: Between(s.free, c, k) ==>
                IsLastBelow(s.blocks, if 0 < k then s.free[k - 1] else NULL, c)
    {
      forall k | Between(s.free, c, k)
        ensures IsLastBelow(s.blocks, if 0 < k then s.free[k - 1] else NULL, c)
      {
        PlaceIsBelow(s, c, k);
      }
    }

    /** Where `c` belongs in the list: the last node below it, or null. */
    method InsertionPoint(c: int) returns (prev: int, ghost k: int)
      requires Good() && booted && c in blocks && !blocks[c].free
      ensures Between(free, c, k) && prev == if 0 < k then free[k - 1] else NULL
      ensures 0 < k ==> prev != NULL
      ensures IsLastBelow(blocks, prev, c)
    {
      PlaceIsLastBelow(Snap(), c);
      hide Inv, NoFreeNeighbours, IsLastBelow;
      HeadFacts();
      prev, k := NULL, 0;
      var it := head;
      while it != NULL
        invariant 0 <= k <= |free| && it == if k < |free| then free[k] else NULL
        invariant k < |free| ==> it != NULL
        invariant prev == if 0 < k then free[k - 1] else NULL
        invariant 0 < k ==> free[k - 1] < c && prev != NULL
        decreases |free| - k
      {
        NodeOf(k);
        if c < it {
          break;
        }
        prev := it;
        it := BaseNext(mem, it);
        k := k + 1;
        if k < |free| { NodeOf(k); }
      }
    }

    /** Frees the used block `c`: find its place, link it there and coalesce. */
    method FreeBlock(c: int)
      requires Good() && booted && c in blocks && !blocks[c].free
      modifies this`blocks, this`free, this`head, mem
      ensures Good() && booted && blocks == Coalesced(SetFree(old(blocks), c), c)
      ensures R.LiveWith(blocks, 1) == R.LiveWith(old(blocks), 1) - {c}
      ensures KeepsUsed(blocks, old(mem[..]), mem[..])
    {
      hide Inv, NoFreeNeighbours, Coalesced, KeepsUsed;
      TiledBlocks(Snap());
      R.FreeingRemovesRegion(blocks, lo, hi, c, 1);
      var prev, k := InsertionPoint(c);
      if prev == NULL {
        FreelistPushFront(c);
      } else {
        var merged := FreelistInsertAfter(prev, c, k);
      }
    }

    /** Frees the region at `p`, or does nothing for null, which is allowed even before the first allocation. */
    method Free(p: int)
      requires Good()
      requires p == NULL || HeaderFromPayload(p) in Live()
      modifies this`blocks, this`free, this`head, mem
      ensures Good()
      ensures p == NULL ==> Snap() == old(Snap())
      ensures p != NULL ==>
        HeaderFromPayload(p) in old(blocks) && blocks == Coalesced(SetFree(old(blocks), p - 1), p - 1)
      ensures R.FreeStep(old(Live()), p, Live())
      ensures KeepsUsed(blocks, old(mem[..]), mem[..])
    {
      if p == NULL {
        return;
      }
      hide Inv, NoFreeNeighbours, Coalesced, KeepsUsed;
      if !booted { NothingUnbooted(Snap()); }
      var valid := CheckHeapValidity();
      assert valid;
      var c := HeaderFromPayload(p);
      Around(c);
      assert BaseStatus(mem, c) != FREE;
      FreeBlock(c);
      valid := CheckHeapValidity();
      assert valid;
    }

    lemma TiledBlocks(s: Layout)
      requires Inv(s)
      ensures Tiled(s.blocks, s.lo, s.hi)
    {
    }

    /** A client store to payload unit `u` of the live region of block `c`. */
    method ClientWrite(ghost c: int, u: int, v: Unit)
      requires Good() && c in Live() && c < u <= c + Live()[c]
      modifies mem
      ensures Good() && mem[..] == old(mem[..])[u := v]
    {
      Around(c);
      PayloadWriteKeepsInv(Snap(), c, u, v);
      mem[u] := v;
      assert Snap() == old(Snap()).(m := old(mem[..])[u := v]);
    }

    /** A heap nobody has used yet, over `cells` units of address space with the break at `start`. */
    constructor (cells: nat, start: nat)
      requires 0 < start <= cells
      ensures Good() && !booted && Live() == map[] && fresh(mem)
    {
      mem := new Unit[cells](_ => Unit(0, 0, 0));
      head, lo, hi, brk, booted := NULL, NULL, NULL, start, false;
      blocks := map[];
      free := [];
      refusals := 0;
    }
  }
}
