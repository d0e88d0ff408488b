/** The segregated-bin heap manager. */
module HeapManager {
  import opened Tiling
  import opened Chunk
  import opened BinLists
  import opened HeapLayout
  import opened UsedUnits
  import opened BinSearch
  import opened Regions
  import opened HeapPolicy

  class Heap {
    const mem: Memory
    const bins: array<int>
    var lo: int
    var hi: int
    var brk: int
    var booted: bool
    ghost var blocks: Blocks
    ghost var lists: seq<seq<int>>
    ghost var refusals: nat

    ghost function Snap(): Layout
      reads this, mem, bins
    {
      Layout(mem[..], bins[..], lo, hi, blocks, lists)
    }

    /** The invariant between client calls. The arena always ends at the program break. */
    ghost predicate Good()
      reads this, mem, bins
    {
      && Valid(Snap())
      && 0 < brk <= mem.Length
      && (if booted then lo != NULL && hi == brk else lo == NULL)
    }

    /** The node at position `k` of bin `i`, as the accessors read it. */
    lemma NodeOf(i: int, k: int)
      requires Inv(Snap(), {}) && 0 <= i < NUM_BINS == |lists| && 0 <= k < |lists[i]|
      ensures var c := lists[i][k];
        && c in blocks && blocks[c].free && c != NULL
        && HasFooter(mem, c) && mem[c].word1 == blocks[c].span
        && FreeLink(mem, mem[c].link) && mem[c].link == NextIn(lists[i], k)
        && FreeLink(mem, mem[GetFooterFromHeader(mem, c)].link)
        && mem[GetFooterFromHeader(mem, c)].link == PrevIn(lists[i], k)
    {
      hide Inv;
      BinHead(Snap(), i);
      DetachLinksAreFree(Snap(), {}, i, k);
      ghost var p := BoundaryTags(Snap(), {}, lists[i][k]);
      if k > 0 {
        DetachLinksAreFree(Snap(), {}, i, k - 1);
        ghost var q := BoundaryTags(Snap(), {}, lists[i][k - 1]);
      }
      if k + 1 < |lists[i]| {
        DetachLinksAreFree(Snap(), {}, i, k + 1);
        ghost var q := BoundaryTags(Snap(), {}, lists[i][k + 1]);
      }
    }

    /** Takes the free block `c` out of its bin. */
    method BinDetach(c: int, ghost loose: set<int>)
      requires Inv(Snap(), loose) && c in blocks && blocks[c].free && c !in loose
      modifies this`lists, mem, bins
      ensures Inv(Snap(), loose + {c})
      ensures lists == TakeOut(old(lists), blocks, c)
      ensures KeepsWords(old(mem[..]), mem[..]) && KeepsUsed(blocks, old(mem[..]), mem[..])
    {
      hide Inv;
      ghost var s := Snap();
      ghost var i := GetBinIndex(blocks[c].span);
      ghost var k := BinnedFree(s, loose, c);
      DetachLinksAreFree(s, loose, i, k);
      DetachStoresDetach(s, loose, i, k);

      assert GetStatus(mem, c) == FREE;
      var prev := GetPrevFree(mem, c);
      var next := GetNextFree(mem, c);
      var binIndex := GetBinIndex(GetSpanUnits(mem, c));

      if prev == NULL {
        assert bins[binIndex] == c;
        bins[binIndex] := next;
        if next != NULL {
          SetPrevFree(mem, next, NULL);
        }
      } else {
        SetNextFree(mem, prev, next);
        if next != NULL {
          SetPrevFree(mem, next, prev);
        }
      }
      SetNextFree(mem, c, NULL);
      SetPrevFree(mem, c, NULL);

      assert mem[..] == DetachStores(s.m, c, prev, next);
      WithoutSlices(lists[i], c, k);
      lists := TakeOut(lists, blocks, c);
      DetachKeepsMemory(s, Snap(), loose, i, k);
      DetachKeepsInv(s, Snap(), loose, i, k);
    }

    /** What the accessors read around two adjacent free blocks that are in no bin. */
    lemma Neighbours(a: int, b: int, loose: set<int>)
      requires Inv(Snap(), loose) && a in loose && b in loose
      requires a in blocks && a + blocks[a].span == b
      ensures 0 < lo <= a < b < hi <= mem.Length && a in blocks && b in blocks
      ensures GetStatus(mem, a) == FREE && GetStatus(mem, b) == FREE
      ensures mem[a].word1 == blocks[a].span >= 2 && mem[b].word1 == blocks[b].span >= 2
      ensures b + blocks[b].span <= hi
      ensures mem[b - 1].word0 == blocks[a].span
      ensures IsValid(mem, a, lo, hi)
    {
      ghost var pa := BoundaryTags(Snap(), loose, a);
      ghost var pb := BoundaryTags(Snap(), loose, b);
    }

    /** The stores of merging the block at `b` into the one at `a` just below it, in place. */
    method FuseUnits(a: int, b: int)
      requires 0 < a < b < mem.Length && 2 <= mem[a].word1 && 2 <= mem[b].word1 && a + mem[a].word1 + mem[b].word1 <= mem.Length
      modifies mem
      ensures mem[..] == FuseStores(old(mem[..]), a, old(mem[a].word1 + mem[b].word1))
    {
      SetSpanUnits(mem, a, GetSpanUnits(mem, a) + GetSpanUnits(mem, b));
      SetPrevFree(mem, a, NULL);
      SetNextFree(mem, a, NULL);
    }

    /** Merges two adjacent free blocks that are in no bin; the lower address survives. */
    method CoalesceTwo(x: int, y: int, ghost loose: set<int>) returns (a: int)
      requires Inv(Snap(), loose) && lo != NULL && x in loose && y in loose
      requires x in blocks && y in blocks
      requires x + blocks[x].span == y || y + blocks[y].span == x
      modifies this`blocks, mem
      ensures a == if y < x then y else x
      ensures var c := if y < x then x else y;
        && blocks == Fuse(old(blocks), a, c)
        && Inv(Snap(), loose - {c})
      ensures KeepsUsed(old(blocks), old(mem[..]), mem[..])
      ensures mem[x].word0 == FREE && mem[y].word0 == FREE
    {
      hide Inv, FusedInto, KeepsUsed, Fuse, FuseStores;
      ghost var s := Snap();
      LooseIsFree(s, loose, x);
      LooseIsFree(s, loose, y);
      a := x;
      var b := y;
      if b < a {
        a, b := b, a;
      }
      Neighbours(a, b, loose);
      assert GetStatus(mem, a) == FREE;
      assert GetStatus(mem, b) == FREE;
      assert GetAdjacent(mem, a, lo, hi) == b;
      assert GetPrevAdjacent(mem, b, lo, hi) == a;

      FuseUnits(a, b);

      blocks := Fuse(blocks, a, b);
      FuseStoresFuse(s, Snap(), loose, a, b);
      FuseKeepsMemory(s, Snap(), loose, a, b);
      FuseKeepsInv(s, Snap(), loose, a, b);
    }

    /** What the accessors read at a block and around it. */
    lemma Around(c: int, loose: set<int>)
      requires Inv(Snap(), loose) && c in blocks
      ensures bins.Length == NUM_BINS == |lists|
      ensures 0 < lo <= c < hi <= mem.Length && mem[c].word1 == blocks[c].span >= 2 && c + blocks[c].span <= hi
      ensures mem[c].word0 == if blocks[c].free then FREE else USED
      ensures IsValid(mem, c, lo, hi) && HasFooter(mem, c) && HasFoot(mem[..], c)
      ensures var n := GetAdjacent(mem, c, lo, hi);
        && n == (if c + blocks[c].span == hi then NULL else c + blocks[c].span)
        && (n != NULL ==> n in blocks && mem[n].word0 == if blocks[n].free then FREE else USED)
        && (c + blocks[c].span == hi ==> hi !in blocks)
    {
      ghost var p := BoundaryTags(Snap(), loose, c);
      if c + blocks[c].span in blocks {
        ghost var q := BoundaryTags(Snap(), loose, c + blocks[c].span);
      }
    }

    /** First part of freeing `c`: absorb the next block when it is free. */
    method AbsorbNextBlock(c: int)
      requires Inv(Snap(), {c}) && c in blocks
      modifies this`blocks, this`lists, mem, bins
      ensures blocks == AbsorbNext(old(blocks), c) && c in blocks && Inv(Snap(), {c})
      ensures lists == BinsAfterNext(old(blocks), old(lists), c)
      ensures mem[c].word0 == FREE
      ensures KeepsUsed(old(blocks), old(mem[..]), mem[..]) && KeepsUsed(blocks, old(mem[..]), mem[..])
    {
      hide Inv;
      ghost var b, m := blocks, mem[..];
      LooseIsFree(Snap(), {c}, c);
      Around(c, {c});
      var next := GetAdjacent(mem, c, lo, hi);
      if next != NULL && GetStatus(mem, next) == FREE {
        BinDetach(next, {c});
        ghost var m1 := mem[..];
        var merged := CoalesceTwo(c, next, {c} + {next});
        assert {c} + {next} - {next} == {c};
        KeepsUsedTransitive(b, m, m1, mem[..]);
        KeepsUsedThroughFuse(b, c, next, m, mem[..]);
      }
    }

    /** What the accessors read below a block. */
    lemma Below(c: int, loose: set<int>)
      requires Inv(Snap(), loose) && c in blocks
      ensures 0 < lo <= c < hi <= mem.Length
      ensures c == lo ==> MergeStart(blocks, c) == c
      ensures lo < c ==>
        && mem[c - 1].word0 >= 2
        && (var p := GetHeaderFromFooter(mem, c - 1);
            && Precedes(blocks, p, c) && lo <= p < c && IsValid(mem, p, lo, hi)
            && mem[p].word1 == blocks[p].span
            && mem[p].word0 == (if blocks[p].free then FREE else USED)
            && MergeStart(blocks, c) == (if blocks[p].free then p else c))
    {
      ghost var p := BoundaryTags(Snap(), loose, c);
      assert MergeStart(blocks, c) != c ==> Precedes(blocks, MergeStart(blocks, c), c);
      if lo < c {
        ghost var q := BoundaryTags(Snap(), loose, p);
        MergeStartIs(blocks, lo, hi, c);
        assert blocks[p].free ==> MergeStart(blocks, c) == p;
      }
    }

    ghost predicate CanStep(c: int)
      reads this, mem
    {
      Addressable(mem, c) && lo != NULL && hi != NULL && lo <= c && 2 <= mem[c].word1
    }

    ghost predicate CanStepBack(c: int)
      reads this, mem
    {
      && Addressable(mem, c) && lo > NULL && hi != NULL && hi <= mem.Length && c < hi
      && (c <= lo || (mem[c - 1].word0 >= 2
                      && var p := GetHeaderFromFooter(mem, c - 1); Addressable(mem, p) && IsValid(mem, p, lo, hi)))
    }

    /** Stepping forward and then back returns to the block; only the end of the arena stops it. */
    lemma ForwardInverts(c: int)
      requires Good() && booted && c in blocks
      ensures CanStep(c)
      ensures var n := GetAdjacent(mem, c, lo, hi);
        if n == NULL then c + blocks[c].span == hi
        else n in blocks && CanStepBack(n) && GetPrevAdjacent(mem, n, lo, hi) == c
    {
      hide Inv, NoFreeNeighbours, MergeStart;
      Around(c, {});
      var n := GetAdjacent(mem, c, lo, hi);
      if n != NULL {
        Below(n, {});
        ghost var q := BoundaryTags(Snap(), {}, n);
        assert Precedes(blocks, c, n);
      }
    }

    /** Stepping back and then forward returns to the block; only the start of the arena stops it. */
    lemma BackwardInverts(c: int)
      requires Good() && booted && c in blocks
      ensures CanStepBack(c)
      ensures var p := GetPrevAdjacent(mem, c, lo, hi);
        if p == NULL then c == lo
        else p in blocks && CanStep(p) && GetAdjacent(mem, p, lo, hi) == c
    {
      hide Inv, NoFreeNeighbours, MergeStart;
      Below(c, {});
      var p := GetPrevAdjacent(mem, c, lo, hi);
      if p != NULL { Around(p, {}); }
    }

    /** Second part of freeing `c`: let the previous block absorb it when that is free. */
    method AbsorbPrevBlock(c: int) returns (merged: int)
      requires Inv(Snap(), {c}) && c in blocks && mem[c].word0 == FREE
      modifies this`blocks, this`lists, mem, bins
      ensures merged == old(MergeStart(blocks, c))
      ensures blocks == AbsorbPrev(old(blocks), c) && merged in blocks && Inv(Snap(), {merged})
      ensures lists == BinsAfterPrev(old(blocks), old(lists), c)
      ensures mem[c].word0 == FREE
      ensures KeepsUsed(old(blocks), old(mem[..]), mem[..]) && KeepsUsed(blocks, old(mem[..]), mem[..])
    {
      hide Inv;
      ghost var b, m := blocks, mem[..];
      LooseIsFree(Snap(), {c}, c);
      Below(c, {c});
      merged := c;
      var prev := GetPrevAdjacent(mem, c, lo, hi);
      if prev != NULL && IsValid(mem, prev, lo, hi) && GetAdjacent(mem, prev, lo, hi) == c && GetStatus(mem, prev) == FREE {
        BinDetach(prev, {c});
        ghost var m1 := mem[..];
        merged := CoalesceTwo(prev, c, {c} + {prev});
        assert {c} + {prev} - {c} == {prev};
        KeepsUsedTransitive(b, m, m1, mem[..]);
        KeepsUsedThroughFuse(b, prev, c, m, mem[..]);
      }
    }

    /** Last part of freeing: link the merged block at the front of the bin for its span. */
    method LinkFront(c: int)
      requires Inv(Snap(), {c}) && c in blocks
      modifies this`lists, mem, bins
      ensures Inv(Snap(), {})
      ensures lists == PutFront(old(lists), blocks, c)
      ensures KeepsWords(old(mem[..]), mem[..]) && KeepsUsed(blocks, old(mem[..]), mem[..])
    {
      hide Inv;
      ghost var s := Snap();
      Around(c, {c});
      PushTargetsAreFree(s, {c}, c);
      var binIndex := GetBinIndex(GetSpanUnits(mem, c));
      SetPrevFree(mem, c, NULL);
      SetNextFree(mem, c, bins[binIndex]);
      if bins[binIndex] != NULL {
        SetPrevFree(mem, bins[binIndex], c);
      }
      bins[binIndex] := c;

      lists := PutFront(lists, blocks, c);
      PushStoresPush(s, Snap(), {c}, c);
      PushKeepsMemory(s, Snap(), {c}, c);
      PushKeepsInv(s, Snap(), {c}, c);
      assert {c} - {c} == {};
      NodeOf(binIndex, 0);
      assert GetPrevFree(mem, bins[binIndex]) == NULL;
    }

    /** First stores of putting block `c` into the bins: it is free, in no bin, with null links. */
    method MarkFree(c: int, ghost loose: set<int>)
      requires Inv(Snap(), loose) && c in blocks && loose <= {c} && (blocks[c].free ==> c in loose)
      modifies this`blocks, mem
      ensures Inv(Snap(), {c}) && blocks == SetFree(old(blocks), c)
      ensures KeepsUsed(blocks, old(mem[..]), mem[..])
    {
      hide Inv;
      ghost var s := Snap();
      Around(c, loose);
      assert IsValid(mem, c, lo, hi);
      SetStatus(mem, c, FREE);
      SetPrevFree(mem, c, NULL);
      SetNextFree(mem, c, NULL);

      blocks := SetFree(blocks, c);
      MarkFreeStoresMark(s, Snap(), loose, c);
      MarkKeepsMemory(s, Snap(), loose, c, true);
      MarkKeepsInv(s, Snap(), loose, c, true);
      assert loose + {c} == {c};
    }

    /** Puts block `x` into the bins as a free block, merging it with its free neighbours. On entry
        `x` is used, or free and in no bin. */
    method BinPushFront(x: int, ghost loose: set<int>)
      requires Inv(Snap(), loose) && x in blocks && loose <= {x} && (blocks[x].free ==> x in loose)
      requires NoFreeNeighboursBut(blocks, x)
      modifies this`blocks, this`lists, mem, bins
      ensures Valid(Snap())
      ensures blocks == Coalesced(SetFree(old(blocks), x), x)
      ensures lists == Rebinned(SetFree(old(blocks), x), old(lists), x)
      ensures mem[x].word0 == FREE
      ensures PutInFront(old(lists), blocks, lists, x)
      ensures KeepsUsed(blocks, old(mem[..]), mem[..])
    {
      hide Inv, KeepsUsed, NoFreeNeighbours, NoFreeNeighboursBut, PutInFront;
      var c := x;
      ghost var m := mem[..];
      SetFreeKeepsApartBut(blocks, c);
      MarkFree(c, loose);
      ghost var b, m1 := blocks, mem[..];
      InvIsTiled(Snap(), {c});
      RebinningPutsInFront(b, lo, hi, lists, x);
      Around(c, {c});

      AbsorbNextBlock(c);
      ghost var b2, m2 := blocks, mem[..];
      c := AbsorbPrevBlock(c);
      ghost var m3 := mem[..];
      LinkFront(c);

      FreeingComposes(b, x, lo, hi, m, m1, m2, m3, mem[..]);
    }

    lemma SplitParts(c: int, alloc: int)
      requires Inv(Snap(), {c}) && c in blocks && alloc in blocks && c + blocks[c].span == alloc
      ensures 0 < lo <= c < hi && lo <= alloc < hi <= mem.Length && 2 <= mem[c].word1
      ensures GetAdjacent(mem, c, lo, hi) == alloc && IsValid(mem, c, lo, hi) && IsValid(mem, alloc, lo, hi)
    {
      Around(c, {c});
      Around(alloc, {c});
    }

    /** The stores of splitting block `c` into `rest` and `tail` units, in place. */
    method SplitUnits(c: int, rest: int, tail: int) returns (alloc: int)
      requires 0 < lo <= c < hi <= mem.Length && c + rest + tail <= hi && 2 <= rest && 2 <= tail
      requires mem[c].word0 == FREE
      modifies mem
      ensures alloc == c + rest
      ensures mem[..] == CarveStores(old(mem[..]), c, rest, tail)
    {
      SetSpanUnits(mem, c, rest);
      assert IsValid(mem, c, lo, hi);
      alloc := GetAdjacent(mem, c, lo, hi);
      assert alloc != NULL && lo <= alloc < hi;

      SetSpanUnits(mem, alloc, tail);
      SetStatus(mem, alloc, USED);
      SetNextFree(mem, alloc, NULL);
      SetPrevFree(mem, alloc, NULL);
      SetPrevFree(mem, c, NULL);
    }

    /** Splits the free block `c`, which is in no bin; the trailing part serves the request. */
    method SplitForAlloc(c: int, need: int) returns (alloc: int)
      requires Inv(Snap(), {c}) && c in blocks && 0 <= need && need + 4 <= blocks[c].span
      modifies this`blocks, mem
      ensures alloc == c + old(blocks[c].span) - (need + 2)
      ensures blocks == Carve(old(blocks), c, need + 2) && Inv(Snap(), {c})
      ensures KeepsUsed(old(blocks), old(mem[..]), mem[..])
    {
      hide Inv;
      ghost var s := Snap();
      LooseIsFree(s, {c}, c);
      Around(c, {c});
      LooseLinks(s, {c}, c);
      assert GetPrevFree(mem, c) == NULL;
      var oldSpan := GetSpanUnits(mem, c);
      var allocSpan := 2 + need;
      var remainSpan := oldSpan - allocSpan;
      assert oldSpan >= 2 && allocSpan >= 2 && remainSpan >= 2;
      assert GetStatus(mem, c) == FREE;

      alloc := SplitUnits(c, remainSpan, allocSpan);

      blocks := Carve(blocks, c, allocSpan);
      CarveStoresCarve(s, Snap(), {c}, c, allocSpan);
      CarveKeepsMemory(s, Snap(), {c}, c, allocSpan);
      CarveKeepsInv(s, Snap(), {c}, c, allocSpan);
      CarveParts(s.blocks, c, allocSpan);
      SplitParts(c, alloc);
      assert GetAdjacent(mem, c, lo, hi) == alloc;
      assert IsValid(mem, c, lo, hi);
      assert IsValid(mem, alloc, lo, hi);
    }

    /** The kernel's side: move the program break up by `units`, or refuse. */
    method Sbrk(units: int) returns (c: int)
      requires 0 < units && 0 < brk <= mem.Length
      modifies this`brk, this`refusals
      ensures c == SBRK_FAILED ==> brk == old(brk) && refusals == old(refusals) + 1
      ensures c != SBRK_FAILED ==> c == old(brk) && brk == c + units <= mem.Length && refusals == old(refusals)
    {
      var refused := *;
      if refused || brk + units > mem.Length {
        refusals := refusals + 1;
        return SBRK_FAILED;
      }
      c := brk;
      brk := brk + units;
    }

    /** Fixes the bounds of the arena at the current program break, once. */
    method HeapBootstrap()
      requires Good()
      modifies this`lo, this`hi, this`booted
      ensures Good() && booted
      ensures Snap() == old(Booted())
    {
      if booted {
        return;
      }
      Unbooted(Snap());
      lo := brk;
      hi := brk;
      booted := true;
      BootedEmpty(Snap());
    }

    /** First block with room for `need` payload units in bins `start` and up. */
    method FindFit(start: int, need: int) returns (cur: int)
      requires Valid(Snap()) && 0 <= start < NUM_BINS
      ensures cur == FirstFit(lists, blocks, start, need)
      ensures FindsFirst(lists, blocks, start, need, cur)
    {
      SearchFindsFirst(Snap(), start, need);
      hide FindsFirst, NoFreeNeighbours;
      var i := start;
      while i < NUM_BINS
        invariant start <= i <= NUM_BINS
        invariant FirstFit(lists, blocks, i, need) == FirstFit(lists, blocks, start, need)
      {
        ghost var k := 0;
        BinHead(Snap(), i);
        cur := bins[i];
        while cur != NULL
          invariant 0 <= k <= |lists[i]|
          invariant cur == if k < |lists[i]| then lists[i][k] else NULL
          invariant k < |lists[i]| ==> cur != NULL
          invariant FirstIn(lists[i][k..], blocks, need) == FirstIn(lists[i], blocks, need)
          decreases |lists[i]| - k
        {
          NodeOf(i, k);
          assert lists[i][k..][1..] == lists[i][k + 1..];
          var curPayload := GetSpanUnits(mem, cur) - 2;
          if curPayload >= need {
            return;
          }
          cur := GetNextFree(mem, cur);
          k := k + 1;
          if k < |lists[i]| { NodeOf(i, k); }
        }
        i := i + 1;
      }
      cur := NULL;
    }

    /** Serves a request from the detached block `cur`, returning its leading part to the bins. */
    method ServeSplit(cur: int, need: int) returns (p: int)
      requires Inv(Snap(), {cur}) && cur in blocks && NoFreeNeighbours(blocks)
      requires 0 <= need && need + 4 <= blocks[cur].span
      modifies this`blocks, this`lists, mem, bins
      ensures Valid(Snap())
      ensures p == cur + old(blocks[cur].span) - (need + 2) + 1
      ensures blocks == Carve(old(blocks), cur, need + 2)
      ensures lists == PutFront(old(lists), blocks, cur)
      ensures KeepsUsed(old(blocks), old(mem[..]), mem[..])
    {
      hide Inv;
      ghost var s := Snap();
      InvIsTiled(s, {cur});
      LooseIsFree(s, {cur}, cur);
      Around(cur, {cur});
      var alloc := SplitForAlloc(cur, need);
      ghost var m1 := mem[..];
      SplitRebins(s.blocks, lists, lo, hi, cur, need, s.m, m1, m1);
      BinPushFront(cur, {cur});
      SplitRebins(s.blocks, s.lists, lo, hi, cur, need, s.m, m1, mem[..]);
      p := alloc + 1;
    }

    /** Serves a request with the whole of the detached block `cur`. */
    method ServeWhole(cur: int) returns (p: int)
      requires Inv(Snap(), {cur}) && cur in blocks && NoFreeNeighbours(blocks)
      modifies this`blocks, mem
      ensures Valid(Snap()) && p == cur + 1
      ensures blocks == old(blocks)[cur := old(blocks[cur]).(free := false)]
      ensures KeepsUsed(old(blocks), old(mem[..]), mem[..])
    {
      hide Inv;
      ghost var s := Snap();
      Around(cur, {cur});
      SetStatus(mem, cur, USED);
      blocks := blocks[cur := blocks[cur].(free := false)];
      UseWhole(s, Snap(), cur);
      p := cur + 1;
    }

    /** Serves a request from the free block `cur`, splitting it when enough would remain. */
    method AllocateFrom(cur: int, need: int) returns (p: int)
      requires Valid(Snap()) && cur in blocks && blocks[cur].free && Fits(blocks, cur, need) && 0 <= need
      modifies this`blocks, this`lists, mem, bins
      ensures Valid(Snap())
      ensures p == old(AllocatedAt(blocks, cur, need)) + 1
      ensures blocks == old(Allocated(blocks, cur, need))
      ensures lists == old(AllocatedBins(blocks, lists, cur, need))
      ensures KeepsUsed(old(blocks), old(mem[..]), mem[..])
    {
      hide Inv;
      ghost var m := mem[..];
      BinDetach(cur, {});
      assert {} + {cur} == {cur};
      Around(cur, {cur});
      ghost var m1 := mem[..];
      if GetSpanUnits(mem, cur) >= 2 + need + 2 {
        p := ServeSplit(cur, need);
      } else {
        p := ServeWhole(cur);
      }
      KeepsUsedTransitive(old(blocks), m, m1, mem[..]);
    }

    /** Moves the end of the arena up by `span` units and makes them one free block, in no bin yet. */
    method ExtendArena(span: int) returns (c: int)
      requires Good() && booted && 2 <= span
      modifies this`blocks, this`hi, this`brk, this`refusals, mem
      ensures 0 < brk <= mem.Length && booted && lo != NULL && hi == brk
      ensures c == SBRK_FAILED ==> Good() && refusals == old(refusals) + 1 && Snap() == old(Snap())
      ensures c != SBRK_FAILED ==>
        && c == old(hi) && refusals == old(refusals) && GrownBy(old(Snap()), Snap(), span) && Inv(Snap(), {c})
    {
      hide Inv;
      ghost var s := Snap();
      c := Sbrk(span);
      if c == SBRK_FAILED {
        return;
      }
      hi := brk;

      SetSpanUnits(mem, c, span);
      SetNextFree(mem, c, NULL);
      SetPrevFree(mem, c, NULL);
      SetStatus(mem, c, FREE);

      blocks := Extended(blocks, c, span);
      GrowStoresGrow(s, Snap(), span);
      GrowKeepsInv(s, Snap(), span);
    }

    /** Asks for more memory and puts it into the bins. */
    method SysGrowAndLink(need: int) returns (c: int)
      requires Good() && booted && 0 <= need
      modifies this`blocks, this`lists, this`hi, this`brk, this`refusals, mem, bins
      ensures Good()
      ensures c == NULL ==> refusals == old(refusals) + 1 && Snap() == old(Snap())
      ensures c != NULL ==> refusals == old(refusals) && hi == old(hi) + GrowSpan(need)
      ensures c != NULL ==> hi == old(hi) + 2 + if need < 1024 then 1024 else need
      ensures c != NULL ==> blocks == Coalesced(Extended(old(blocks), old(hi), GrowSpan(need)), old(hi))
      ensures c != NULL ==> lists == Rebinned(Extended(old(blocks), old(hi), GrowSpan(need)), old(lists), old(hi))
      ensures c != NULL ==> KeepsUsed(old(blocks), old(mem[..]), mem[..])
    {
      hide Inv, Coalesced, Rebinned, KeepsUsed, PutInFront;
      ghost var s := Snap();
      var growData := if need < SYS_MIN_ALLOC_UNITS then SYS_MIN_ALLOC_UNITS else need;
      var growSpan := 2 + growData;
      c := ExtendArena(growSpan);
      if c == SBRK_FAILED {
        return NULL;
      }
      ghost var m1 := mem[..];
      GrowKeepsUsedBlocks(s, Snap(), growSpan);
      BinPushFront(c, {c});
      GrownKeepsUsed(s, blocks, growSpan, m1, mem[..]);
    }

    /** How often block `c` occurs in the bins. */
    method CountBinExist(c: int) returns (count: int)
      requires Good()
      ensures count == Occurrences(lists, c, NUM_BINS)
    {
      count := 0;
      var i := 0;
      while i < NUM_BINS
        invariant 0 <= i <= NUM_BINS
        invariant count == Occurrences(lists, c, i)
      {
        ghost var k := 0;
        BinHead(Snap(), i);
        var w := bins[i];
        while w != NULL
          invariant 0 <= k <= |lists[i]|
          invariant w == if k < |lists[i]| then lists[i][k] else NULL
          invariant k < |lists[i]| ==> w != NULL
          invariant count == Occurrences(lists, c, i) + CountIn(lists[i][..k], c)
          decreases |lists[i]| - k
        {
          NodeOf(i, k);
          assert lists[i][..k + 1][..k] == lists[i][..k];
          if w == c {
            count := count + 1;
          }
          w := GetNextFree(mem, w);
          k := k + 1;
          if k < |lists[i]| { NodeOf(i, k); }
        }
        assert lists[i][..k] == lists[i];
        i := i + 1;
      }
    }

    /** First half of the validity check: walk the physical blocks in address order. */
    method CheckPhysicalBlocks() returns (ok: bool)
      requires Good() && booted && lo < hi
      ensures ok
    {
      hide Inv;
      var expectedEnd := lo;
      var w := lo;
      FirstBlock(Snap());
      while w != NULL && w < hi
        invariant w == NULL || (w in blocks && w < hi)
        invariant expectedEnd == if w == NULL then hi else w
        decreases if w == NULL then 0 else hi - w + 1
      {
        Around(w, {});
        if !IsValid(mem, w, lo, hi) {
          return false;
        }
        if GetStatus(mem, w) == FREE {
          var count := CountBinExist(w);
          OccursOnce(Snap(), w, NUM_BINS);
          if count < 1 {
            return false;
          } else if count > 1 {
            return false;
          }
        }
        expectedEnd := w + GetSpanUnits(mem, w);
        w := GetAdjacent(mem, w, lo, hi);
        if w != NULL { Around(w, {}); }
      }
      ok := expectedEnd == hi;
    }

    /** Second half: walk every bin. */
    method CheckBins() returns (ok: bool)
      requires Good() && booted
      ensures ok
    {
      hide Inv;
      var i := 0;
      while i < NUM_BINS
        invariant 0 <= i <= NUM_BINS
      {
        ghost var k := 0;
        BinHead(Snap(), i);
        var head := bins[i];
        if head != NULL {
          NodeOf(i, 0);
          if GetPrevFree(mem, head) != NULL {
            return false;
          }
        }
        var w := head;
        while w != NULL
          invariant 0 <= k <= |lists[i]|
          invariant w == if k < |lists[i]| then lists[i][k] else NULL
          invariant k < |lists[i]| ==> w != NULL
          decreases |lists[i]| - k
        {
          var good := CheckNode(i, k, head, w);
          if !good {
            return false;
          }
          NodeOf(i, k);
          w := GetNextFree(mem, w);
          k := k + 1;
          if k < |lists[i]| { NodeOf(i, k); }
        }
        i := i + 1;
      }
      ok := true;
    }

    /** The checks made of one node of bin `i`. */
    method CheckNode(i: int, ghost k: int, head: int, w: int) returns (ok: bool)
      requires Good() && booted && 0 <= i < NUM_BINS && 0 <= k < |lists[i]|
      requires w == lists[i][k] && head == lists[i][0]
      ensures ok
    {
      hide Inv;
      BinHead(Snap(), i);
      NodeOf(i, k);
      DetachLinksAreFree(Snap(), {}, i, k);
      Around(w, {});
      if k > 0 { NodeOf(i, k - 1); }
      if k + 1 < |lists[i]| { NodeOf(i, k + 1); }
      if GetStatus(mem, w) != FREE {
        return false;
      }
      if !IsValid(mem, w, lo, hi) {
        return false;
      }
      if GetBinIndex(GetSpanUnits(mem, w)) != i {
        return false;
      }
      var n := GetAdjacent(mem, w, lo, hi);
      if n != NULL && GetStatus(mem, n) == FREE {
        return false;
      }
      n := GetNextFree(mem, w);
      if n != NULL && GetPrevFree(mem, n) != w {
        return false;
      }
      n := GetPrevFree(mem, w);
      if n == NULL {
        if w != head {
          return false;
        }
      } else if GetNextFree(mem, n) != w {
        return false;
      }
      ok := true;
    }

    /** The debug-build validity check succeeds on every heap that meets the invariant. */
    method CheckHeapValidity() returns (ok: bool)
      requires Good() && booted
      ensures ok
    {
      if lo == NULL || hi == NULL {
        return false;
      }
      if lo == hi {
        BlocksNeedRoom(Snap());
        var i := 0;
        while i < NUM_BINS
          invariant 0 <= i <= NUM_BINS
        {
          BinHead(Snap(), i);
          if bins[i] != NULL {
            return false;
          }
          i := i + 1;
        }
        return true;
      }
      ok := CheckPhysicalBlocks();
      if ok {
        ok := CheckBins();
      }
    }

    /** The layout once the bounds of the arena are fixed. */
    ghost function Booted(): Layout
      reads this, mem, bins
    {
      if booted then Snap() else Snap().(lo := brk, hi := brk)
    }

    /** Serves a request that no free block has room for, by growing and searching again. */
    method GrowAndServe(need: int) returns (p: int)
      requires Good() && booted && 0 < need
      requires FirstFit(lists, blocks, GetBinIndex(2 + need), need) == NULL
      modifies this`blocks, this`lists, this`hi, this`brk, this`refusals, mem, bins
      ensures Good()
      ensures p == NULL ==> Snap() == old(Snap()) && refusals == old(refusals) + 1
      ensures p != NULL ==> refusals == old(refusals)
      ensures p != NULL ==>
        Served(Grown(old(Snap()), need), Snap(), MergeStart(Extended(old(blocks), old(hi), GrowSpan(need)), old(hi)), need, p)
      ensures KeepsUsed(old(blocks), old(mem[..]), mem[..])
    {
      hide Inv;
      ghost var s := Snap();
      var cur := SysGrowAndLink(need);
      if cur == NULL {
        return NULL;
      }
      ghost var t := Snap();
      RescanFindsGrown(s, t, need);
      GrownServes(s, need);
      hide Coalesced, Extended, Rebinned, FindsFirst;
      cur := FindFit(GetBinIndex(GrowSpan(need)), need);
      assert cur != NULL;
      p := AllocateFrom(cur, need);
      GrownKeepsUsed(s, t.blocks, GrowSpan(need), t.m, mem[..]);
    }

    /** Serves a request of at least one unit, the bounds of the arena being fixed. */
    method Request(need: int) returns (p: int)
      requires Good() && booted && 0 < need
      modifies this`blocks, this`lists, this`hi, this`brk, this`refusals, mem, bins
      ensures Good()
      ensures MallocOutcome(old(Snap()), need, p, Snap())
      ensures refusals == if p == NULL then old(refusals) + 1 else old(refusals)
      ensures KeepsUsed(old(blocks), old(mem[..]), mem[..])
    {
      hide Inv, FindsFirst;
      ghost var s := Snap();
      BinHead(s, 0);
      FirstFitIs(s, GetBinIndex(2 + need), need);
      var cur := FindFit(GetBinIndex(2 + need), need);
      if cur != NULL {
        FreeIsPositive(s, cur);
        p := AllocateFrom(cur, need);
      } else {
        p := GrowAndServe(need);
      }
    }

    /** Allocates `size` bytes. The outcome is exact: null for size 0; else the first fit of the
        segregated search; else the grown block; and null again only when the kernel refuses to grow. */
    method Malloc(size: nat) returns (p: int)
      requires Good()
      modifies this, mem, bins
      ensures Good()
      ensures size == 0 ==> p == NULL && Snap() == old(Snap()) && refusals == old(refusals)
      ensures 0 < size ==> MallocOutcome(old(Booted()), BytesToPayloadUnits(size), p, Snap())
      ensures 0 < size ==> Chooses(old(Booted()), BytesToPayloadUnits(size), p, Snap())
      ensures 0 < size ==> refusals == if p == NULL then old(refusals) + 1 else old(refusals)
      ensures MallocStep(LiveOf(old(blocks)), BytesToPayloadUnits(size), p, LiveOf(blocks))
      ensures KeepsUsed(old(blocks), old(mem[..]), mem[..])
    {
      hide Inv, NoFreeNeighbours, MallocOutcome, Chooses;
      if size == 0 {
        return NULL;
      }
      HeapBootstrap();
      var valid := CheckHeapValidity();
      assert valid;
      ghost var s := Snap();
      p := Request(BytesToPayloadUnits(size));
      MallocRefines(s, BytesToPayloadUnits(size), p, Snap());
      OutcomeChooses(s, BytesToPayloadUnits(size), p, Snap());
      valid := CheckHeapValidity();
      assert valid;
    }

    /** Frees the used block `c`. */
    method FreeBlock(c: int)
      requires Good() && booted && c in blocks && !blocks[c].free
      modifies this`blocks, this`lists, mem, bins
      ensures Good()
      ensures FreeOutcome(old(blocks), old(lists), c, blocks, lists)
      ensures PutInFront(old(lists), blocks, lists, c)
      ensures LiveWith(blocks, 2) == LiveWith(old(blocks), 2) - {c}
      ensures KeepsUsed(blocks, old(mem[..]), mem[..])
    {
      hide Inv, NoFreeNeighbours, NoFreeNeighboursBut, Coalesced, Rebinned, KeepsUsed, PutInFront;
      BinHead(Snap(), 0);
      ApartBut(blocks, c);
      UsedLinks(c);
      assert IsValid(mem, c, lo, hi);
      assert GetStatus(mem, c) == USED;
      assert GetNextFree(mem, c) == NULL && GetPrevFree(mem, c) == NULL;
      InvIsTiled(Snap(), {});
      FreeingRemovesRegion(blocks, lo, hi, c, 2);
      BinPushFront(c, {});
      assert GetStatus(mem, c) == FREE;
    }

    lemma ApartBut(b: Blocks, c: int)
      requires NoFreeNeighbours(b)
      ensures NoFreeNeighboursBut(b, c)
    {
    }

    /** Frees the region at `p`, or does nothing for null. Freeing before the first allocation fails
        the source's first assertion, so the bounds of the arena must be fixed. */
    method Free(p: int)
      requires Good() && booted
      requires p == NULL || HeaderFromPayload(p) in LiveOf(blocks)
      modifies this`blocks, this`lists, mem, bins
      ensures Good()
      ensures p == NULL ==> Snap() == old(Snap())
      ensures p != NULL ==> FreeOutcome(old(blocks), old(lists), HeaderFromPayload(p), blocks, lists)
      ensures p != NULL ==> PutInFront(old(lists), blocks, lists, HeaderFromPayload(p))
      ensures FreeStep(LiveOf(old(blocks)), p, LiveOf(blocks))
      ensures KeepsUsed(blocks, old(mem[..]), mem[..])
    {
      hide Inv, NoFreeNeighbours;
      assert lo != NULL && hi != NULL;
      if p == NULL {
        return;
      }
      hide FreeOutcome, KeepsUsed, PutInFront;
      UsedLinks(HeaderFromPayload(p));
      assert lo <= p < hi;
      var valid := CheckHeapValidity();
      assert valid;
      FreeBlock(HeaderFromPayload(p));
      valid := CheckHeapValidity();
      assert valid;
    }

    lemma UsedLinks(c: int)
      requires Good() && c in blocks && !blocks[c].free
      ensures 0 < lo <= c < hi <= mem.Length
      ensures IsValid(mem, c, lo, hi) && HasFooter(mem, c) && mem[c].word0 == USED
      ensures mem[c].link == NULL && mem[GetFooterFromHeader(mem, c)].link == NULL
    {
      Around(c, {});
    }

    /** A client store to payload unit `u` of the live region of block `c`. */
    method ClientWrite(ghost c: int, u: int, v: Unit)
      requires Good() && c in LiveOf(blocks) && c < u <= c + LiveOf(blocks)[c]
      modifies mem
      ensures Good() && mem[..] == old(mem[..])[u := v]
    {
      UsedLinks(c);
      PayloadWriteKeepsValid(Snap(), c, u, v);
      mem[u] := v;
      assert Snap() == old(Snap()).(m := old(mem[..])[u := v]);
    }

    /** A heap nobody has used yet, over `cells` units of address space with the break at `start`. */
    constructor (cells: nat, start: nat)
      requires 0 < start <= cells
      ensures Good() && !booted && LiveOf(blocks) == map[]
      ensures fresh(mem) && fresh(bins)
    {
      mem := new Unit[cells](_ => Unit(0, 0, 0));
      bins := new int[NUM_BINS](_ => NULL);
      lo, hi, brk, booted := NULL, NULL, start, false;
      blocks := map[];
      lists := seq(NUM_BINS, i => []);
      refusals := 0;
    }
  }
}