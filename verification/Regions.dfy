/** What the client sees of a heap: the live regions, and the steps of an abstract allocator. */
module Regions {
  import opened Tiling
  import opened Chunk
  import opened HeapLayout
  import opened BinSearch

  /** The live regions. Key `a` stands for the client pointer `a + 1`, and its value `n` for the
      payload units `a + 1 .. a + 1 + n`. */
  type Live = map<int, int>

  /** The regions of the used blocks, `overhead` units of each being header and footer. */
  ghost function LiveWith(b: Blocks, overhead: int): Live {
    map a {:trigger b[a]} | a in b && !b[a].free :: b[a].span - overhead
  }

  ghost function LiveOf(b: Blocks): Live {
    LiveWith(b, 2)
  }

  /** Regions have a non-negative size and do not overlap. */
  ghost predicate Separate(live: Live) {
    && (forall a {:trigger live[a]} :: a in live ==> 0 <= live[a])
    && (forall a, c {:trigger live[a], live[c]} :: a in live && c in live && a < c ==> a + 1 + live[a] < c + 1)
  }

  /** A request for `units` is refused, or served by a fresh region of that size or one unit more. */
  ghost predicate MallocStep(before: Live, units: int, p: int, after: Live) {
    if p == NULL then after == before
    else
      && p - 1 !in before && p - 1 in after && after == before[p - 1 := after[p - 1]]
      && units <= after[p - 1] <= units + 1
      && Separate(after)
  }

  /** Freeing removes exactly one region. */
  ghost predicate FreeStep(before: Live, p: int, after: Live) {
    after == if p == NULL then before else before - {p - 1}
  }

  lemma LiveIsSeparate(s: Layout)
    requires Inv(s, {})
    ensures Separate(LiveOf(s.blocks))
    ensures forall a {:trigger LiveOf(s.blocks)[a]} :: a in LiveOf(s.blocks) ==>
              s.lo <= a && a + 1 + LiveOf(s.blocks)[a] < s.hi
  {
    var live := LiveOf(s.blocks);
    forall a, c | a in live && c in live && a < c
      ensures a + 1 + live[a] < c + 1
    {
      assert s.blocks[a].span >= 2 && s.blocks[c].span >= 2;
    }
  }

  /** Serving a request adds one region, inside what was one free block. */
  lemma AllocatingAddsRegion(b: Blocks, c: int, need: int)
    requires Disjoint(b) && c in b && b[c].free && Fits(b, c, need) && 0 <= need
    ensures var f, a := Allocated(b, c, need), AllocatedAt(b, c, need);
      && a !in LiveOf(b) && a in LiveOf(f) && LiveOf(f) == LiveOf(b)[a := LiveOf(f)[a]]
      && need <= LiveOf(f)[a] <= need + 1
      && c <= a && a + 1 + LiveOf(f)[a] < c + b[c].span
  {
    var f, a := Allocated(b, c, need), AllocatedAt(b, c, need);
    if b[c].span >= need + 4 { CarvePointIsFresh(b, c, need + 2); }
    assert a in f && !f[a].free;
    assert LiveOf(f)[a] == f[a].span - 2;
    assert LiveOf(f) == LiveOf(b)[a := LiveOf(f)[a]];
  }

  /** Coalescing around a free block changes no region. */
  lemma CoalescingKeepsRegions(b: Blocks, lo: int, hi: int, c: int, overhead: int)
    requires Tiled(b, lo, hi) && c in b && b[c].free
    ensures LiveWith(Coalesced(b, c), overhead) == LiveWith(b, overhead)
  {
    var f := Coalesced(b, c);
    MergeStartIs(b, lo, hi, c);
    assert b[c].span >= 1;
    forall a
      ensures a in LiveWith(f, overhead) <==> a in LiveWith(b, overhead)
    {
      CoalescedUsed(b, lo, hi, c, a);
    }
  }

  /** Freeing a used block removes its region and no other. */
  lemma FreeingRemovesRegion(b: Blocks, lo: int, hi: int, c: int, overhead: int)
    requires Tiled(b, lo, hi) && c in b && !b[c].free
    ensures LiveWith(Coalesced(SetFree(b, c), c), overhead) == LiveWith(b, overhead) - {c}
  {
    var f := SetFree(b, c);
    SetFreeKeepsTiling(b, lo, hi, c);
    hide Tiled, Coalesced;
    CoalescingKeepsRegions(f, lo, hi, c, overhead);
    MarkingRemovesRegion(b, c, overhead);
  }

  lemma MarkingRemovesRegion(b: Blocks, c: int, overhead: int)
    requires c in b && !b[c].free
    ensures LiveWith(SetFree(b, c), overhead) == LiveWith(b, overhead) - {c}
  {
    var l, r := LiveWith(SetFree(b, c), overhead), LiveWith(b, overhead) - {c};
    forall a
      ensures a in l <==> a in r
      ensures a in l ==> l[a] == r[a]
    {
    }
  }

  /** Growing the arena changes no region. */
  lemma GrowingKeepsRegions(s: Layout, span: int)
    requires Inv(s, {}) && 2 <= span
    ensures LiveOf(Coalesced(Extended(s.blocks, s.hi, span), s.hi)) == LiveOf(s.blocks)
  {
    HiIsFresh(s);
    var e := Extended(s.blocks, s.hi, span);
    InvIsTiled(s, {});
    ExtendingKeepsTiling(s.blocks, s.lo, s.hi, span);
    hide Inv, Coalesced, Tiled;
    CoalescingKeepsRegions(e, s.lo, s.hi + span, s.hi, 2);
    ExtendingKeepsRegions(s.blocks, s.hi, span, 2);
  }

  lemma ExtendingKeepsRegions(b: Blocks, hi: int, span: int, overhead: int)
    requires hi !in b
    ensures LiveWith(Extended(b, hi, span), overhead) == LiveWith(b, overhead)
  {
  }

  // The exact outcome of a request, on layouts.

  /** From `s`, block `c` served a request for `need` units at client pointer `p`. */
  ghost predicate Served(s: Layout, t: Layout, c: int, need: int, p: int) {
    && |s.lists| == NUM_BINS && c in s.blocks
    && p == AllocatedAt(s.blocks, c, need) + 1
    && t.blocks == Allocated(s.blocks, c, need)
    && t.lists == AllocatedBins(s.blocks, s.lists, c, need)
    && t.lo == s.lo && t.hi == s.hi
  }

  /** `s` after a successful grow, memory and bin heads aside. */
  ghost function Grown(s: Layout, need: int): Layout
    requires |s.lists| == NUM_BINS
  {
    var b := Extended(s.blocks, s.hi, GrowSpan(need));
    s.(hi := s.hi + GrowSpan(need), blocks := Coalesced(b, s.hi), lists := Rebinned(b, s.lists, s.hi))
  }

  /** The first fit serves the request; when there is none, the grown block does, or the kernel
      refused to grow and nothing changed. */
  ghost predicate MallocOutcome(s: Layout, need: int, p: int, t: Layout) {
    && |s.lists| == NUM_BINS
    && (var first := FirstFit(s.lists, s.blocks, GetBinIndex(2 + need), need);
        if first != NULL then Served(s, t, first, need, p)
        else if p == NULL then t == s
        else Served(Grown(s, need), t, MergeStart(Extended(s.blocks, s.hi, GrowSpan(need)), s.hi), need, p))
  }

  /** The exact outcome of freeing block `c`: it and its free physical neighbours become one free block,
      at the front of the bin for the merged span; the other blocks and bin entries stay. */
  ghost predicate FreeOutcome(b: Blocks, lists: seq<seq<int>>, c: int, b2: Blocks, lists2: seq<seq<int>>) {
    && c in b && |lists| == NUM_BINS
    && b2 == Coalesced(SetFree(b, c), c)
    && lists2 == Rebinned(SetFree(b, c), lists, c)
  }

  lemma ServingIsAStep(b: Blocks, c: int, need: int)
    requires Disjoint(b) && c in b && b[c].free && 0 < c && Fits(b, c, need) && 0 <= need
    requires Separate(LiveOf(Allocated(b, c, need)))
    ensures MallocStep(LiveOf(b), need, AllocatedAt(b, c, need) + 1, LiveOf(Allocated(b, c, need)))
  {
    AllocatingAddsRegion(b, c, need);
  }

  /** The grown block is free, has room, and leaves the regions as they were. */
  lemma GrownServes(s: Layout, need: int)
    requires Inv(s, {}) && s.lo != NULL && 0 <= need
    ensures var b := Grown(s, need).blocks; var g := MergeStart(Extended(s.blocks, s.hi, GrowSpan(need)), s.hi);
      && Disjoint(b) && 0 < g && g in b && b[g].free && Fits(b, g, need) && LiveOf(b) == LiveOf(s.blocks)
  {
    var e := Extended(s.blocks, s.hi, GrowSpan(need));
    ExtendingKeepsTiling(s.blocks, s.lo, s.hi, GrowSpan(need));
    CoalescedKeepsTiling(e, s.lo, s.hi + GrowSpan(need), s.hi);
    GrowingKeepsRegions(s, GrowSpan(need));
    var g := MergeStart(e, s.hi);
    if g != s.hi { assert e[g].span >= 1; }
    HiIsFresh(s);
    assert MergeEnd(e, s.hi) == s.hi + GrowSpan(need);
  }

  lemma ServingGrownIsAStep(s: Layout, need: int)
    requires Inv(s, {}) && s.lo != NULL && 0 <= need
    requires var b, g := Grown(s, need).blocks, MergeStart(Extended(s.blocks, s.hi, GrowSpan(need)), s.hi);
      g in b && Separate(LiveOf(Allocated(b, g, need)))
    ensures var b, g := Grown(s, need).blocks, MergeStart(Extended(s.blocks, s.hi, GrowSpan(need)), s.hi);
      MallocStep(LiveOf(s.blocks), need, AllocatedAt(b, g, need) + 1, LiveOf(Allocated(b, g, need)))
  {
    hide Inv, Separate, LiveOf, Allocated, AllocatedAt, MallocStep, MergeStart, Extended;
    BinHead(s, 0);
    GrownServes(s, need);
    ServingIsAStep(Grown(s, need).blocks, MergeStart(Extended(s.blocks, s.hi, GrowSpan(need)), s.hi), need);
  }

  /** The outcome is a step of the abstract allocator. */
  lemma MallocRefines(s: Layout, need: int, p: int, t: Layout)
    requires Inv(s, {}) && s.lo != NULL && Inv(t, {}) && 0 <= need && MallocOutcome(s, need, p, t)
    ensures MallocStep(LiveOf(s.blocks), need, p, LiveOf(t.blocks))
  {
    hide Inv, Separate, LiveOf, Allocated, AllocatedAt, MergeStart, Extended, Grown;
    LiveIsSeparate(t);
    InvIsTiled(s, {});
    var first := FirstFit(s.lists, s.blocks, GetBinIndex(2 + need), need);
    FirstFitIs(s, GetBinIndex(2 + need), need);
    if first != NULL {
      FreeIsPositive(s, first);
      ServingIsAStep(s.blocks, first, need);
    } else if p != NULL {
      ServingGrownIsAStep(s, need);
    }
  }

  lemma FreeIsPositive(s: Layout, c: int)
    requires Inv(s, {}) && c in s.blocks
    ensures 0 < c
  {
    assert s.blocks[c].span >= 2;
  }
}