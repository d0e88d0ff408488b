/** The segregated search, and its agreement with a search of every free block. */
module BinSearch {
  import opened Tiling
  import opened Chunk
  import opened BinLists
  import opened HeapLayout
  import opened UsedUnits

  /** Block `c` has room for `need` payload units. */
  predicate Fits(b: Blocks, c: int, need: int) {
    c in b && b[c].span - 2 >= need
  }

  /** First block of a bin with room, or null. */
  function FirstIn(l: seq<int>, b: Blocks, need: int): int {
    if l == [] then NULL else if Fits(b, l[0], need) then l[0] else FirstIn(l[1..], b, need)
  }

  /** First block with room, looking through bins `i`, `i + 1`, ... each from the front. */
  function FirstFit(lists: seq<seq<int>>, b: Blocks, i: int, need: int): int
    requires |lists| == NUM_BINS && 0 <= i <= NUM_BINS
    decreases NUM_BINS - i
  {
    if i == NUM_BINS then NULL
    else
      var c := FirstIn(lists[i], b, need);
      if c != NULL then c else FirstFit(lists, b, i + 1, need)
  }

  lemma {:induction false} FirstInIs(l: seq<int>, b: Blocks, need: int)
    requires forall c {:trigger c in l} :: c in l ==> c != NULL
    ensures var f := FirstIn(l, b, need);
      if f == NULL then forall c {:trigger c in l} :: c in l ==> !Fits(b, c, need) else f in l && Fits(b, f, need)
  {
    if l != [] {
      assert l == [l[0]] + l[1..];
      assert l[0] in l;
      forall c | c in l[1..]
        ensures c != NULL
      {
        assert c in l;
      }
      FirstInIs(l[1..], b, need);
    }
  }

  lemma {:induction false} FirstFitIs(s: Layout, i: int, need: int)
    requires Inv(s, {}) && 0 <= i <= NUM_BINS
    ensures var f := FirstFit(s.lists, s.blocks, i, need);
      if f == NULL then
        forall j, c {:trigger c in s.lists[j]} :: i <= j < NUM_BINS && c in s.lists[j] ==> !Fits(s.blocks, c, need)
      else
        f in s.blocks && s.blocks[f].free && Fits(s.blocks, f, need)
    decreases NUM_BINS - i
  {
    if i < NUM_BINS {
      forall c | c in s.lists[i]
        ensures c in s.blocks && c != NULL
      {
        assert s.blocks[c].span == s.blocks[c].span;
      }
      FirstInIs(s.lists[i], s.blocks, need);
      FirstFitIs(s, i + 1, need);
    }
  }

  /** A larger span never has a smaller bin index. */
  lemma BinIndexMonotone(x: int, y: int)
    requires x <= y
    ensures GetBinIndex(x) <= GetBinIndex(y)
  {
  }

  /** The segregated search from the bin of the smallest usable span fails exactly when no free block
      of the heap has room. */
  lemma SearchIsComplete(s: Layout, need: int)
    requires Inv(s, {})
    ensures FirstFit(s.lists, s.blocks, GetBinIndex(2 + need), need) == NULL <==>
            !exists c :: c in s.blocks && s.blocks[c].free && Fits(s.blocks, c, need)
  {
    var i := GetBinIndex(2 + need);
    FirstFitIs(s, i, need);
    forall c | c in s.blocks && s.blocks[c].free && Fits(s.blocks, c, need)
      ensures FirstFit(s.lists, s.blocks, i, need) != NULL
    {
      BinIndexMonotone(2 + need, s.blocks[c].span);
      assert c in s.lists[GetBinIndex(s.blocks[c].span)];
    }
  }

  // Growing when the search fails.

  const SYS_MIN_ALLOC_UNITS := 1024

  function GrowSpan(need: int): int {
    2 + if need < SYS_MIN_ALLOC_UNITS then SYS_MIN_ALLOC_UNITS else need
  }

  /** After a grow that found no room before it, the rescan, which starts at the bin of the new span,
      finds the grown block even when that merged into a free tail and moved to another bin. */
  lemma RescanFindsGrown(s: Layout, t: Layout, need: int)
    requires Valid(s) && Valid(t) && s.lo != NULL && t.lo == s.lo && 0 <= need
    requires FirstFit(s.lists, s.blocks, GetBinIndex(2 + need), need) == NULL
    requires t.blocks == Coalesced(Extended(s.blocks, s.hi, GrowSpan(need)), s.hi)
    ensures var b := Extended(s.blocks, s.hi, GrowSpan(need));
      FirstFit(t.lists, t.blocks, GetBinIndex(GrowSpan(need)), need) == MergeStart(b, s.hi)
  {
    GrownIsFree(s, t, need);
    hide Inv, FirstFit, NoFreeNeighbours, Coalesced, MergeStart, Extended;
    OnlyFitIsFound(t, GrowSpan(need), MergeStart(Extended(s.blocks, s.hi, GrowSpan(need)), s.hi), need);
  }

  /** The grown block has room, and nothing else does. */
  lemma GrownIsFree(s: Layout, t: Layout, need: int)
    requires Valid(s) && s.lo != NULL && t.lo == s.lo && 0 <= need
    requires FirstFit(s.lists, s.blocks, GetBinIndex(2 + need), need) == NULL
    requires t.blocks == Coalesced(Extended(s.blocks, s.hi, GrowSpan(need)), s.hi)
    ensures var g := MergeStart(Extended(s.blocks, s.hi, GrowSpan(need)), s.hi);
      && g in t.blocks && t.blocks[g].free && t.blocks[g].span >= GrowSpan(need)
      && forall c {:trigger t.blocks[c]} :: c in t.blocks && t.blocks[c].free && c != g ==> !Fits(t.blocks, c, need)
  {
    var b := Extended(s.blocks, s.hi, GrowSpan(need));
    HiIsFresh(s);
    SearchIsComplete(s, need);
    hide FirstFit;
    assert MergeEnd(b, s.hi) >= s.hi + GrowSpan(need);
    var g := MergeStart(b, s.hi);
    if g != s.hi { assert b[g].span >= 2; }
    forall c | c in t.blocks && t.blocks[c].free && c != g
      ensures !Fits(t.blocks, c, need)
    {
      assert c in s.blocks && t.blocks[c] == s.blocks[c];
      assert !Fits(s.blocks, c, need);
    }
  }

  lemma OnlyFitIsFound(t: Layout, span: int, g: int, need: int)
    requires Inv(t, {}) && g in t.blocks && t.blocks[g].free && Fits(t.blocks, g, need) && span <= t.blocks[g].span
    requires forall c {:trigger t.blocks[c]} :: c in t.blocks && t.blocks[c].free && c != g ==> !Fits(t.blocks, c, need)
    ensures |t.lists| == NUM_BINS && FirstFit(t.lists, t.blocks, GetBinIndex(span), need) == g
  {
    BinIndexMonotone(span, t.blocks[g].span);
    FirstFitIs(t, GetBinIndex(span), need);
    assert g in t.lists[GetBinIndex(t.blocks[g].span)];
  }

  lemma HiIsFresh(s: Layout)
    requires Inv(s, {})
    ensures s.hi !in s.blocks
    ensures forall a {:trigger s.blocks[a]} :: a in s.blocks ==> a + s.blocks[a].span <= s.hi
  {
    forall a | a in s.blocks
      ensures a < s.hi && a + s.blocks[a].span <= s.hi
    {
      assert s.blocks[a].span >= 2;
    }
  }

  /** The stores that set up a grown block, in order. */
  function GrowStores(m: seq<Unit>, c: int, span: int): (m2: seq<Unit>)
    requires 0 < c && 2 <= span && c + span <= |m|
    ensures |m2| == |m|
  {
    WithStatus(WithPrev(WithNext(WithSpan(m, c, span), c, NULL), c, NULL), c, FREE)
  }

  lemma GrowStoresGrow(s: Layout, t: Layout, span: int)
    requires Inv(s, {}) && s.lo != NULL && 2 <= span && s.hi + span <= |s.m|
    requires 0 < s.hi
    requires t == s.(m := GrowStores(s.m, s.hi, span), hi := s.hi + span, blocks := Extended(s.blocks, s.hi, span))
    ensures GrownBy(s, t, span)
  {
  }

  /** Growing touches no block, and only the new block may have a free neighbour. */
  lemma GrowKeepsUsedBlocks(s: Layout, t: Layout, span: int)
    requires Valid(s) && GrownBy(s, t, span)
    ensures NoFreeNeighboursBut(t.blocks, s.hi) && SetFree(t.blocks, s.hi) == t.blocks
    ensures KeepsUsed(s.blocks, s.m, t.m)
  {
    HiIsFresh(s);
    forall u | 0 <= u < |s.m| && InUsed(s.blocks, u)
      ensures t.m[u] == s.m[u]
    {
      var d :| Covers(s.blocks, d, u) && !s.blocks[d].free;
      assert s.blocks[d].span >= 2;
    }
  }

  lemma GrownKeepsUsed(s: Layout, b: Blocks, span: int, m1: seq<Unit>, m2: seq<Unit>)
    requires Inv(s, {}) && 2 <= span && KeepsUsed(s.blocks, s.m, m1)
    requires b == Coalesced(Extended(s.blocks, s.hi, span), s.hi) && KeepsUsed(b, m1, m2)
    ensures KeepsUsed(s.blocks, s.m, m2)
  {
    HiIsFresh(s);
    var e := Extended(s.blocks, s.hi, span);
    forall u | 0 <= u < |s.m| && InUsed(s.blocks, u)
      ensures m2[u] == s.m[u]
    {
      var d :| Covers(s.blocks, d, u) && !s.blocks[d].free;
      UsedSurvivesCoalescing(s, span, d);
      assert Covers(b, d, u);
    }
  }

  lemma UsedSurvivesCoalescing(s: Layout, span: int, d: int)
    requires Inv(s, {}) && 2 <= span && d in s.blocks && !s.blocks[d].free && s.hi !in s.blocks
    ensures var b := Coalesced(Extended(s.blocks, s.hi, span), s.hi); d in b && b[d] == s.blocks[d]
  {
    var e := Extended(s.blocks, s.hi, span);
    assert s.blocks[d].span >= 2;
    var g := MergeStart(e, s.hi);
    if g != s.hi { assert s.blocks[g].span >= 2; }
  }

  // The validity check's count of a block's occurrences in the bins.

  function CountIn(l: seq<int>, c: int): nat {
    if l == [] then 0 else CountIn(l[..|l| - 1], c) + if l[|l| - 1] == c then 1 else 0
  }

  /** Occurrences of `c` in the first `n` bins. */
  function Occurrences(lists: seq<seq<int>>, c: int, n: int): nat
    requires 0 <= n <= |lists|
  {
    if n == 0 then 0 else Occurrences(lists, c, n - 1) + CountIn(lists[n - 1], c)
  }

  lemma {:induction false} CountDistinct(l: seq<int>, c: int)
    requires Distinct(l)
    ensures CountIn(l, c) == if c in l then 1 else 0
  {
    if l != [] {
      var h := l[..|l| - 1];
      assert l == h + [l[|l| - 1]];
      assert Distinct(h);
      CountDistinct(h, c);
    }
  }

  /** Every free block is in the bins exactly once, and no used block is in them. */
  lemma {:induction false} OccursOnce(s: Layout, c: int, n: int)
    requires Inv(s, {}) && c in s.blocks && 0 <= n <= NUM_BINS
    ensures Occurrences(s.lists, c, n) == if s.blocks[c].free && GetBinIndex(s.blocks[c].span) < n then 1 else 0
  {
    if n > 0 {
      OccursOnce(s, c, n - 1);
      CountDistinct(s.lists[n - 1], c);
    }
  }
}
