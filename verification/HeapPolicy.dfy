/** The placement policy of the segregated heap in numbers: the size classes, which free block a request
    is served from, and where a freed block goes. */
module HeapPolicy {
  import opened Tiling
  import opened Chunk
  import opened BinLists
  import opened HeapLayout
  import opened BinSearch
  import opened Regions

  // Size classes.

  /** Bin 0 holds spans below 8, bin 9 spans from 2048 on, and each bin between them spans from 4 up to
      8 times a power of two. */
  lemma SizeClasses(s: Layout, loose: set<int>, i: int, k: int)
    requires Inv(s, loose) && 0 <= i < NUM_BINS && 0 <= k < |s.lists[i]|
    ensures i <= 9 && s.lists[i][k] in s.blocks
    ensures i < 9 ==> s.blocks[s.lists[i][k]].span < [8, 16, 32, 64, 128, 256, 512, 1024, 2048][i]
    ensures 0 < i ==> [8, 16, 32, 64, 128, 256, 512, 1024, 2048][i - 1] <= s.blocks[s.lists[i][k]].span
  {
    assert s.lists[i][k] in s.lists[i];
  }

  // The block that serves a request.

  /** Place `k` of bin `i` has room for `need` payload units, and no earlier place from bin `start` on has. */
  ghost predicate FirstPlace(lists: seq<seq<int>>, b: Blocks, start: int, need: int, i: int, k: int) {
    && 0 <= start <= i < |lists| && 0 <= k < |lists[i]|
    && lists[i][k] in b && need <= b[lists[i][k]].span - 2
    && forall j, l {:trigger lists[j][l]} :: start <= j <= i && 0 <= l < |lists[j]| && (j < i || l < k) ==>
         lists[j][l] in b && b[lists[j][l]].span - 2 < need
  }

  lemma {:induction false} FirstInPlace(l: seq<int>, b: Blocks, need: int) returns (k: nat)
    requires FirstIn(l, b, need) != NULL
    ensures k < |l| && l[k] == FirstIn(l, b, need) && Fits(b, l[k], need)
    ensures forall j {:trigger l[j]} :: 0 <= j < k ==> !Fits(b, l[j], need)
  {
    if Fits(b, l[0], need) {
      k := 0;
    } else {
      var m := FirstInPlace(l[1..], b, need);
      k := m + 1;
      assert forall j :: 0 < j < k ==> l[j] == l[1..][j - 1];
    }
  }

  /** The search takes the first place with room, in bin order and then in list order. */
  lemma {:induction false} FirstFitPlace(s: Layout, start: int, need: int) returns (i: int, k: int)
    requires Inv(s, {}) && 0 <= start <= NUM_BINS && FirstFit(s.lists, s.blocks, start, need) != NULL
    ensures FirstPlace(s.lists, s.blocks, start, need, i, k) && FirstFit(s.lists, s.blocks, start, need) == s.lists[i][k]
    decreases NUM_BINS - start
  {
    AllListed(s);
    hide *;
    FirstFitSteps(s.lists, s.blocks, start, need);
    if start < NUM_BINS && FirstIn(s.lists[start], s.blocks, need) != NULL {
      i := start;
      k := FirstInPlace(s.lists[start], s.blocks, need);
      PlaceInFirstBin(s.lists, s.blocks, start, need, k);
    } else {
      i, k := FirstFitPlace(s, start + 1, need);
      NothingIn(s, start, need);
      PlaceInLaterBin(s.lists, s.blocks, start, need, i, k);
    }
  }

  lemma FirstFitSteps(lists: seq<seq<int>>, b: Blocks, i: int, need: int)
    requires |lists| == NUM_BINS && 0 <= i <= NUM_BINS && FirstFit(lists, b, i, need) != NULL
    ensures i < NUM_BINS
    ensures FirstFit(lists, b, i, need) ==
            if FirstIn(lists[i], b, need) != NULL then FirstIn(lists[i], b, need) else FirstFit(lists, b, i + 1, need)
  {
  }

  lemma PlaceInFirstBin(lists: seq<seq<int>>, b: Blocks, start: int, need: int, k: int)
    requires 0 <= start < |lists| && 0 <= k < |lists[start]| && Fits(b, lists[start][k], need)
    requires forall j {:trigger lists[start][j]} :: 0 <= j < k ==> lists[start][j] in b && !Fits(b, lists[start][j], need)
    ensures FirstPlace(lists, b, start, need, start, k)
  {
  }

  lemma PlaceInLaterBin(lists: seq<seq<int>>, b: Blocks, start: int, need: int, i: int, k: int)
    requires 0 <= start < |lists| && FirstPlace(lists, b, start + 1, need, i, k)
    requires forall l {:trigger lists[start][l]} :: 0 <= l < |lists[start]| ==> lists[start][l] in b && b[lists[start][l]].span - 2 < need
    ensures FirstPlace(lists, b, start, need, i, k)
  {
  }

  /** `cur` is at the first place with room from bin `start` on, or null when there is none. */
  ghost predicate FindsFirst(lists: seq<seq<int>>, b: Blocks, start: int, need: int, cur: int) {
    |lists| == 10 && 0 <= start < 10 &&
    if cur == NULL then
      forall j, l {:trigger lists[j][l]} :: start <= j < 10 && 0 <= l < |lists[j]| ==> lists[j][l] in b && b[lists[j][l]].span - 2 < need
    else
      exists i, k :: FirstPlace(lists, b, start, need, i, k) && cur == lists[i][k]
  }

  /** The segregated search, in numbers. */
  lemma SearchFindsFirst(s: Layout, start: int, need: int)
    requires Inv(s, {}) && 0 <= start < NUM_BINS
    ensures |s.lists| == NUM_BINS && FindsFirst(s.lists, s.blocks, start, need, FirstFit(s.lists, s.blocks, start, need))
  {
    AllListed(s);
    FirstFitIs(s, start, need);
    if FirstFit(s.lists, s.blocks, start, need) != NULL {
      var i, k := FirstFitPlace(s, start, need);
    } else {
      forall j, l | start <= j < 10 && 0 <= l < |s.lists[j]|
        ensures s.lists[j][l] in s.blocks && s.blocks[s.lists[j][l]].span - 2 < need
      {
        assert s.lists[j][l] in s.lists[j];
      }
    }
  }

  lemma AllListed(s: Layout)
    requires Inv(s, {})
    ensures |s.lists| == NUM_BINS
    ensures forall i, k {:trigger s.lists[i][k]} :: 0 <= i < NUM_BINS && 0 <= k < |s.lists[i]| ==>
              s.lists[i][k] in s.blocks && s.lists[i][k] != NULL && s.blocks[s.lists[i][k]].free
  {
    forall i, k | 0 <= i < NUM_BINS && 0 <= k < |s.lists[i]|
      ensures s.lists[i][k] in s.blocks && s.lists[i][k] != NULL && s.blocks[s.lists[i][k]].free
    {
      assert s.lists[i][k] in s.lists[i];
    }
  }

  lemma NothingIn(s: Layout, i: int, need: int)
    requires Inv(s, {}) && 0 <= i < NUM_BINS && FirstIn(s.lists[i], s.blocks, need) == NULL
    ensures forall k {:trigger s.lists[i][k]} :: 0 <= k < |s.lists[i]| ==> s.lists[i][k] in s.blocks && s.blocks[s.lists[i][k]].span - 2 < need
  {
    AllListed(s);
    hide Inv;
    var l := s.lists[i];
    forall c | c in l
      ensures c != NULL
    {
      var k :| 0 <= k < |l| && l[k] == c;
      assert s.lists[i][k] != NULL;
    }
    FirstInIs(l, s.blocks, need);
    forall k | 0 <= k < |l|
      ensures s.lists[i][k] in s.blocks && s.blocks[s.lists[i][k]].span - 2 < need
    {
      assert l[k] in l;
    }
  }

  /** No block of a lower bin has room, so the search from the first usable bin is a search of all. */
  lemma LowerBinsAreTooSmall(s: Layout, need: int, i: int, k: int)
    requires Inv(s, {}) && FirstPlace(s.lists, s.blocks, GetBinIndex(2 + need), need, i, k)
    ensures FirstPlace(s.lists, s.blocks, 0, need, i, k)
  {
    var start := GetBinIndex(2 + need);
    forall j, l | 0 <= j < start && 0 <= l < |s.lists[j]|
      ensures s.lists[j][l] in s.blocks && s.blocks[s.lists[j][l]].span - 2 < need
    {
      assert s.lists[j][l] in s.lists[j];
      if 2 + need <= s.blocks[s.lists[j][l]].span { BinIndexMonotone(2 + need, s.blocks[s.lists[j][l]].span); }
    }
  }

  /** The client pointer when a block of `span` units at `c` serves `need`: at its front, or, when two
      units or more would be left over, at the end of it. */
  function PointerIn(c: int, span: int, need: int): int {
    if need + 4 <= span then c + span - need - 1 else c + 1
  }

  /** A request of `need` units is served from the first place with room. When there is none, the arena
      grows by two units and at least 1024, and the new units serve it, together with the free block
      below them if there is one; or the request is refused. */
  ghost predicate Chooses(s: Layout, need: int, p: int, t: Layout) {
    if exists c :: c in s.blocks && s.blocks[c].free && need <= s.blocks[c].span - 2 then
      t.hi == s.hi && exists i, k ::
        FirstPlace(s.lists, s.blocks, 0, need, i, k) && p == PointerIn(s.lists[i][k], s.blocks[s.lists[i][k]].span, need)
    else
      && t.hi == (if p == NULL then s.hi else s.hi + 2 + if need < 1024 then 1024 else need)
      && (p != NULL ==> exists g :: FreeTail(s, g) && p == PointerIn(g, t.hi - g, need))
  }

  /** `g` is where the free block at the end of the arena starts, or that end if the last block is used. */
  ghost predicate FreeTail(s: Layout, g: int) {
    if exists c :: c in s.blocks && s.blocks[c].free && c + s.blocks[c].span == s.hi then
      g in s.blocks && s.blocks[g].free && g + s.blocks[g].span == s.hi
    else g == s.hi
  }

  lemma OutcomeChooses(s: Layout, need: int, p: int, t: Layout)
    requires Inv(s, {}) && s.lo != NULL && 0 <= need && MallocOutcome(s, need, p, t)
    ensures Chooses(s, need, p, t)
  {
    var first := FirstFit(s.lists, s.blocks, GetBinIndex(2 + need), need);
    SearchIsComplete(s, need);
    if first != NULL {
      FitChooses(s, need, p, t);
    } else {
      GrownIsTail(s, need);
      GrownChooses(s, need, p, t);
    }
  }

  lemma FitChooses(s: Layout, need: int, p: int, t: Layout)
    requires Inv(s, {}) && MallocOutcome(s, need, p, t)
    requires FirstFit(s.lists, s.blocks, GetBinIndex(2 + need), need) != NULL
    ensures Chooses(s, need, p, t)
  {
    var i, k := FirstFitPlace(s, GetBinIndex(2 + need), need);
    LowerBinsAreTooSmall(s, need, i, k);
    SearchIsComplete(s, need);
    hide FirstPlace, Inv, FirstFit;
    assert p == PointerIn(s.lists[i][k], s.blocks[s.lists[i][k]].span, need);
  }

  lemma GrownChooses(s: Layout, need: int, p: int, t: Layout)
    requires |s.lists| == NUM_BINS && MallocOutcome(s, need, p, t)
    requires FirstFit(s.lists, s.blocks, GetBinIndex(2 + need), need) == NULL
    requires !exists c :: c in s.blocks && s.blocks[c].free && Fits(s.blocks, c, need)
    requires var g, h := MergeStart(Extended(s.blocks, s.hi, GrowSpan(need)), s.hi), Grown(s, need);
      && FreeTail(s, g) && g in h.blocks && h.blocks[g].span == h.hi - g
      && h.hi == s.hi + 2 + if need < 1024 then 1024 else need
    ensures Chooses(s, need, p, t)
  {
    hide MergeStart, Extended, Grown, FreeTail, FirstFit, GrowSpan, Allocated, AllocatedBins;
    assert forall c :: c in s.blocks && s.blocks[c].free ==> !Fits(s.blocks, c, need);
  }

  lemma GrownIsTail(s: Layout, need: int)
    requires Inv(s, {}) && s.lo != NULL && 0 <= need
    ensures |s.lists| == NUM_BINS
    ensures var g, h := MergeStart(Extended(s.blocks, s.hi, GrowSpan(need)), s.hi), Grown(s, need);
      && FreeTail(s, g) && g in h.blocks && h.blocks[g].span == h.hi - g
      && h.hi == s.hi + 2 + if need < 1024 then 1024 else need
  {
    var e := Extended(s.blocks, s.hi, GrowSpan(need));
    HiIsFresh(s);
    InvIsTiled(s, {});
    hide Inv;
    ExtendingKeepsTiling(s.blocks, s.lo, s.hi, GrowSpan(need));
    MergeStartIs(e, s.lo, s.hi + GrowSpan(need), s.hi);
    hide Tiled;
    TailIsMerged(s, GrowSpan(need));
    assert MergeEnd(e, s.hi) == s.hi + GrowSpan(need);
    hide FreeTail;
  }

  lemma TailIsMerged(s: Layout, span: int)
    requires s.hi !in s.blocks
    requires var e := Extended(s.blocks, s.hi, span);
      forall p {:trigger e[p]} :: p in e && e[p].free && p + e[p].span == s.hi ==> MergeStart(e, s.hi) == p
    requires 1 <= span
    ensures FreeTail(s, MergeStart(Extended(s.blocks, s.hi, span), s.hi))
  {
    var e := Extended(s.blocks, s.hi, span);
    forall c | c in s.blocks && s.blocks[c].free && c + s.blocks[c].span == s.hi
      ensures MergeStart(e, s.hi) == c
    {
      assert e[c] == s.blocks[c];
    }
  }

  // Where a freed block goes.

  /** `a` is `b` with some entries left out. */
  predicate Subsequence(a: seq<int>, b: seq<int>) {
    if a == [] then true
    else if b == [] then false
    else if a[0] == b[0] then Subsequence(a[1..], b[1..])
    else Subsequence(a, b[1..])
  }

  lemma {:induction false} SubsequenceSelf(l: seq<int>)
    ensures Subsequence(l, l)
  {
    if l != [] {
      SubsequenceSelf(l[1..]);
    }
  }

  lemma {:induction false} WithoutIsSubsequence(l: seq<int>, c: int)
    ensures Subsequence(Without(l, c), l)
  {
    if l != [] && l[0] == c {
      SubsequenceSelf(l[1..]);
      SubsequenceGrows(l[1..], l[1..], c);
      assert [c] + l[1..] == l;
    } else if l != [] {
      WithoutIsSubsequence(l[1..], c);
      assert ([l[0]] + Without(l[1..], c))[1..] == Without(l[1..], c);
    }
  }

  lemma {:induction false} SubsequenceGrows(a: seq<int>, b: seq<int>, x: int)
    requires Subsequence(a, b)
    ensures Subsequence(a, [x] + b)
    decreases |b|, 1
  {
    assert ([x] + b)[1..] == b;
    if a != [] && a[0] == x {
      SubsequenceDrops(a, b);
    }
  }

  lemma {:induction false} SubsequenceDrops(a: seq<int>, b: seq<int>)
    requires a != [] && Subsequence(a, b)
    ensures Subsequence(a[1..], b)
    decreases |b|, 0
  {
    if a[0] == b[0] {
      SubsequenceGrows(a[1..], b[1..], b[0]);
    } else {
      SubsequenceDrops(a, b[1..]);
      SubsequenceGrows(a[1..], b[1..], b[0]);
    }
    assert [b[0]] + b[1..] == b;
  }

  lemma {:induction false} SubsequenceTransitive(a: seq<int>, b: seq<int>, c: seq<int>)
    requires Subsequence(a, b) && Subsequence(b, c)
    ensures Subsequence(a, c)
    decreases |c|
  {
    if a != [] {
      if b[0] != c[0] {
        SubsequenceTransitive(a, b, c[1..]);
        SubsequenceGrows(a, c[1..], c[0]);
      } else if a[0] == b[0] {
        SubsequenceTransitive(a[1..], b[1..], c[1..]);
      } else {
        SubsequenceTransitive(a, b[1..], c[1..]);
        SubsequenceGrows(a, c[1..], c[0]);
      }
      assert [c[0]] + c[1..] == c;
    }
  }

  /** The block that covers unit `u` is free and first in the bin of its span, and everything else in the
      bins stands where it stood, in the order it had. */
  ghost predicate PutInFront(lists: seq<seq<int>>, b2: Blocks, lists2: seq<seq<int>>, u: int) {
    exists i :: InFront(lists, b2, lists2, u, i)
  }

  ghost predicate InFront(lists: seq<seq<int>>, b2: Blocks, lists2: seq<seq<int>>, u: int, i: int) {
    && |lists| == |lists2| == 10 && 0 <= i < 10 && lists2[i] != []
    && (var g := lists2[i][0];
        && Covers(b2, g, u) && b2[g].free
        && (i < 9 ==> b2[g].span < [8, 16, 32, 64, 128, 256, 512, 1024, 2048][i])
        && (0 < i ==> [8, 16, 32, 64, 128, 256, 512, 1024, 2048][i - 1] <= b2[g].span))
    && Subsequence(lists2[i][1..], lists[i])
    && forall j {:trigger lists2[j]} :: 0 <= j < 10 && j != i ==> Subsequence(lists2[j], lists[j])
  }

  lemma TakingOutKeepsOrder(lists: seq<seq<int>>, b: Blocks, c: int, j: int)
    requires |lists| == NUM_BINS && c in b && 0 <= j < NUM_BINS
    ensures Subsequence(TakeOut(lists, b, c)[j], lists[j])
  {
    SubsequenceSelf(lists[j]);
    WithoutIsSubsequence(lists[j], c);
  }

  lemma AbsorbingKeepsOrder(b: Blocks, lists: seq<seq<int>>, c: int, j: int)
    requires |lists| == NUM_BINS && c in b && 0 <= j < NUM_BINS && MergeStart(AbsorbNext(b, c), c) == MergeStart(b, c)
    requires MergeStart(b, c) in AbsorbNext(b, c) && c in AbsorbNext(b, c)
    ensures Subsequence(BinsAfterPrev(AbsorbNext(b, c), BinsAfterNext(b, lists, c), c)[j], lists[j])
  {
    hide TakeOut, AbsorbNext, MergeStart, Subsequence;
    var mid := BinsAfterNext(b, lists, c);
    SubsequenceSelf(lists[j]);
    SubsequenceSelf(mid[j]);
    var n := c + b[c].span;
    if n in b && b[n].free { TakingOutKeepsOrder(lists, b, n, j); }
    var e := AbsorbNext(b, c);
    if MergeStart(e, c) != c { TakingOutKeepsOrder(mid, e, MergeStart(e, c), j); }
    SubsequenceTransitive(BinsAfterPrev(e, mid, c)[j], mid[j], lists[j]);
  }

  /** Rebinning block `c` puts the merged block in front of its bin and moves nothing else. */
  lemma RebinningPutsInFront(b: Blocks, lo: int, hi: int, lists: seq<seq<int>>, c: int)
    requires Tiled(b, lo, hi) && c in b && b[c].free && |lists| == NUM_BINS && NoFreeNeighboursBut(b, c)
    ensures PutInFront(lists, Coalesced(b, c), Rebinned(b, lists, c), c)
  {
    var g, f, l2 := MergeStart(b, c), Coalesced(b, c), Rebinned(b, lists, c);
    AbsorbingCoalesces(b, lo, hi, c);
    MergeStartIs(b, lo, hi, c);
    assert Covers(f, g, c) && f[g].free by { assert b[c].span >= 1; }
    var i := GetBinIndex(f[g].span);
    var mid := BinsAfterPrev(AbsorbNext(b, c), BinsAfterNext(b, lists, c), c);
    assert l2 == mid[i := [g] + mid[i]];
    forall j | 0 <= j < NUM_BINS
      ensures Subsequence(mid[j], lists[j])
    {
      AbsorbingKeepsOrder(b, lists, c, j);
    }
    hide Subsequence, Coalesced, Rebinned, BinsAfterPrev, BinsAfterNext, MergeStart;
    assert l2[i][1..] == mid[i];
    assert InFront(lists, f, l2, c, i);
  }
}
