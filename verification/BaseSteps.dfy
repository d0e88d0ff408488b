/** Freeing, growing and allocating in the baseline heap, as steps between layouts. */
module BaseSteps {
  import opened Tiling
  import opened Chunk
  import opened BinLists
  import opened UsedUnits
  import opened BaseLayout
  import opened Regions

  // Freeing: link in address order, then merge with the list neighbours that touch.

  lemma SortedOrder(l: seq<int>, i: int, j: int)
    requires Sorted(l) && 0 <= i < |l| && 0 <= j < |l|
    ensures i < j <==> l[i] < l[j]
  {
  }

  lemma BetweenOrder(l: seq<int>, c: int, k: int, i: int)
    requires Sorted(l) && Between(l, c, k) && c !in l && 0 <= i < |l|
    ensures i < k <==> l[i] < c
    ensures i < k ==> l[i] <= l[k - 1]
  {
    if k < |l| { SortedOrder(l, k, i); }
    if 0 < k { SortedOrder(l, k - 1, i); }
  }

  /** `p` is the free block of highest address below `c`, or null when there is none. */
  ghost predicate IsLastBelow(b: Blocks, p: int, c: int) {
    && (p != NULL ==> p in b && b[p].free && p < c)
    && (forall a {:trigger b[a]} :: a in b && b[a].free && a < c ==> p != NULL && a <= p)
  }

  lemma PlaceIsBelow(s: Layout, c: int, k: int)
    requires Inv(s) && c in s.blocks && !s.blocks[c].free && Between(s.free, c, k)
    ensures IsLastBelow(s.blocks, if 0 < k then s.free[k - 1] else NULL, c)
  {
    if 0 < k { NodeFacts(s, k - 1); }
    forall a | a in s.blocks && s.blocks[a].free && a < c
      ensures 0 < k && a <= s.free[k - 1]
    {
      var i :| 0 <= i < |s.free| && s.free[i] == a;
      BetweenOrder(s.free, c, k, i);
    }
  }

  /** The free predecessor of `c`, if any, is the list node before its place. */
  lemma PredecessorIsListed(s: Layout, c: int, k: int)
    requires Inv(s) && c in s.blocks && !s.blocks[c].free && Between(s.free, c, k)
    requires 0 < k ==> s.free[k - 1] in s.blocks
    ensures MergeStart(SetFree(s.blocks, c), c) ==
            if 0 < k && s.free[k - 1] + s.blocks[s.free[k - 1]].span == c then s.free[k - 1] else c
  {
    var b := SetFree(s.blocks, c);
    var p := MergeStart(b, c);
    SetFreeKeepsTiling(s.blocks, s.lo, s.hi, c);
    MergeStartIs(b, s.lo, s.hi, c);
    if 0 < k {
      NodeFacts(s, k - 1);
      assert b[s.free[k - 1]] == s.blocks[s.free[k - 1]];
    }
    if p != c {
      assert s.blocks[p].free && s.blocks[p].span >= 1;
      var i :| 0 <= i < |s.free| && s.free[i] == p;
      BetweenOrder(s.free, c, k, i);
    }
  }

  /** A free successor of a listed block is the next list node, and conversely. */
  lemma SuccessorIsListed(s: Layout, k: int)
    requires Inv(s) && 0 <= k < |s.free| && s.free[k] in s.blocks
    ensures var n := s.free[k] + s.blocks[s.free[k]].span;
      n in s.blocks && s.blocks[n].free <==> k + 1 < |s.free| && s.free[k + 1] == n
  {
    var c := s.free[k];
    var n := c + s.blocks[c].span;
    NodeFacts(s, k);
    if k + 1 < |s.free| { NodeFacts(s, k + 1); }
    if n in s.blocks && s.blocks[n].free {
      var i :| 0 <= i < |s.free| && s.free[i] == n;
      SortedOrder(s.free, k, i);
      SortedOrder(s.free, i, k + 1);
    }
  }

  /** From `s`, block `c` is linked at position `k` (`t1`), merged with the node before it when they
      touch (`t2`), and with the node after it when they touch (`t3`). */
  ghost predicate FreedThrough(s: Layout, t1: Layout, t2: Layout, t3: Layout, c: int, k: int, low: bool, high: bool) {
    && InsertedAt(s, t1, c, k)
    && (low <==> 0 < k && s.free[k - 1] in s.blocks && s.free[k - 1] + s.blocks[s.free[k - 1]].span == c)
    && (if low then FusedAt(t1, t2, k - 1) else t2 == t1)
    && (var j := if low then k - 1 else k;
        && 0 <= j < |t2.free| && t2.free[j] in t2.blocks
        && (var n := t2.free[j] + t2.blocks[t2.free[j]].span; high <==> n in t2.blocks && t2.blocks[n].free)
        && (if high then FusedAt(t2, t3, j) else t3 == t2))
  }

  lemma FreedKeepsInv(s: Layout, t1: Layout, t2: Layout, t3: Layout, c: int, k: int, low: bool, high: bool)
    requires Inv(s) && c in s.blocks && !s.blocks[c].free && FreedThrough(s, t1, t2, t3, c, k, low, high)
    ensures Inv(t1) && Inv(t2) && Inv(t3)
  {
    hide Inv, InsertedAt, FusedAt;
    InsertedPlace(s, t1, c, k);
    InsertKeepsInv(s, t1, c, k);
    if low { FuseAtKeepsInv(t1, t2, k - 1); }
    if high { FuseAtKeepsInv(t2, t3, if low then k - 1 else k); }
  }

  lemma InsertedPlace(s: Layout, t: Layout, c: int, k: int)
    requires InsertedAt(s, t, c, k)
    ensures Between(s.free, c, k) && c in s.blocks && t.blocks == SetFree(s.blocks, c) && t.lo == s.lo && t.hi == s.hi
    ensures t.free == s.free[..k] + [c] + s.free[k..]
  {
  }

  lemma FusedPlace(s: Layout, t: Layout, k: int)
    requires FusedAt(s, t, k)
    ensures 0 <= k && k + 1 < |s.free| && s.free[k] in s.blocks && s.free[k + 1] in s.blocks
    ensures s.free[k] + s.blocks[s.free[k]].span == s.free[k + 1]
    ensures t.blocks == Fuse(s.blocks, s.free[k], s.free[k + 1]) && t.lo == s.lo && t.hi == s.hi
    ensures t.free == s.free[..k + 1] + s.free[k + 2..]
  {
  }

  /** What the blocks are after linking `c` and merging it downwards. */
  lemma FreedBelow(s: Layout, t1: Layout, t2: Layout, c: int, k: int, low: bool)
    requires Inv(s) && c in s.blocks && !s.blocks[c].free && InsertedAt(s, t1, c, k)
    requires low <==> 0 < k && s.free[k - 1] in s.blocks && s.free[k - 1] + s.blocks[s.free[k - 1]].span == c
    requires if low then FusedAt(t1, t2, k - 1) else t2 == t1
    ensures t2.blocks == AbsorbPrev(SetFree(s.blocks, c), c) && t2.lo == s.lo && t2.hi == s.hi
    ensures MergeStart(SetFree(s.blocks, c), c) == if low then s.free[k - 1] else c
    ensures var j := if low then k - 1 else k; 0 <= j < |t2.free| && t2.free[j] == MergeStart(SetFree(s.blocks, c), c)
    ensures t2.free == if low then s.free else s.free[..k] + [c] + s.free[k..]
  {
    hide InsertedAt, FusedAt;
    InsertedPlace(s, t1, c, k);
    if 0 < k { NodeFacts(s, k - 1); }
    PredecessorIsListed(s, c, k);
    hide Inv;
    if low {
      FusedPlace(t1, t2, k - 1);
      assert t2.free == s.free;
    }
  }

  /** What the blocks are after merging upwards too. */
  lemma FreedAbove(b: Blocks, lo: int, hi: int, c: int, t2: Layout, t3: Layout, j: int, high: bool)
    requires Tiled(b, lo, hi) && c in b && b[c].free && t2.blocks == AbsorbPrev(b, c)
    requires 0 <= j < |t2.free| && t2.free[j] == MergeStart(b, c) && t2.free[j] in t2.blocks
    requires var n := t2.free[j] + t2.blocks[t2.free[j]].span; high <==> n in t2.blocks && t2.blocks[n].free
    requires if high then FusedAt(t2, t3, j) else t3 == t2
    ensures t3.blocks == Coalesced(b, c) && t3.lo == t2.lo && t3.hi == t2.hi
  {
    hide FusedAt, Tiled;
    LowerFirstCoalesces(b, lo, hi, c);
    if high { FusedPlace(t2, t3, j); }
    assert t3.blocks == AbsorbNext(t2.blocks, MergeStart(b, c));
  }

  lemma FreedBlocks(s: Layout, t1: Layout, t2: Layout, t3: Layout, c: int, k: int, low: bool, high: bool)
    requires Inv(s) && c in s.blocks && !s.blocks[c].free && FreedThrough(s, t1, t2, t3, c, k, low, high)
    ensures t3.blocks == Coalesced(SetFree(s.blocks, c), c) && t3.lo == s.lo && t3.hi == s.hi
    ensures MergeStart(SetFree(s.blocks, c), c) == if low then s.free[k - 1] else c
    ensures k == |s.free| ==> t3.free == if low then s.free else s.free + [c]
  {
    hide InsertedAt, FusedAt, Coalesced, AbsorbPrev;
    FreedBelow(s, t1, t2, c, k, low);
    SetFreeKeepsTiling(s.blocks, s.lo, s.hi, c);
    hide Inv;
    var j := if low then k - 1 else k;
    FreedAbove(SetFree(s.blocks, c), s.lo, s.hi, c, t2, t3, j, high);
    if k == |s.free| {
      if high { FusedPlace(t2, t3, j); }
    }
  }

  /** Freeing in address order coalesces exactly: list neighbours alone suffice. */
  lemma FreeingCoalesces(s: Layout, t1: Layout, t2: Layout, t3: Layout, c: int, k: int, low: bool, high: bool)
    requires Inv(s) && NoFreeNeighbours(s.blocks) && c in s.blocks && !s.blocks[c].free
    requires FreedThrough(s, t1, t2, t3, c, k, low, high)
    ensures Valid(t3) && t3.blocks == Coalesced(SetFree(s.blocks, c), c)
    ensures MergeStart(SetFree(s.blocks, c), c) == if low then s.free[k - 1] else c
    ensures KeepsUsed(t3.blocks, s.m, t3.m) && t3.lo == s.lo && t3.hi == s.hi
    ensures k == |s.free| ==> t3.free == if low then s.free else s.free + [c]
  {
    hide FreedThrough, Inv, Coalesced, Tiled, NoFreeNeighbours, NoFreeNeighboursBut, KeepsUsed, MergeStart;
    FreedKeepsInv(s, t1, t2, t3, c, k, low, high);
    FreedBlocks(s, t1, t2, t3, c, k, low, high);
    FreeingKeepsUsed(s, t1, t2, t3, c, k, low, high);
    CoalescingFreedKeepsApart(s, c);
  }

  lemma CoalescingFreedKeepsApart(s: Layout, c: int)
    requires Inv(s) && NoFreeNeighbours(s.blocks) && c in s.blocks
    ensures NoFreeNeighbours(Coalesced(SetFree(s.blocks, c), c))
  {
    SetFreeKeepsTiling(s.blocks, s.lo, s.hi, c);
    CoalescedHasNoFreeNeighbours(SetFree(s.blocks, c), s.lo, s.hi, c);
  }

  lemma InsertKeepsUsed(s: Layout, t: Layout, c: int, k: int)
    requires Inv(s) && InsertedAt(s, t, c, k)
    ensures KeepsUsed(t.blocks, s.m, t.m)
  {
    if 0 < k { NodeFacts(s, k - 1); }
    forall u | 0 <= u < |s.m| && InUsed(t.blocks, u)
      ensures t.m[u] == s.m[u]
    {
      var d :| Covers(t.blocks, d, u) && !t.blocks[d].free;
      assert s.blocks[d].span >= 1;
      assert s.blocks[c].span >= 1;
    }
  }

  lemma FuseAtKeepsUsed(s: Layout, t: Layout, k: int)
    requires Inv(s) && FusedAt(s, t, k)
    ensures KeepsUsed(s.blocks, s.m, t.m)
    ensures forall m, m2 :: KeepsUsed(t.blocks, m, m2) <==> KeepsUsed(s.blocks, m, m2)
  {
    var a, c := s.free[k], s.free[k + 1];
    NodeFacts(s, k);
    NodeFacts(s, k + 1);
    forall u | 0 <= u < |s.m| && InUsed(s.blocks, u)
      ensures t.m[u] == s.m[u]
    {
      var d :| Covers(s.blocks, d, u) && !s.blocks[d].free;
      assert s.blocks[d].span >= 1;
    }
    forall m, m2
      ensures KeepsUsed(t.blocks, m, m2) <==> KeepsUsed(s.blocks, m, m2)
    {
      KeepsUsedThroughFuse(s.blocks, a, c, m, m2);
    }
  }

  lemma FreeingKeepsUsed(s: Layout, t1: Layout, t2: Layout, t3: Layout, c: int, k: int, low: bool, high: bool)
    requires Inv(s) && Inv(t1) && Inv(t2) && FreedThrough(s, t1, t2, t3, c, k, low, high)
    ensures KeepsUsed(t3.blocks, s.m, t3.m)
  {
    hide Inv, InsertedAt, FusedAt, KeepsUsed;
    InsertKeepsUsed(s, t1, c, k);
    if low {
      FuseAtKeepsUsed(t1, t2, k - 1);
      KeepsUsedTransitive(t2.blocks, s.m, t1.m, t2.m);
    }
    if high {
      FuseAtKeepsUsed(t2, t3, if low then k - 1 else k);
      KeepsUsedTransitive(t3.blocks, s.m, t2.m, t3.m);
    }
  }

  // The stores behind these steps.

  /** `s` with `c` linked at position `k`, memory being `m`. */
  ghost function LinkedIn(s: Layout, m: seq<Unit>, c: int, k: int): Layout
    requires c in s.blocks && 0 <= k <= |s.free|
  {
    s.(m := m, head := if k == 0 then c else s.head, blocks := SetFree(s.blocks, c), free := s.free[..k] + [c] + s.free[k..])
  }

  /** `s` with the list nodes at `k` and `k + 1` merged, memory being `m`. */
  ghost function MergedUp(s: Layout, m: seq<Unit>, k: int): Layout
    requires 0 <= k && k + 1 < |s.free| && s.free[k] in s.blocks && s.free[k + 1] in s.blocks
  {
    s.(m := m, blocks := Fuse(s.blocks, s.free[k], s.free[k + 1]), free := s.free[..k + 1] + s.free[k + 2..])
  }

  function FrontStores(m: seq<Unit>, c: int, next: int): (m2: seq<Unit>)
    requires 0 <= c < |m|
    ensures |m2| == |m|
  {
    var m1 := m[c := m[c].(word0 := FREE)];
    m1[c := m1[c].(link := next)]
  }

  function AfterStores(m: seq<Unit>, e: int, c: int): (m2: seq<Unit>)
    requires 0 <= c < |m| && 0 <= e < |m|
    ensures |m2| == |m|
  {
    var m1 := m[c := m[c].(link := m[e].link)];
    var m2 := m1[e := m1[e].(link := c)];
    m2[c := m2[c].(word0 := FREE)]
  }

  function CoalesceStores(m: seq<Unit>, a: int, b: int): (m2: seq<Unit>)
    requires 0 <= a < |m| && 0 <= b < |m|
    ensures |m2| == |m|
  {
    var m1 := m[a := m[a].(word1 := m[a].word1 + m[b].word1)];
    m1[a := m1[a].(link := m1[b].link)]
  }

  lemma FrontStoresLink(s: Layout, c: int)
    requires Inv(s) && c in s.blocks && Between(s.free, c, 0) && 0 <= c < |s.m|
    ensures var m := FrontStores(s.m, c, HeadOf(s.free)); InsertedAt(s, LinkedIn(s, m, c, 0), c, 0)
  {
    assert s.free[..0] + [c] + s.free[0..] == [c] + s.free;
  }

  lemma AfterStoresLink(s: Layout, e: int, c: int, k: int)
    requires Inv(s) && c in s.blocks && Between(s.free, c, k) && 0 < k && s.free[k - 1] == e
    requires 0 <= c < |s.m| && 0 <= e < |s.m|
    ensures InsertedAt(s, LinkedIn(s, AfterStores(s.m, e, c), c, k), c, k)
  {
    NodeFacts(s, k - 1);
  }

  lemma CoalesceStoresFuse(s: Layout, k: int)
    requires Inv(s) && 0 <= k && k + 1 < |s.free| && s.free[k] in s.blocks && s.free[k + 1] in s.blocks
    requires s.free[k] + s.blocks[s.free[k]].span == s.free[k + 1]
    requires 0 <= s.free[k] < |s.m| && 0 <= s.free[k + 1] < |s.m|
    ensures FusedAt(s, MergedUp(s, CoalesceStores(s.m, s.free[k], s.free[k + 1]), k), k)
  {
    NodeFacts(s, k);
    NodeFacts(s, k + 1);
  }

  function CarveStores(m: seq<Unit>, c: int, rest: int, tail: int): (m2: seq<Unit>)
    requires 0 <= c && 0 < rest && c + rest < |m|
    ensures |m2| == |m|
  {
    var m1 := m[c := m[c].(word1 := rest)];
    var m2 := m1[c + rest := m1[c + rest].(word1 := tail)];
    var m3 := m2[c + rest := m2[c + rest].(word0 := USED)];
    m3[c + rest := m3[c + rest].(link := m3[c].link)]
  }

  lemma CarveStoresCarve(s: Layout, t: Layout, c: int, tail: int)
    requires Inv(s) && c in s.blocks && 0 < c && 1 <= tail < s.blocks[c].span && c + s.blocks[c].span <= |s.m|
    requires t == s.(m := CarveStores(s.m, c, s.blocks[c].span - tail, tail), blocks := Carve(s.blocks, c, tail))
    ensures CarvedAt(s, t, c, tail)
  {
  }

  lemma CarveAtKeepsUsed(s: Layout, t: Layout, c: int, tail: int)
    requires Inv(s) && CarvedAt(s, t, c, tail) && s.blocks[c].free
    ensures KeepsUsed(s.blocks, s.m, t.m)
  {
    forall u | 0 <= u < |s.m| && InUsed(s.blocks, u)
      ensures t.m[u] == s.m[u]
    {
      var d :| Covers(s.blocks, d, u) && !s.blocks[d].free;
      assert s.blocks[c].span >= 1;
    }
  }

  function DetachStores(m: seq<Unit>, prev: int, c: int): (m2: seq<Unit>)
    requires 0 <= c < |m| && 0 <= prev < |m|
    ensures |m2| == |m|
  {
    var m1 := if prev == NULL then m else m[prev := m[prev].(link := m[c].link)];
    var m2 := m1[c := m1[c].(link := NULL)];
    m2[c := m2[c].(word0 := USED)]
  }

  lemma DetachStoresDetach(s: Layout, t: Layout, k: int)
    requires Inv(s) && 0 <= k < |s.free| && 0 <= s.free[k] < |s.m| && 0 <= PrevIn(s.free, k) < |s.m|
    requires s.free[k] in s.blocks
    requires t == s.(m := DetachStores(s.m, PrevIn(s.free, k), s.free[k]), head := if k == 0 then NextIn(s.free, k) else s.head,
                     blocks := s.blocks[s.free[k] := s.blocks[s.free[k]].(free := false)], free := s.free[..k] + s.free[k + 1..])
    ensures DetachedAt(s, t, k)
  {
    NodeFacts(s, k);
    if 0 < k { NodeFacts(s, k - 1); }
  }

  lemma DetachAtKeepsUsed(s: Layout, t: Layout, k: int)
    requires Inv(s) && DetachedAt(s, t, k)
    ensures KeepsUsed(s.blocks, s.m, t.m)
  {
    NodeFacts(s, k);
    if 0 < k { NodeFacts(s, k - 1); }
    forall u | 0 <= u < |s.m| && InUsed(s.blocks, u)
      ensures t.m[u] == s.m[u]
    {
      var d :| Covers(s.blocks, d, u) && !s.blocks[d].free;
    }
  }

  // Growing.

  const SYS_MIN_ALLOC_UNITS := 1024

  function GrowSpan(need: int): int {
    1 + if need < SYS_MIN_ALLOC_UNITS then SYS_MIN_ALLOC_UNITS else need
  }

  /** The blocks after a successful grow. */
  ghost function GrownBlocks(s: Layout, need: int): Blocks {
    var e := Extended(s.blocks, s.hi, GrowSpan(need));
    Coalesced(e, s.hi)
  }

  /** Where the grown block starts. */
  ghost function GrownAt(s: Layout, need: int): int {
    MergeStart(Extended(s.blocks, s.hi, GrowSpan(need)), s.hi)
  }

  lemma HiIsFresh(s: Layout)
    requires Inv(s)
    ensures s.hi !in s.blocks
    ensures forall a {:trigger s.blocks[a]} :: a in s.blocks ==> a + s.blocks[a].span <= s.hi && a < s.hi
  {
    forall a | a in s.blocks
      ensures a < s.hi
    {
      assert s.blocks[a].span >= 1;
    }
  }

  lemma GrownTiles(b: Blocks, lo: int, hi: int, span: int)
    requires Tiled(b, lo, hi) && 0 < span
    ensures Tiled(Coalesced(Extended(b, hi, span), hi), lo, hi + span)
  {
    hide Tiled, Coalesced;
    ExtendingKeepsTiling(b, lo, hi, span);
    CoalescedKeepsTiling(Extended(b, hi, span), lo, hi + span, hi);
  }

  /** The grown block is free, has room, and reaches the new end of the arena. When it merged into a
      free tail it has room to spare. */
  lemma GrownFits(s: Layout, need: int)
    requires Inv(s) && s.lo != NULL && 0 <= need
    ensures var b, g := GrownBlocks(s, need), GrownAt(s, need);
      && g in b && b[g].free && 0 < g <= s.hi && g + b[g].span == s.hi + GrowSpan(need) && need < b[g].span
      && (g != s.hi ==> need + 1 < b[g].span)
      && Tiled(b, s.lo, s.hi + GrowSpan(need))
  {
    HiIsFresh(s);
    var e := Extended(s.blocks, s.hi, GrowSpan(need));
    GrownTiles(s.blocks, s.lo, s.hi, GrowSpan(need));
    var g := MergeStart(e, s.hi);
    if g != s.hi { assert s.blocks[g].span >= 1 && s.blocks[g] == e[g]; }
    hide Tiled;
    assert MergeEnd(e, s.hi) == s.hi + GrowSpan(need);
  }

  /** Neither growing nor the merge after it changes a region or a used unit. */
  lemma GrowingKeepsClients(s: Layout, need: int)
    requires Inv(s)
    ensures LiveWith(GrownBlocks(s, need), 1) == LiveWith(s.blocks, 1)
    ensures forall u :: InUsed(s.blocks, u) ==> InUsed(GrownBlocks(s, need), u)
  {
    HiIsFresh(s);
    var span := GrowSpan(need);
    var e := Extended(s.blocks, s.hi, span);
    ExtendingKeepsTiling(s.blocks, s.lo, s.hi, span);
    hide Inv, Tiled;
    CoalescingKeepsRegions(e, s.lo, s.hi + span, s.hi, 1);
    ExtendingKeepsRegions(s.blocks, s.hi, span, 1);
    forall u | InUsed(s.blocks, u)
      ensures InUsed(GrownBlocks(s, need), u)
    {
      var d :| Covers(s.blocks, d, u) && !s.blocks[d].free;
      CoalescedUsed(e, s.lo, s.hi + span, s.hi, d);
      assert Covers(GrownBlocks(s, need), d, u);
    }
  }

  lemma GrowKeepsUsed(s: Layout, t: Layout, span: int)
    requires Inv(s) && GrownBy(s, t, span)
    ensures KeepsUsed(s.blocks, s.m, t.m) && (NoFreeNeighbours(s.blocks) ==> NoFreeNeighbours(t.blocks))
    ensures SetFree(t.blocks, s.hi) == Extended(s.blocks, s.hi, span)
    ensures Between(s.free, s.hi, |s.free|)
  {
    HiIsFresh(s);
    if s.free != [] { NodeFacts(s, |s.free| - 1); }
    forall u | 0 <= u < |s.m| && InUsed(s.blocks, u)
      ensures t.m[u] == s.m[u]
    {
      var d :| Covers(s.blocks, d, u) && !s.blocks[d].free;
    }
  }

  // Allocating.

  function AllocatedAt(b: Blocks, c: int, need: int): int
    requires c in b
  {
    if need + 1 < b[c].span then c + b[c].span - (need + 1) else c
  }

  /** The blocks after block `c` served a request for `need` units. */
  ghost function Allocated(b: Blocks, c: int, need: int): Blocks
    requires c in b
  {
    if need + 1 < b[c].span then Carve(b, c, need + 1) else b[c := b[c].(free := false)]
  }

  /** Serving adds one region of exactly the requested size, inside what was one free block. */
  lemma AllocatingAddsRegion(b: Blocks, c: int, need: int)
    requires Disjoint(b) && c in b && b[c].free && need < b[c].span && 0 <= need
    ensures var f, a := Allocated(b, c, need), AllocatedAt(b, c, need);
      && a !in LiveWith(b, 1) && LiveWith(f, 1) == LiveWith(b, 1)[a := need]
      && c <= a && a + 1 + need == c + b[c].span
  {
    var f, a := Allocated(b, c, need), AllocatedAt(b, c, need);
    if need + 1 < b[c].span { CarvePointIsFresh(b, c, need + 1); }
    var l, r := LiveWith(f, 1), LiveWith(b, 1)[a := need];
    forall x
      ensures x in l <==> x in r
      ensures x in l ==> l[x] == r[x]
    {
    }
  }

  /** It leaves no two free blocks adjacent. */
  lemma AllocatingKeepsApart(b: Blocks, lo: int, hi: int, c: int, need: int)
    requires Tiled(b, lo, hi) && NoFreeNeighbours(b) && c in b && b[c].free && need < b[c].span && 0 <= need
    ensures NoFreeNeighbours(Allocated(b, c, need))
  {
    if need + 1 < b[c].span { CarveLeavesNothingToMerge(b, lo, hi, c, need + 1); }
  }

  /** The free block of lowest address with room for `need` units. */
  ghost predicate IsFirstFit(b: Blocks, c: int, need: int) {
    c in b && b[c].free && need < b[c].span && forall a {:trigger b[a]} :: a in b && b[a].free && a < c ==> b[a].span <= need
  }

  ghost predicate NoRoom(b: Blocks, need: int) {
    forall a {:trigger b[a]} :: a in b && b[a].free ==> b[a].span <= need
  }

  /** The exact outcome of a request: the first fit in address order serves it; when no free block
      has room, the grown block does, or the kernel refused and nothing changed. */
  ghost predicate MallocOutcome(s: Layout, need: int, p: int, t: Layout) {
    if p == NULL then t == s && NoRoom(s.blocks, need)
    else if NoRoom(s.blocks, need) then
      var b, g := GrownBlocks(s, need), GrownAt(s, need);
      && g in b && p == AllocatedAt(b, g, need) + 1 && t.blocks == Allocated(b, g, need)
      && t.lo == s.lo && t.hi == s.hi + GrowSpan(need)
    else
      exists c :: IsFirstFit(s.blocks, c, need) && p == AllocatedAt(s.blocks, c, need) + 1
               && t.blocks == Allocated(s.blocks, c, need) && t.lo == s.lo && t.hi == s.hi
  }

  /** In numbers: a request of `need` units is served from the end of the lowest free block with room. When
      there is none, the arena grows by one unit and at least 1024 and the request is served from its new
      end, or it is refused. */
  ghost predicate ChoosesLowest(s: Layout, need: int, p: int, t: Layout) {
    if exists c :: c in s.blocks && s.blocks[c].free && need < s.blocks[c].span then
      t.hi == s.hi && exists c ::
        && c in s.blocks && s.blocks[c].free && need < s.blocks[c].span && p == c + s.blocks[c].span - need
        && forall a {:trigger s.blocks[a]} :: a in s.blocks && a < c && s.blocks[a].free ==> s.blocks[a].span <= need
    else
      && t.hi == (if p == NULL then s.hi else s.hi + 1 + if need < 1024 then 1024 else need)
      && (p != NULL ==> p == t.hi - need)
  }

  lemma OutcomeChooses(s: Layout, need: int, p: int, t: Layout)
    requires Inv(s) && s.lo != NULL && 0 <= need && MallocOutcome(s, need, p, t)
    ensures ChoosesLowest(s, need, p, t)
  {
    GrownFits(s, need);
    hide Inv, GrownBlocks, GrownAt, Allocated, Tiled;
    if !NoRoom(s.blocks, need) {
      var c :| IsFirstFit(s.blocks, c, need) && p == AllocatedAt(s.blocks, c, need) + 1 && t.hi == s.hi;
      LowestServes(s, need, p, t, c);
    }
  }

  lemma LowestServes(s: Layout, need: int, p: int, t: Layout, c: int)
    requires IsFirstFit(s.blocks, c, need) && p == AllocatedAt(s.blocks, c, need) + 1 && t.hi == s.hi
    ensures ChoosesLowest(s, need, p, t)
  {
    assert p == c + s.blocks[c].span - need;
  }

  /** Scanning the list finds the first fit of the arena, for the list is in address order. */
  lemma ScanIsFirstFit(s: Layout, need: int, k: int)
    requires Inv(s) && 0 <= k <= |s.free|
    requires forall j {:trigger s.free[j]} :: 0 <= j < k ==> s.free[j] in s.blocks && s.blocks[s.free[j]].span <= need
    requires k < |s.free| ==> s.free[k] in s.blocks && need < s.blocks[s.free[k]].span
    ensures if k < |s.free| then IsFirstFit(s.blocks, s.free[k], need) else NoRoom(s.blocks, need)
    ensures k < |s.free| ==> !NoRoom(s.blocks, need)
  {
    if k < |s.free| { NodeFacts(s, k); }
    forall a | a in s.blocks && s.blocks[a].free && (k < |s.free| ==> a < s.free[k])
      ensures s.blocks[a].span <= need
    {
      var i :| 0 <= i < |s.free| && s.free[i] == a;
      if k < |s.free| { SortedOrder(s.free, i, k); }
    }
  }

  /** A step of the abstract allocator that never rounds a request up. */
  ghost predicate ExactMallocStep(before: Live, units: int, p: int, after: Live) {
    && (p == NULL ==> after == before)
    && (p != NULL ==> p - 1 !in before && after == before[p - 1 := units] && Separate(after))
  }

  lemma LiveIsSeparate(s: Layout)
    requires Inv(s)
    ensures Separate(LiveWith(s.blocks, 1))
  {
    var live := LiveWith(s.blocks, 1);
    forall a, c | a in live && c in live && a < c
      ensures a + 1 + live[a] < c + 1
    {
      assert s.blocks[a].span >= 1 && s.blocks[c].span >= 1;
    }
  }

  lemma ServingIsAStep(b: Blocks, c: int, need: int)
    requires Disjoint(b) && c in b && b[c].free && need < b[c].span && 0 <= need && 0 < c
    requires Separate(LiveWith(Allocated(b, c, need), 1))
    ensures ExactMallocStep(LiveWith(b, 1), need, AllocatedAt(b, c, need) + 1, LiveWith(Allocated(b, c, need), 1))
  {
    hide Separate, LiveWith, Allocated;
    AllocatingAddsRegion(b, c, need);
  }

  lemma ServingGrownIsAStep(s: Layout, need: int)
    requires Inv(s) && s.lo != NULL && 0 <= need
    requires GrownAt(s, need) in GrownBlocks(s, need)
    requires Separate(LiveWith(Allocated(GrownBlocks(s, need), GrownAt(s, need), need), 1))
    ensures ExactMallocStep(LiveWith(s.blocks, 1), need, AllocatedAt(GrownBlocks(s, need), GrownAt(s, need), need) + 1,
                            LiveWith(Allocated(GrownBlocks(s, need), GrownAt(s, need), need), 1))
  {
    hide Separate, LiveWith, Allocated, AllocatedAt, GrownBlocks, GrownAt, ExactMallocStep, Inv;
    GrownFits(s, need);
    GrowingKeepsClients(s, need);
    ServingIsAStep(GrownBlocks(s, need), GrownAt(s, need), need);
  }

  /** The outcome of a request is a step of the abstract allocator. */
  lemma MallocRefines(s: Layout, need: int, p: int, t: Layout)
    requires Inv(s) && s.lo != NULL && Inv(t) && 0 <= need && MallocOutcome(s, need, p, t)
    ensures ExactMallocStep(LiveWith(s.blocks, 1), need, p, LiveWith(t.blocks, 1))
  {
    hide Separate, LiveWith, Allocated, AllocatedAt, GrownBlocks, GrownAt;
    LiveIsSeparate(t);
    if p != NULL && NoRoom(s.blocks, need) {
      ServingGrownIsAStep(s, need);
    } else if p != NULL {
      var c :| IsFirstFit(s.blocks, c, need) && p == AllocatedAt(s.blocks, c, need) + 1 && t.blocks == Allocated(s.blocks, c, need);
      BlockFacts(s, c);
      hide Inv;
      ServingIsAStep(s.blocks, c, need);
    }
  }

  /** A store inside the payload of a used block keeps the invariant. */
  lemma PayloadWriteKeepsInv(s: Layout, c: int, u: int, v: Unit)
    requires Inv(s) && c in s.blocks && !s.blocks[c].free && c < u < c + s.blocks[c].span <= |s.m| && 0 <= c
    ensures Inv(s.(m := s.m[u := v]))
  {
    var t := s.(m := s.m[u := v]);
    forall a | a in s.blocks
      ensures t.m[a] == s.m[a]
    {
      assert s.blocks[a].span >= 1;
    }
    forall j | 0 <= j < |t.free|
      ensures LinkOk(t, j)
    {
      NodeFacts(s, j);
    }
  }
}
