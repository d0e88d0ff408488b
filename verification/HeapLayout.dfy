/** The contents of a segregated-bin heap as a value, its invariant, and what the steps of the
    manager do to it. */
module HeapLayout {
  import opened Tiling
  import opened Chunk
  import opened BinLists
  import opened UsedUnits

  const NUM_BINS := 10

  function GetBinIndex(span: int): (i: int)
    ensures 0 <= i < NUM_BINS
  {
    if span < 8 then 0
    else if span < 16 then 1
    else if span < 32 then 2
    else if span < 64 then 3
    else if span < 128 then 4
    else if span < 256 then 5
    else if span < 512 then 6
    else if span < 1024 then 7
    else if span < 2048 then 8
    else 9
  }

  /** Memory and bin heads, with the blocks and bin contents they represent. */
  datatype Layout = Layout(
    m: seq<Unit>,
    bins: seq<int>,
    lo: int,
    hi: int,
    blocks: Blocks,
    lists: seq<seq<int>>)

  ghost predicate Bounded(s: Layout) {
    && |s.bins| == NUM_BINS == |s.lists|
    && (if s.lo == NULL then s.hi == NULL else 0 < s.lo <= s.hi <= |s.m|)
    && Tiled(s.blocks, s.lo, s.hi)
    && (forall a {:trigger s.blocks[a]} :: a in s.blocks ==> 0 < a && 2 <= s.blocks[a].span && a + s.blocks[a].span <= |s.m|)
  }

  function Foot(b: Blocks, a: int): int
    requires a in b
  {
    a + b[a].span - 1
  }

  /** Headers and footers in memory say what `blocks` says. */
  ghost predicate Tagged(s: Layout)
    requires Bounded(s)
  {
    forall a {:trigger s.blocks[a]} :: a in s.blocks ==>
      && s.m[a].word0 == (if s.blocks[a].free then FREE else USED)
      && s.m[a].word1 == s.blocks[a].span
      && s.m[Foot(s.blocks, a)].word0 == s.blocks[a].span
  }

  /** Used blocks, and the free blocks in `loose`, have null links. */
  ghost predicate Unlinked(s: Layout, loose: set<int>)
    requires Bounded(s)
  {
    forall a {:trigger s.blocks[a]} :: a in s.blocks && (!s.blocks[a].free || a in loose) ==>
      s.m[a].link == NULL && s.m[Foot(s.blocks, a)].link == NULL
  }

  /** Bin `i` holds exactly the free blocks of its size class, except those in `loose`. */
  ghost predicate Binned(b: Blocks, lists: seq<seq<int>>, loose: set<int>)
    requires |lists| == NUM_BINS
  {
    && (forall i, c {:trigger c in lists[i]} :: 0 <= i < NUM_BINS && c in lists[i] ==>
          c in b && b[c].free && GetBinIndex(b[c].span) == i && c !in loose)
    && (forall c {:trigger b[c]} :: c in b && b[c].free && c !in loose ==> c in lists[GetBinIndex(b[c].span)])
    && (forall c {:trigger c in loose} :: c in loose ==> c in b && b[c].free)
    && (forall i {:trigger lists[i]} :: 0 <= i < NUM_BINS ==> Distinct(lists[i]))
  }

  /** The links of the node at position `k` of bin `i`. */
  ghost predicate LinkOk(s: Layout, i: int, k: int)
    requires Bounded(s) && 0 <= i < NUM_BINS && 0 <= k < |s.lists[i]|
  {
    var c := s.lists[i][k];
    && c in s.blocks
    && s.m[c].link == NextIn(s.lists[i], k)
    && s.m[Foot(s.blocks, c)].link == PrevIn(s.lists[i], k)
  }

  ghost predicate Linked(s: Layout)
    requires Bounded(s)
  {
    && (forall i {:trigger s.lists[i]} :: 0 <= i < NUM_BINS ==> s.bins[i] == HeadOf(s.lists[i]))
    && (forall i, k {:trigger LinkOk(s, i, k)} :: 0 <= i < NUM_BINS && 0 <= k < |s.lists[i]| ==> LinkOk(s, i, k))
  }

  /** The heap invariant while the free blocks in `loose` are in no bin. */
  ghost predicate Inv(s: Layout, loose: set<int>) {
    Bounded(s) && Tagged(s) && Unlinked(s, loose) && Binned(s.blocks, s.lists, loose) && Linked(s)
  }

  ghost predicate Valid(s: Layout) {
    Inv(s, {}) && NoFreeNeighbours(s.blocks)
  }

  /** `m2` has every status, span and footer span as `m` has it. */
  ghost predicate KeepsWords(m: seq<Unit>, m2: seq<Unit>) {
    |m2| == |m| && forall u {:trigger m2[u]} :: 0 <= u < |m| ==> m2[u].word0 == m[u].word0 && m2[u].word1 == m[u].word1
  }

  // Navigation by boundary tags.

  /** The block physically before `c`. */
  ghost predicate Precedes(b: Blocks, p: int, c: int) {
    p in b && p + b[p].span == c
  }

  /** Forward navigation from any block lands on a block or on the end of the arena, and the unit
      below any block but the first is the footer of its predecessor, whose span leads back to it. */
  lemma BoundaryTags(s: Layout, loose: set<int>, c: int) returns (p: int)
    requires Inv(s, loose) && c in s.blocks
    ensures 0 < s.lo <= c && s.hi <= |s.m| && c + s.blocks[c].span <= s.hi
    ensures s.m[c].word1 == s.blocks[c].span >= 2
    ensures s.m[Foot(s.blocks, c)].word0 == s.blocks[c].span
    ensures s.m[c].word0 == if s.blocks[c].free then FREE else USED
    ensures c + s.blocks[c].span == s.hi || c + s.blocks[c].span in s.blocks
    ensures s.lo < c ==> Precedes(s.blocks, p, c) && s.m[c - 1].word0 == s.blocks[p].span == s.m[p].word1
    ensures forall q :: Precedes(s.blocks, q, c) ==> s.lo < c && q == p
  {
    assert s.blocks[c].span >= 2;
    assert EndsAtBoundary(s.blocks, s.hi, c);
    p := NULL;
    if s.lo < c {
      p := PredecessorExists(s.blocks, s.lo, s.hi, c);
      assert s.blocks[p].span >= 2;
    }
    forall q | Precedes(s.blocks, q, c)
      ensures s.lo < c && q == p
    {
      assert s.blocks[q].span >= 2;
    }
  }

  lemma LooseIsFree(s: Layout, loose: set<int>, c: int)
    requires Inv(s, loose) && c in loose
    ensures c in s.blocks && s.blocks[c].free && s.blocks[c].span >= 2
  {
  }

  lemma LooseLinks(s: Layout, loose: set<int>, c: int)
    requires Inv(s, loose) && c in loose
    ensures c in s.blocks && 0 < c && Foot(s.blocks, c) < |s.m|
    ensures s.m[c].link == NULL && s.m[Foot(s.blocks, c)].link == NULL
  {
  }

  // Taking a free block out of its bin.

  /** The links after `c`, between `prev` and `next`, left its list. */
  function DetachLink(b: Blocks, c: int, prev: int, next: int, u: int, link: int): int
    requires c in b && (next != NULL ==> next in b)
  {
    if u == c || u == Foot(b, c) then NULL
    else if prev != NULL && u == prev then next
    else if next != NULL && u == Foot(b, next) then prev
    else link
  }

  /** `m2` differs from `m` only by the link changes of detaching `c`. */
  ghost predicate Detaches(b: Blocks, m: seq<Unit>, m2: seq<Unit>, c: int, prev: int, next: int)
    requires c in b && (next != NULL ==> next in b)
  {
    && |m2| == |m|
    && (forall u {:trigger m2[u]} :: 0 <= u < |m| ==>
          m2[u] == m[u].(link := DetachLink(b, c, prev, next, u, m[u].link)))
  }

  /** Of the units of another block `d`, only the header link of `prev` and the footer link of `next` change. */
  lemma DetachLinkAt(b: Blocks, c: int, prev: int, next: int, d: int, l: int)
    requires Disjoint(b) && (forall a {:trigger b[a]} :: a in b ==> b[a].span >= 2)
    requires c in b && d in b && c != d && (next != NULL ==> next in b) && (prev != NULL ==> prev in b)
    ensures DetachLink(b, c, prev, next, d, l) == if prev != NULL && d == prev then next else l
    ensures DetachLink(b, c, prev, next, Foot(b, d), l) == if next != NULL && d == next then prev else l
  {
    assert b[c].span >= 2 && b[d].span >= 2;
    if prev != NULL { assert b[prev].span >= 2; }
    if next != NULL { assert b[next].span >= 2; }
  }

  /** A block has one place in the bins. */
  lemma OnePlace(s: Layout, loose: set<int>, i: int, k: int, j: int, y: int)
    requires Inv(s, loose) && 0 <= i < NUM_BINS && 0 <= k < |s.lists[i]| && 0 <= j < NUM_BINS && 0 <= y < |s.lists[j]|
    ensures s.lists[i][k] == s.lists[j][y] <==> i == j && k == y
    ensures s.lists[i][k] in s.blocks && s.lists[i][k] != NULL
  {
    assert s.lists[i][k] in s.lists[i] && s.lists[j][y] in s.lists[j];
    assert s.blocks[s.lists[i][k]].span >= 2;
  }

  lemma DetachKeepsLink(s: Layout, t: Layout, loose: set<int>, i: int, k: int, j: int, x: int)
    requires Inv(s, loose) && 0 <= i < NUM_BINS && 0 <= k < |s.lists[i]|
    requires var c := s.lists[i][k]; var prev, next := PrevIn(s.lists[i], k), NextIn(s.lists[i], k);
      && c in s.blocks && (next != NULL ==> next in s.blocks)
      && Detaches(s.blocks, s.m, t.m, c, prev, next)
    requires Bounded(t) && t.blocks == s.blocks
    requires t.lists == s.lists[i := s.lists[i][..k] + s.lists[i][k + 1..]]
    requires 0 <= j < NUM_BINS && 0 <= x < |t.lists[j]|
    ensures LinkOk(t, j, x)
  {
    var c, prev, next := s.lists[i][k], PrevIn(s.lists[i], k), NextIn(s.lists[i], k);
    var y := if j == i && k <= x then x + 1 else x;
    var d := s.lists[j][y];
    assert LinkOk(s, j, y) && s.blocks[d].span >= 2;
    OnePlace(s, loose, i, k, j, y);
    if k > 0 { OnePlace(s, loose, i, k - 1, j, y); }
    if k + 1 < |s.lists[i]| { OnePlace(s, loose, i, k + 1, j, y); }
    DetachLinkAt(s.blocks, c, prev, next, d, s.m[d].link);
    DetachLinkAt(s.blocks, c, prev, next, d, s.m[Foot(s.blocks, d)].link);
    DetachedLinkOk(s, t, i, k, j, x, y);
  }

  lemma DetachedLinkOk(s: Layout, t: Layout, i: int, k: int, j: int, x: int, y: int)
    requires Bounded(s) && Bounded(t) && t.blocks == s.blocks && |t.m| == |s.m|
    requires 0 <= i < NUM_BINS && 0 <= k < |s.lists[i]|
    requires t.lists == s.lists[i := s.lists[i][..k] + s.lists[i][k + 1..]]
    requires 0 <= j < NUM_BINS && 0 <= x < |t.lists[j]| && y == (if j == i && k <= x then x + 1 else x)
    requires LinkOk(s, j, y)
    requires 0 < k ==> (s.lists[i][k - 1] == s.lists[j][y] <==> i == j && y == k - 1) && s.lists[i][k - 1] != NULL
    requires k + 1 < |s.lists[i]| ==> (s.lists[i][k + 1] == s.lists[j][y] <==> i == j && y == k + 1) && s.lists[i][k + 1] != NULL
    requires var d, prev, next := s.lists[j][y], PrevIn(s.lists[i], k), NextIn(s.lists[i], k);
      && t.m[d].link == (if prev != NULL && d == prev then next else s.m[d].link)
      && t.m[Foot(s.blocks, d)].link == (if next != NULL && d == next then prev else s.m[Foot(s.blocks, d)].link)
    ensures LinkOk(t, j, x)
  {
    assert t.lists[j][x] == s.lists[j][y];
  }

  /** The bins with block `c` taken out of the one for its span. */
  ghost function TakeOut(lists: seq<seq<int>>, b: Blocks, c: int): seq<seq<int>>
    requires |lists| == NUM_BINS && c in b
  {
    var i := GetBinIndex(b[c].span);
    lists[i := Without(lists[i], c)]
  }

  /** The whole effect of detaching the block at position `k` of bin `i`. */
  ghost predicate DetachedAt(s: Layout, t: Layout, i: int, k: int)
    requires |s.bins| == NUM_BINS == |s.lists| && 0 <= i < NUM_BINS && 0 <= k < |s.lists[i]|
  {
    var c := s.lists[i][k];
    var prev, next := PrevIn(s.lists[i], k), NextIn(s.lists[i], k);
    && c in s.blocks && (next != NULL ==> next in s.blocks)
    && Detaches(s.blocks, s.m, t.m, c, prev, next)
    && t.bins == (if prev == NULL then s.bins[i := next] else s.bins)
    && t.lists == s.lists[i := s.lists[i][..k] + s.lists[i][k + 1..]]
    && t.blocks == s.blocks && t.lo == s.lo && t.hi == s.hi
  }

  /** The stores of detaching, in order. */
  function DetachStores(m: seq<Unit>, c: int, prev: int, next: int): (m2: seq<Unit>)
    requires HasFoot(m, c) && (prev != NULL ==> 0 < prev < |m|) && (next != NULL ==> HasFoot(m, next))
    ensures |m2| == |m|
  {
    var m1 := if prev != NULL then WithNext(m, prev, next) else m;
    var m2 := if next != NULL then WithPrev(m1, next, prev) else m1;
    WithPrev(WithNext(m2, c, NULL), c, NULL)
  }

  predicate HasFoot(m: seq<Unit>, c: int) {
    0 < c && 2 <= |m| && c < |m| && 2 <= m[c].word1 && c + m[c].word1 <= |m|
  }

  lemma DetachStoresDetach(s: Layout, loose: set<int>, i: int, k: int)
    requires Inv(s, loose) && 0 <= i < NUM_BINS && 0 <= k < |s.lists[i]|
    ensures var c := s.lists[i][k]; var prev, next := PrevIn(s.lists[i], k), NextIn(s.lists[i], k);
      && c in s.blocks && HasFoot(s.m, c) && (prev != NULL ==> 0 < prev < |s.m|)
      && (next != NULL ==> next in s.blocks && HasFoot(s.m, next))
      && Detaches(s.blocks, s.m, DetachStores(s.m, c, prev, next), c, prev, next)
  {
    DetachLinksAreFree(s, loose, i, k);
    var c := s.lists[i][k];
    var prev, next := PrevIn(s.lists[i], k), NextIn(s.lists[i], k);
    assert s.blocks[c].span >= 2;
    if next != NULL { assert s.blocks[next].span >= 2; }
    if prev != NULL { assert s.blocks[prev].span >= 2; }
    hide Inv;
    DetachStoresAre(s.blocks, s.m, c, prev, next);
  }

  lemma DetachStoresAre(b: Blocks, m: seq<Unit>, c: int, prev: int, next: int)
    requires c in b && HasFoot(m, c) && m[c].word1 == b[c].span && c != prev && c != next
    requires prev != NULL ==> 0 < prev < |m| && prev in b && (prev < c ==> prev + b[prev].span <= c) && (c < prev ==> c + b[c].span <= prev)
    requires next != NULL ==> next in b && HasFoot(m, next) && m[next].word1 == b[next].span
    requires next != NULL ==> (next < c ==> next + b[next].span <= c) && (c < next ==> c + b[c].span <= next)
    requires prev != NULL && next != NULL ==> prev != next
                                              && (prev < next ==> prev + b[prev].span <= next) && (next < prev ==> next + b[next].span <= prev)
    ensures Detaches(b, m, DetachStores(m, c, prev, next), c, prev, next)
  {
  }

  lemma DetachKeepsMemory(s: Layout, t: Layout, loose: set<int>, i: int, k: int)
    requires Inv(s, loose) && 0 <= i < NUM_BINS && 0 <= k < |s.lists[i]| && DetachedAt(s, t, i, k)
    ensures KeepsUsed(s.blocks, s.m, t.m) && KeepsWords(s.m, t.m)
  {
    var c := s.lists[i][k];
    DetachLinksAreFree(s, loose, i, k);
    if k > 0 { assert s.lists[i][k - 1] in s.lists[i]; }
    if k + 1 < |s.lists[i]| { assert s.lists[i][k + 1] in s.lists[i]; }
    forall u | 0 <= u < |s.m| && InUsed(s.blocks, u)
      ensures t.m[u] == s.m[u]
    {
      var a :| Covers(s.blocks, a, u) && !s.blocks[a].free;
      assert s.blocks[a].span >= 2 && s.blocks[c].span >= 2;
    }
  }

  /** What detaching finds in memory: the links are the list neighbours, and those are free. */
  lemma DetachLinksAreFree(s: Layout, loose: set<int>, i: int, k: int)
    requires Inv(s, loose) && 0 <= i < NUM_BINS && 0 <= k < |s.lists[i]|
    ensures var c := s.lists[i][k]; var prev, next := PrevIn(s.lists[i], k), NextIn(s.lists[i], k);
      && c in s.blocks && s.blocks[c].free && GetBinIndex(s.blocks[c].span) == i
      && s.m[c].word0 == FREE && s.m[c].word1 == s.blocks[c].span
      && s.m[c].link == next && s.m[Foot(s.blocks, c)].link == prev
      && (prev == NULL <==> k == 0) && (prev == NULL ==> s.bins[i] == c)
      && (prev != NULL ==> prev in s.blocks && prev != c && s.m[prev].word0 == FREE)
      && (next != NULL ==> next in s.blocks && next != c && s.m[next].word0 == FREE && s.m[next].word1 == s.blocks[next].span)
      && (prev != NULL && next != NULL ==> prev != next)
  {
    assert LinkOk(s, i, k) && s.lists[i][k] in s.lists[i];
    if k > 0 { assert s.lists[i][k - 1] in s.lists[i]; }
    if k + 1 < |s.lists[i]| { assert s.lists[i][k + 1] in s.lists[i]; }
    assert s.bins[i] == HeadOf(s.lists[i]);
  }

  lemma DetachKeepsBins(s: Layout, t: Layout, loose: set<int>, i: int, k: int)
    requires Inv(s, loose) && 0 <= i < NUM_BINS && 0 <= k < |s.lists[i]| && DetachedAt(s, t, i, k)
    ensures Binned(t.blocks, t.lists, loose + {s.lists[i][k]})
  {
    var c := s.lists[i][k];
    WithoutSlices(s.lists[i], c, k);
    WithoutMembers(s.lists[i], c);
    assert c in s.lists[i];
    forall j, x | 0 <= j < NUM_BINS && x in t.lists[j]
      ensures x in s.lists[j] && x != c
    {
    }
  }

  lemma DetachKeepsInv(s: Layout, t: Layout, loose: set<int>, i: int, k: int)
    requires Inv(s, loose) && 0 <= i < NUM_BINS && 0 <= k < |s.lists[i]| && DetachedAt(s, t, i, k)
    ensures Inv(t, loose + {s.lists[i][k]})
    ensures t.lists == s.lists[i := Without(s.lists[i], s.lists[i][k])]
  {
    var c := s.lists[i][k];
    WithoutSlices(s.lists[i], c, k);
    DetachKeepsBins(s, t, loose, i, k);
    assert c in s.lists[i];
    forall j, x | 0 <= j < NUM_BINS && 0 <= x < |t.lists[j]|
      ensures LinkOk(t, j, x)
    {
      DetachKeepsLink(s, t, loose, i, k, j, x);
    }
    forall j | 0 <= j < NUM_BINS
      ensures t.bins[j] == HeadOf(t.lists[j])
    {
      assert s.bins[j] == HeadOf(s.lists[j]);
      if k > 0 { assert s.lists[i][k - 1] in s.lists[i]; }
    }
    DetachKeepsTags(s, t, loose, i, k);
    DetachKeepsUnlinked(s, t, loose, i, k);
  }

  lemma DetachKeepsTags(s: Layout, t: Layout, loose: set<int>, i: int, k: int)
    requires Inv(s, loose) && 0 <= i < NUM_BINS && 0 <= k < |s.lists[i]| && DetachedAt(s, t, i, k)
    ensures Bounded(t) && Tagged(t)
  {
  }

  lemma DetachKeepsUnlinked(s: Layout, t: Layout, loose: set<int>, i: int, k: int)
    requires Inv(s, loose) && 0 <= i < NUM_BINS && 0 <= k < |s.lists[i]| && DetachedAt(s, t, i, k)
    requires Bounded(t)
    ensures Unlinked(t, loose + {s.lists[i][k]})
  {
    var c := s.lists[i][k];
    assert c in s.lists[i];
    if k > 0 { assert s.lists[i][k - 1] in s.lists[i]; }
    if k + 1 < |s.lists[i]| { assert s.lists[i][k + 1] in s.lists[i]; }
    forall a | a in t.blocks && (!t.blocks[a].free || a in loose + {c})
      ensures t.m[a].link == NULL && t.m[Foot(t.blocks, a)].link == NULL
    {
      assert s.blocks[a].span >= 2 && s.blocks[c].span >= 2;
    }
  }

  // Coalescing two adjacent free blocks that are in no bin.

  ghost predicate FusedInto(s: Layout, t: Layout, a: int, c: int) {
    && a in s.blocks && c in s.blocks && a + s.blocks[a].span == c
    && t == s.(m := t.m, blocks := Fuse(s.blocks, a, c))
    && |t.m| == |s.m|
    && (forall u {:trigger t.m[u]} :: 0 <= u < |s.m| ==>
          t.m[u] == if u == a then s.m[u].(word1 := s.blocks[a].span + s.blocks[c].span, link := NULL)
                    else if u == Foot(s.blocks, c) then s.m[u].(word0 := s.blocks[a].span + s.blocks[c].span, link := NULL)
                    else s.m[u])
  }

  /** The stores of coalescing, in order. */
  function FuseStores(m: seq<Unit>, a: int, span: int): (m2: seq<Unit>)
    requires 0 < a && 2 <= span && a + span <= |m|
    ensures |m2| == |m|
  {
    WithNext(WithPrev(WithSpan(m, a, span), a, NULL), a, NULL)
  }

  lemma FuseStoresFuse(s: Layout, t: Layout, loose: set<int>, a: int, c: int)
    requires Inv(s, loose) && a in s.blocks && c in s.blocks && a + s.blocks[a].span == c
    requires t == s.(m := t.m, blocks := Fuse(s.blocks, a, c))
    requires t.m == FuseStores(s.m, a, s.blocks[a].span + s.blocks[c].span)
    ensures FusedInto(s, t, a, c)
  {
    assert s.blocks[a].span >= 2 && s.blocks[c].span >= 2;
  }

  lemma FuseKeepsMemory(s: Layout, t: Layout, loose: set<int>, a: int, c: int)
    requires Inv(s, loose) && a in loose && c in loose && FusedInto(s, t, a, c)
    ensures KeepsUsed(s.blocks, s.m, t.m)
    ensures t.m[a].word0 == FREE && t.m[c].word0 == FREE
  {
    assert s.blocks[a].span >= 2 && s.blocks[c].span >= 2;
    forall u | 0 <= u < |s.m| && InUsed(s.blocks, u)
      ensures t.m[u] == s.m[u]
    {
      var d :| Covers(s.blocks, d, u) && !s.blocks[d].free;
      assert s.blocks[d].span >= 2;
    }
  }

  lemma FuseKeepsTags(s: Layout, t: Layout, loose: set<int>, a: int, c: int)
    requires Inv(s, loose) && a in loose && c in loose && FusedInto(s, t, a, c)
    ensures Bounded(t) && Tagged(t)
  {
    FuseKeepsTiling(s.blocks, s.lo, s.hi, a, c);
    assert s.blocks[a].span >= 2 && s.blocks[c].span >= 2;
    forall x | x in t.blocks
      ensures && t.m[x].word0 == (if t.blocks[x].free then FREE else USED)
              && t.m[x].word1 == t.blocks[x].span
              && t.m[Foot(t.blocks, x)].word0 == t.blocks[x].span
    {
      assert x in s.blocks && s.blocks[x].span >= 2;
    }
  }

  lemma FuseKeepsUnlinked(s: Layout, t: Layout, loose: set<int>, a: int, c: int)
    requires Inv(s, loose) && a in loose && c in loose && FusedInto(s, t, a, c) && Bounded(t)
    ensures Unlinked(t, loose - {c})
  {
    assert s.blocks[a].span >= 2 && s.blocks[c].span >= 2;
    forall x | x in t.blocks && (!t.blocks[x].free || x in loose - {c})
      ensures t.m[x].link == NULL && t.m[Foot(t.blocks, x)].link == NULL
    {
      assert x in s.blocks && s.blocks[x].span >= 2;
    }
  }

  lemma FuseKeepsBins(b: Blocks, lists: seq<seq<int>>, loose: set<int>, a: int, c: int)
    requires |lists| == NUM_BINS && Binned(b, lists, loose) && a in loose && c in loose && a != c
    requires a in b && c in b
    ensures Binned(Fuse(b, a, c), lists, loose - {c})
  {
    var f := Fuse(b, a, c);
    assert b[a].free && b[c].free;
    forall x | x in f && f[x].free && x !in loose - {c}
      ensures x in lists[GetBinIndex(f[x].span)]
    {
      assert x != a && f[x] == b[x];
    }
  }

  lemma FuseKeepsLinks(s: Layout, t: Layout, loose: set<int>, a: int, c: int)
    requires Inv(s, loose) && a in loose && c in loose && FusedInto(s, t, a, c) && Bounded(t)
    ensures Linked(t)
  {
    forall i, k | 0 <= i < NUM_BINS && 0 <= k < |t.lists[i]|
      ensures LinkOk(t, i, k)
    {
      var d := s.lists[i][k];
      assert LinkOk(s, i, k) && d in s.lists[i];
      assert s.blocks[a].span >= 2 && s.blocks[c].span >= 2 && s.blocks[d].span >= 2;
    }
    forall i | 0 <= i < NUM_BINS
      ensures t.bins[i] == HeadOf(t.lists[i])
    {
      assert s.bins[i] == HeadOf(s.lists[i]);
    }
  }

  lemma FuseKeepsInv(s: Layout, t: Layout, loose: set<int>, a: int, c: int)
    requires Inv(s, loose) && a in loose && c in loose && FusedInto(s, t, a, c)
    ensures Inv(t, loose - {c})
  {
    assert s.blocks[a].span >= 2;
    FuseKeepsTags(s, t, loose, a, c);
    FuseKeepsUnlinked(s, t, loose, a, c);
    FuseKeepsBins(s.blocks, s.lists, loose, a, c);
    FuseKeepsLinks(s, t, loose, a, c);
  }

  // Linking a loose free block at the front of its bin.

  ghost predicate PushedFront(s: Layout, t: Layout, c: int) {
    && |s.bins| == NUM_BINS == |s.lists| && c in s.blocks
    && (var i := GetBinIndex(s.blocks[c].span);
        var head := HeadOf(s.lists[i]);
        && (head != NULL ==> head in s.blocks)
        && t == s.(m := t.m, bins := s.bins[i := c], lists := s.lists[i := [c] + s.lists[i]])
        && |t.m| == |s.m|
        && (forall u {:trigger t.m[u]} :: 0 <= u < |s.m| ==>
              t.m[u] == s.m[u].(link := if u == c then head
                                        else if u == Foot(s.blocks, c) then NULL
                                        else if head != NULL && u == Foot(s.blocks, head) then c
                                        else s.m[u].link)))
  }

  /** The stores of pushing, in order. */
  function PushStores(m: seq<Unit>, c: int, head: int): (m2: seq<Unit>)
    requires HasFoot(m, c) && (head != NULL ==> HasFoot(m, head))
    ensures |m2| == |m|
  {
    var m1 := WithNext(WithPrev(m, c, NULL), c, head);
    if head != NULL then WithPrev(m1, head, c) else m1
  }

  /** The bins with block `c` put at the front of the one for its span. */
  ghost function PutFront(lists: seq<seq<int>>, b: Blocks, c: int): seq<seq<int>>
    requires |lists| == NUM_BINS && c in b
  {
    var i := GetBinIndex(b[c].span);
    lists[i := [c] + lists[i]]
  }

  lemma PushStoresPush(s: Layout, t: Layout, loose: set<int>, c: int)
    requires Inv(s, loose) && c in loose
    requires var head := HeadOf(s.lists[GetBinIndex(s.blocks[c].span)]);
      && HasFoot(s.m, c) && (head != NULL ==> HasFoot(s.m, head))
      && t == s.(m := PushStores(s.m, c, head), bins := t.bins, lists := PutFront(s.lists, s.blocks, c))
      && t.bins == s.bins[GetBinIndex(s.blocks[c].span) := c]
    ensures PushedFront(s, t, c)
  {
    PushTargetsAreFree(s, loose, c);
    var head := HeadOf(s.lists[GetBinIndex(s.blocks[c].span)]);
    assert s.blocks[c].span >= 2;
    if head != NULL { assert s.blocks[head].span >= 2; }
  }

  /** What pushing finds in memory: the bin head, if any, is another free block. */
  lemma PushTargetsAreFree(s: Layout, loose: set<int>, c: int)
    requires Inv(s, loose) && c in loose
    ensures var i := GetBinIndex(s.blocks[c].span); var head := HeadOf(s.lists[i]);
      && HasFoot(s.m, c) && s.m[c].word0 == FREE && s.m[c].word1 == s.blocks[c].span
      && s.bins[i] == head
      && (head != NULL ==> head != c && head in s.blocks && s.m[head].word0 == FREE && HasFoot(s.m, head))
  {
    var i := GetBinIndex(s.blocks[c].span);
    assert s.bins[i] == HeadOf(s.lists[i]);
    if s.lists[i] != [] {
      assert s.lists[i][0] in s.lists[i];
    }
  }

  lemma PushKeepsMemory(s: Layout, t: Layout, loose: set<int>, c: int)
    requires Inv(s, loose) && c in loose && PushedFront(s, t, c)
    ensures KeepsUsed(s.blocks, s.m, t.m) && KeepsWords(s.m, t.m)
  {
    PushTargetsAreFree(s, loose, c);
    var i := GetBinIndex(s.blocks[c].span);
    if s.lists[i] != [] { assert s.lists[i][0] in s.lists[i]; }
    forall u | 0 <= u < |s.m| && InUsed(s.blocks, u)
      ensures t.m[u] == s.m[u]
    {
      var d :| Covers(s.blocks, d, u) && !s.blocks[d].free;
      assert s.blocks[d].span >= 2 && s.blocks[c].span >= 2;
    }
  }

  lemma PushKeepsLink(s: Layout, t: Layout, loose: set<int>, c: int, j: int, x: int)
    requires Inv(s, loose) && c in loose && PushedFront(s, t, c) && Bounded(t)
    requires 0 <= j < NUM_BINS && 0 <= x < |t.lists[j]|
    ensures LinkOk(t, j, x)
  {
    var i := GetBinIndex(s.blocks[c].span);
    assert s.blocks[c].span >= 2;
    if s.lists[i] != [] { assert s.lists[i][0] in s.lists[i]; }
    if j == i && x == 0 {
    } else {
      var y := if j == i then x - 1 else x;
      var d := s.lists[j][y];
      assert LinkOk(s, j, y) && d in s.lists[j];
      assert s.blocks[d].span >= 2;
      if j == i { assert Distinct(s.lists[i]); }
    }
  }

  lemma PushKeepsBins(b: Blocks, lists: seq<seq<int>>, loose: set<int>, c: int)
    requires |lists| == NUM_BINS && Binned(b, lists, loose) && c in loose && c in b
    ensures var i := GetBinIndex(b[c].span); Binned(b, lists[i := [c] + lists[i]], loose - {c})
  {
    var i := GetBinIndex(b[c].span);
    var after := lists[i := [c] + lists[i]];
    assert c !in lists[i];
    forall x | x in b && b[x].free && x !in loose - {c}
      ensures x in after[GetBinIndex(b[x].span)]
    {
      if x != c {
        assert x in lists[GetBinIndex(b[x].span)];
        assert x in ([c] + lists[i]) || GetBinIndex(b[x].span) != i;
      }
    }
    forall j, x | 0 <= j < NUM_BINS && x in after[j]
      ensures x in b && b[x].free && GetBinIndex(b[x].span) == j && x !in loose - {c}
    {
      assert x == c || x in lists[j];
    }
  }

  lemma PushKeepsUnlinked(s: Layout, t: Layout, loose: set<int>, c: int)
    requires Inv(s, loose) && c in loose && PushedFront(s, t, c) && Bounded(t)
    ensures Unlinked(t, loose - {c})
  {
    var i := GetBinIndex(s.blocks[c].span);
    if s.lists[i] != [] { assert s.lists[i][0] in s.lists[i]; }
    forall a | a in t.blocks && (!t.blocks[a].free || a in loose - {c})
      ensures t.m[a].link == NULL && t.m[Foot(t.blocks, a)].link == NULL
    {
      assert s.blocks[a].span >= 2 && s.blocks[c].span >= 2;
    }
  }

  lemma PushKeepsInv(s: Layout, t: Layout, loose: set<int>, c: int)
    requires Inv(s, loose) && c in loose && PushedFront(s, t, c)
    ensures Inv(t, loose - {c})
  {
    PushKeepsUnlinked(s, t, loose, c);
    PushKeepsBins(s.blocks, s.lists, loose, c);
    forall j, x | 0 <= j < NUM_BINS && 0 <= x < |t.lists[j]|
      ensures LinkOk(t, j, x)
    {
      PushKeepsLink(s, t, loose, c, j, x);
    }
    forall j | 0 <= j < NUM_BINS
      ensures t.bins[j] == HeadOf(t.lists[j])
    {
      assert s.bins[j] == HeadOf(s.lists[j]);
    }
  }

  /** The links of every bin survive a change that spares the units of binned blocks. */
  lemma LinksSurvive(s: Layout, t: Layout, loose: set<int>)
    requires Inv(s, loose) && Bounded(t)
    requires t.lists == s.lists && t.bins == s.bins
    requires forall i, d {:trigger d in s.lists[i]} :: 0 <= i < NUM_BINS && d in s.lists[i] ==>
               && d in t.blocks && t.blocks[d] == s.blocks[d]
               && t.m[d] == s.m[d] && t.m[Foot(s.blocks, d)] == s.m[Foot(s.blocks, d)]
    ensures Linked(t)
  {
    forall i, k | 0 <= i < NUM_BINS && 0 <= k < |t.lists[i]|
      ensures LinkOk(t, i, k)
    {
      assert LinkOk(s, i, k) && s.lists[i][k] in s.lists[i];
    }
    forall i | 0 <= i < NUM_BINS
      ensures t.bins[i] == HeadOf(t.lists[i])
    {
      assert s.bins[i] == HeadOf(s.lists[i]);
    }
  }

  // Changing the status of a block that is in no bin.

  ghost predicate Marked(s: Layout, t: Layout, c: int, free: bool) {
    && c in s.blocks
    && t == s.(m := t.m, blocks := s.blocks[c := s.blocks[c].(free := free)])
    && |t.m| == |s.m|
    && (forall u {:trigger t.m[u]} :: 0 <= u < |s.m| ==>
          t.m[u] == if u == c then s.m[u].(word0 := if free then FREE else USED, link := NULL)
                    else if u == Foot(s.blocks, c) then s.m[u].(link := NULL)
                    else s.m[u])
  }

  lemma MarkKeepsTiling(s: Layout, t: Layout, loose: set<int>, c: int, free: bool)
    requires Inv(s, loose) && Marked(s, t, c, free)
    ensures Bounded(t)
  {
    StatusKeepsTiling(s.blocks, s.lo, s.hi, c, free);
  }

  lemma MarkKeepsTags(s: Layout, t: Layout, loose: set<int>, c: int, free: bool)
    requires Inv(s, loose) && Marked(s, t, c, free) && Bounded(t)
    ensures Tagged(t)
  {
    assert s.blocks[c].span >= 2;
    forall a | a in t.blocks
      ensures && t.m[a].word0 == (if t.blocks[a].free then FREE else USED)
              && t.m[a].word1 == t.blocks[a].span
              && t.m[Foot(t.blocks, a)].word0 == t.blocks[a].span
    {
      assert s.blocks[a].span >= 2;
    }
  }

  lemma MarkKeepsUnlinked(s: Layout, t: Layout, loose: set<int>, c: int, free: bool)
    requires Inv(s, loose) && Marked(s, t, c, free) && Bounded(t)
    ensures Unlinked(t, if free then loose + {c} else loose - {c})
  {
    var after := if free then loose + {c} else loose - {c};
    forall a | a in t.blocks && (!t.blocks[a].free || a in after)
      ensures t.m[a].link == NULL && t.m[Foot(t.blocks, a)].link == NULL
    {
      assert s.blocks[a].span >= 2 && s.blocks[c].span >= 2;
    }
  }

  lemma MarkKeepsBins(s: Layout, t: Layout, loose: set<int>, c: int, free: bool)
    requires Inv(s, loose) && Marked(s, t, c, free)
    requires !s.blocks[c].free || c in loose
    ensures Binned(t.blocks, t.lists, if free then loose + {c} else loose - {c})
  {
  }

  lemma MarkKeepsLinks(s: Layout, t: Layout, loose: set<int>, c: int, free: bool)
    requires Inv(s, loose) && Marked(s, t, c, free) && Bounded(t)
    requires !s.blocks[c].free || c in loose
    ensures Linked(t)
  {
    forall i, d | 0 <= i < NUM_BINS && d in s.lists[i]
      ensures d in t.blocks && t.blocks[d] == s.blocks[d]
      ensures t.m[d] == s.m[d] && t.m[Foot(s.blocks, d)] == s.m[Foot(s.blocks, d)]
    {
      assert s.blocks[d].span >= 2 && s.blocks[c].span >= 2;
    }
    LinksSurvive(s, t, loose);
  }

  lemma MarkKeepsInv(s: Layout, t: Layout, loose: set<int>, c: int, free: bool)
    requires Inv(s, loose) && Marked(s, t, c, free)
    requires !s.blocks[c].free || c in loose
    ensures Inv(t, if free then loose + {c} else loose - {c})
  {
    MarkKeepsTiling(s, t, loose, c, free);
    MarkKeepsTags(s, t, loose, c, free);
    MarkKeepsUnlinked(s, t, loose, c, free);
    MarkKeepsBins(s, t, loose, c, free);
    MarkKeepsLinks(s, t, loose, c, free);
    hide Bounded, Tagged, Unlinked, Binned, Linked;
  }

  // Splitting a free block that is in no bin.

  ghost predicate CarvedFrom(s: Layout, t: Layout, c: int, tail: int) {
    && c in s.blocks && 2 <= tail && tail + 2 <= s.blocks[c].span
    && t == s.(m := t.m, blocks := Carve(s.blocks, c, tail))
    && |t.m| == |s.m|
    && (var rest := s.blocks[c].span - tail;
        forall u {:trigger t.m[u]} :: 0 <= u < |s.m| ==>
          t.m[u] == if u == c then s.m[u].(word1 := rest)
                    else if u == c + rest - 1 then s.m[u].(word0 := rest, link := NULL)
                    else if u == c + rest then Unit(USED, tail, NULL)
                    else if u == Foot(s.blocks, c) then s.m[u].(word0 := tail, link := NULL)
                    else s.m[u])
  }

  lemma CarveKeepsTags(s: Layout, t: Layout, loose: set<int>, c: int, tail: int)
    requires Inv(s, loose) && c in loose && CarvedFrom(s, t, c, tail)
    ensures Bounded(t) && Tagged(t)
  {
    CarveKeepsTiling(s.blocks, s.lo, s.hi, c, tail);
    CarvePointIsFresh(s.blocks, c, tail);
    assert s.blocks[c].span >= 2;
    forall a | a in t.blocks
      ensures && t.m[a].word0 == (if t.blocks[a].free then FREE else USED)
              && t.m[a].word1 == t.blocks[a].span
              && t.m[Foot(t.blocks, a)].word0 == t.blocks[a].span
    {
      if a in s.blocks { assert s.blocks[a].span >= 2; }
    }
  }

  lemma CarveKeepsUnlinked(s: Layout, t: Layout, loose: set<int>, c: int, tail: int)
    requires Inv(s, loose) && c in loose && CarvedFrom(s, t, c, tail) && Bounded(t)
    ensures Unlinked(t, loose)
  {
    assert s.blocks[c].span >= 2;
    forall a | a in t.blocks && (!t.blocks[a].free || a in loose)
      ensures t.m[a].link == NULL && t.m[Foot(t.blocks, a)].link == NULL
    {
      if a in s.blocks { assert s.blocks[a].span >= 2; }
    }
  }

  lemma CarveKeepsBins(s: Layout, t: Layout, loose: set<int>, c: int, tail: int)
    requires Inv(s, loose) && c in loose && CarvedFrom(s, t, c, tail)
    ensures Binned(t.blocks, t.lists, loose)
  {
    CarvePointIsFresh(s.blocks, c, tail);
    forall x | x in t.blocks && t.blocks[x].free && x !in loose
      ensures x in t.lists[GetBinIndex(t.blocks[x].span)]
    {
      assert s.blocks[x] == t.blocks[x];
    }
  }

  lemma CarveKeepsLinks(s: Layout, t: Layout, loose: set<int>, c: int, tail: int)
    requires Inv(s, loose) && c in loose && CarvedFrom(s, t, c, tail) && Bounded(t)
    ensures Linked(t)
  {
    CarvePointIsFresh(s.blocks, c, tail);
    forall i, d | 0 <= i < NUM_BINS && d in s.lists[i]
      ensures d in t.blocks && t.blocks[d] == s.blocks[d]
      ensures t.m[d] == s.m[d] && t.m[Foot(s.blocks, d)] == s.m[Foot(s.blocks, d)]
    {
      assert s.blocks[d].span >= 2 && s.blocks[c].span >= 2;
    }
    LinksSurvive(s, t, loose);
  }

  lemma CarveKeepsInv(s: Layout, t: Layout, loose: set<int>, c: int, tail: int)
    requires Inv(s, loose) && c in loose && CarvedFrom(s, t, c, tail)
    ensures Inv(t, loose)
  {
    CarveKeepsTags(s, t, loose, c, tail);
    CarveKeepsUnlinked(s, t, loose, c, tail);
    CarveKeepsBins(s, t, loose, c, tail);
    CarveKeepsLinks(s, t, loose, c, tail);
    hide Bounded, Tagged, Unlinked, Binned, Linked;
  }

  // Adding a new free block at the end of the arena.

  ghost predicate GrownBy(s: Layout, t: Layout, span: int) {
    && s.lo != NULL && 2 <= span && 0 <= s.hi && s.hi + span <= |s.m|
    && t == s.(m := t.m, hi := s.hi + span, blocks := s.blocks[s.hi := Block(span, true)])
    && |t.m| == |s.m|
    && (forall u {:trigger t.m[u]} :: 0 <= u < |s.m| ==>
          t.m[u] == if u == s.hi then Unit(FREE, span, NULL)
                    else if u == s.hi + span - 1 then s.m[u].(word0 := span, link := NULL)
                    else s.m[u])
  }

  lemma GrowKeepsTiling(s: Layout, t: Layout, span: int)
    requires Inv(s, {}) && GrownBy(s, t, span)
    ensures s.hi !in s.blocks
    ensures Bounded(t)
  {
    ExtendingKeepsTiling(s.blocks, s.lo, s.hi, span);
    forall a | a in s.blocks
      ensures a < s.hi
    {
      assert s.blocks[a].span >= 2;
    }
    hide Tiled;
  }

  lemma GrowKeepsBins(s: Layout, t: Layout, span: int)
    requires Inv(s, {}) && GrownBy(s, t, span) && s.hi !in s.blocks
    ensures Binned(t.blocks, t.lists, {s.hi})
  {
    forall x | x in t.blocks && t.blocks[x].free && x !in {s.hi}
      ensures x in t.lists[GetBinIndex(t.blocks[x].span)]
    {
      assert s.blocks[x] == t.blocks[x];
    }
  }

  lemma GrowKeepsLinks(s: Layout, t: Layout, span: int)
    requires Inv(s, {}) && GrownBy(s, t, span) && s.hi !in s.blocks && Bounded(t)
    ensures Linked(t)
  {
    forall i, d | 0 <= i < NUM_BINS && d in s.lists[i]
      ensures d in t.blocks && t.blocks[d] == s.blocks[d]
      ensures t.m[d] == s.m[d] && t.m[Foot(s.blocks, d)] == s.m[Foot(s.blocks, d)]
    {
      assert s.blocks[d].span >= 2;
    }
    LinksSurvive(s, t, {});
  }

  lemma GrowKeepsUnits(s: Layout, t: Layout, span: int)
    requires Inv(s, {}) && GrownBy(s, t, span) && s.hi !in s.blocks && Bounded(t)
    ensures Tagged(t) && Unlinked(t, {s.hi})
  {
    hide Tiled, Binned, Linked;
    forall a | a in s.blocks
      ensures t.blocks[a] == s.blocks[a] && t.m[a] == s.m[a] && t.m[Foot(t.blocks, a)] == s.m[Foot(s.blocks, a)]
    {
      GrowKeepsUnitsOf(s, t, span, a);
    }
    assert t.blocks[s.hi] == Block(span, true);
  }

  lemma GrowKeepsUnitsOf(s: Layout, t: Layout, span: int, a: int)
    requires Inv(s, {}) && GrownBy(s, t, span) && s.hi !in s.blocks && Bounded(t) && a in s.blocks
    ensures t.blocks[a] == s.blocks[a] && t.m[a] == s.m[a] && t.m[Foot(t.blocks, a)] == s.m[Foot(s.blocks, a)]
  {
    assert s.blocks[a].span >= 2;
  }

  lemma GrowKeepsInv(s: Layout, t: Layout, span: int)
    requires Inv(s, {}) && GrownBy(s, t, span)
    ensures s.hi !in s.blocks
    ensures Inv(t, {s.hi})
  {
    GrowKeepsTiling(s, t, span);
    GrowKeepsBins(s, t, span);
    GrowKeepsLinks(s, t, span);
    GrowKeepsUnits(s, t, span);
  }

  /** A client may write any payload unit of a used block. */
  lemma PayloadWriteKeepsValid(s: Layout, c: int, u: int, v: Unit)
    requires Valid(s) && c in s.blocks && !s.blocks[c].free && c < u < Foot(s.blocks, c)
    ensures Valid(s.(m := s.m[u := v]))
  {
    var t := s.(m := s.m[u := v]);
    assert s.blocks[c].span >= 2;
    forall a | a in s.blocks
      ensures t.m[a] == s.m[a] && t.m[Foot(s.blocks, a)] == s.m[Foot(s.blocks, a)]
    {
      assert s.blocks[a].span >= 2;
    }
    LinksSurvive(s, t, {});
  }

  // Freeing a block: the steps of bin_push_front on blocks and bins.

  /** The bins once the free neighbours of `c` have been taken out and the merged block put in. */
  ghost function Rebinned(b: Blocks, lists: seq<seq<int>>, c: int): seq<seq<int>>
    requires |lists| == NUM_BINS && c in b
  {
    PutFront(BinsAfterPrev(AbsorbNext(b, c), BinsAfterNext(b, lists, c), c), Coalesced(b, c), MergeStart(b, c))
  }

  ghost function BinsAfterNext(b: Blocks, lists: seq<seq<int>>, c: int): (l: seq<seq<int>>)
    requires |lists| == NUM_BINS && c in b
    ensures |l| == NUM_BINS
  {
    var n := c + b[c].span;
    if n in b && b[n].free then TakeOut(lists, b, n) else lists
  }

  ghost function BinsAfterPrev(b: Blocks, lists: seq<seq<int>>, c: int): (l: seq<seq<int>>)
    requires |lists| == NUM_BINS && c in b
    ensures |l| == NUM_BINS
  {
    var p := MergeStart(b, c);
    if p == c then lists else TakeOut(lists, b, p)
  }

  lemma BinnedFree(s: Layout, loose: set<int>, c: int) returns (k: int)
    requires Inv(s, loose) && c in s.blocks && s.blocks[c].free && c !in loose
    ensures |s.lists| == NUM_BINS == |s.bins|
    ensures var i := GetBinIndex(s.blocks[c].span); 0 <= k < |s.lists[i]| && s.lists[i][k] == c && Distinct(s.lists[i])
  {
    var i := GetBinIndex(s.blocks[c].span);
    assert c in s.lists[i];
    k :| 0 <= k < |s.lists[i]| && s.lists[i][k] == c;
  }

  /** The stores that mark a block free and clear its links. */
  function MarkFreeStores(m: seq<Unit>, c: int): (m2: seq<Unit>)
    requires HasFoot(m, c)
    ensures |m2| == |m|
  {
    WithNext(WithPrev(WithStatus(m, c, FREE), c, NULL), c, NULL)
  }

  lemma MarkFreeStoresMark(s: Layout, t: Layout, loose: set<int>, c: int)
    requires Inv(s, loose) && c in s.blocks && HasFoot(s.m, c)
    requires t == s.(m := MarkFreeStores(s.m, c), blocks := SetFree(s.blocks, c))
    ensures Marked(s, t, c, true)
  {
    assert s.blocks[c].span >= 2;
  }

  lemma MarkKeepsMemory(s: Layout, t: Layout, loose: set<int>, c: int, free: bool)
    requires Inv(s, loose) && Marked(s, t, c, free)
    ensures free ==> KeepsUsed(t.blocks, s.m, t.m)
    ensures s.blocks[c].free ==> KeepsUsed(s.blocks, s.m, t.m)
  {
    assert s.blocks[c].span >= 2;
    forall u, d | 0 <= u < |s.m| && Covers(s.blocks, d, u) && d != c
      ensures t.m[u] == s.m[u]
    {
      assert s.blocks[d].span >= 2;
    }
    forall u | 0 <= u < |s.m| && free && InUsed(t.blocks, u)
      ensures t.m[u] == s.m[u]
    {
      var d :| Covers(t.blocks, d, u) && !t.blocks[d].free;
      assert Covers(s.blocks, d, u);
    }
  }

  lemma AbsorbKeepsInUsed(b: Blocks, c: int, u: int)
    requires c in b && b[c].free
    ensures InUsed(AbsorbNext(b, c), u) ==> InUsed(b, u)
    ensures InUsed(AbsorbPrev(b, c), u) ==> InUsed(b, u)
  {
    if InUsed(AbsorbNext(b, c), u) {
      var d :| Covers(AbsorbNext(b, c), d, u) && !AbsorbNext(b, c)[d].free;
      assert Covers(b, d, u);
    }
    if InUsed(AbsorbPrev(b, c), u) {
      var d :| Covers(AbsorbPrev(b, c), d, u) && !AbsorbPrev(b, c)[d].free;
      assert Covers(b, d, u);
    }
  }

  /** Puts the steps of freeing together: `b` has `c` marked free, and the memories are those before
      marking, after marking, and after each later step. */
  lemma FreeingComposes(b: Blocks, c: int, lo: int, hi: int,
                        m0: seq<Unit>, m1: seq<Unit>, m2: seq<Unit>, m3: seq<Unit>, m4: seq<Unit>)
    requires Tiled(b, lo, hi) && c in b && b[c].free && NoFreeNeighboursBut(b, c)
    requires KeepsUsed(b, m0, m1) && KeepsUsed(b, m1, m2) && KeepsUsed(AbsorbNext(b, c), m2, m3)
    requires KeepsUsed(AbsorbPrev(AbsorbNext(b, c), c), m3, m4)
    ensures MergeStart(AbsorbNext(b, c), c) == MergeStart(b, c)
    ensures AbsorbPrev(AbsorbNext(b, c), c) == Coalesced(b, c)
    ensures NoFreeNeighbours(Coalesced(b, c))
    ensures KeepsUsed(Coalesced(b, c), m0, m4)
  {
    AbsorbingCoalesces(b, lo, hi, c);
    CoalescedHasNoFreeNeighbours(b, lo, hi, c);
    forall u | 0 <= u < |m0| && InUsed(Coalesced(b, c), u)
      ensures m4[u] == m0[u]
    {
      AbsorbKeepsInUsed(b, c, u);
      AbsorbKeepsInUsed(AbsorbNext(b, c), c, u);
    }
  }

  lemma InvIsTiled(s: Layout, loose: set<int>)
    requires Inv(s, loose)
    ensures Tiled(s.blocks, s.lo, s.hi) && |s.lists| == NUM_BINS
  {
  }

  // Allocating from a free block.

  /** The stores of splitting, in order. */
  function CarveStores(m: seq<Unit>, c: int, rest: int, tail: int): (m2: seq<Unit>)
    requires 0 < c && 2 <= rest && 2 <= tail && c + rest + tail <= |m|
    ensures |m2| == |m|
  {
    var alloc := c + rest;
    var m1 := WithSpan(WithSpan(m, c, rest), alloc, tail);
    var m2 := WithPrev(WithNext(WithStatus(m1, alloc, USED), alloc, NULL), alloc, NULL);
    WithPrev(m2, c, NULL)
  }

  lemma CarveStoresCarve(s: Layout, t: Layout, loose: set<int>, c: int, tail: int)
    requires Inv(s, loose) && c in s.blocks && 2 <= tail && tail + 2 <= s.blocks[c].span
    requires t == s.(m := CarveStores(s.m, c, s.blocks[c].span - tail, tail), blocks := Carve(s.blocks, c, tail))
    ensures CarvedFrom(s, t, c, tail)
  {
  }

  lemma CarveParts(b: Blocks, c: int, tail: int)
    requires c in b && 0 < tail
    ensures var f, t := Carve(b, c, tail), c + b[c].span - tail;
      && c in f && t in f && (t != c ==> c + f[c].span == t && f[c].free) && f[t] == Block(tail, false)
  {
  }

  lemma CarveKeepsMemory(s: Layout, t: Layout, loose: set<int>, c: int, tail: int)
    requires Inv(s, loose) && c in loose && CarvedFrom(s, t, c, tail)
    ensures KeepsUsed(s.blocks, s.m, t.m)
  {
    assert s.blocks[c].span >= 2;
    forall u | 0 <= u < |s.m| && InUsed(s.blocks, u)
      ensures t.m[u] == s.m[u]
    {
      var d :| Covers(s.blocks, d, u) && !s.blocks[d].free;
      assert s.blocks[d].span >= 2;
    }
  }

  /** The header of the block that serves a request for `need` payload units from free block `c`. */
  function AllocatedAt(b: Blocks, c: int, need: int): int
    requires c in b
  {
    if b[c].span >= need + 4 then c + b[c].span - (need + 2) else c
  }

  /** The blocks after that request: `c` is split when at least two units would remain. */
  ghost function Allocated(b: Blocks, c: int, need: int): Blocks
    requires c in b
  {
    if b[c].span >= need + 4 then Carve(b, c, need + 2) else b[c := b[c].(free := false)]
  }

  /** The bins after that request. */
  ghost function AllocatedBins(b: Blocks, lists: seq<seq<int>>, c: int, need: int): seq<seq<int>>
    requires |lists| == NUM_BINS && c in b
  {
    var out := TakeOut(lists, b, c);
    if b[c].span >= need + 4 then PutFront(out, Allocated(b, c, need), c) else out
  }

  lemma BlocksNeedRoom(s: Layout)
    requires Inv(s, {})
    ensures s.blocks != map[] ==> s.lo < s.hi
    ensures forall i {:trigger s.lists[i]} :: 0 <= i < NUM_BINS && s.lists[i] != [] ==> s.blocks != map[]
  {
    forall a | a in s.blocks
      ensures s.lo < s.hi
    {
      assert s.blocks[a].span >= 2;
    }
    if s.lo >= s.hi {
      assert s.blocks == map[];
    }
    forall i | 0 <= i < NUM_BINS && s.lists[i] != []
      ensures s.blocks != map[]
    {
      assert s.lists[i][0] in s.lists[i];
    }
  }

  /** Before the bounds of the arena are fixed there is nothing in it. */
  lemma Unbooted(s: Layout)
    requires Inv(s, {}) && s.lo == NULL
    ensures s.blocks == map[] && s.bins == seq(NUM_BINS, i => NULL) && s.lists == seq(NUM_BINS, i => [])
  {
    BlocksNeedRoom(s);
    forall i | 0 <= i < NUM_BINS
      ensures s.lists[i] == [] && s.bins[i] == NULL
    {
      assert s.bins[i] == HeadOf(s.lists[i]);
    }
  }

  lemma BootedEmpty(s: Layout)
    requires 0 < s.lo == s.hi <= |s.m| && s.blocks == map[]
    requires s.bins == seq(NUM_BINS, i => NULL) && s.lists == seq(NUM_BINS, i => [])
    ensures Valid(s)
  {
  }

  lemma FirstBlock(s: Layout)
    requires Inv(s, {}) && s.lo < s.hi
    ensures s.lo in s.blocks && 0 < s.lo
  {
  }

  /** The head a bin stores. */
  lemma BinHead(s: Layout, i: int)
    requires Inv(s, {}) && 0 <= i < NUM_BINS
    ensures |s.bins| == NUM_BINS == |s.lists| && s.bins[i] == HeadOf(s.lists[i])
    ensures s.lists[i] != [] ==> HeadOf(s.lists[i]) != NULL
  {
    assert s.bins[i] == HeadOf(s.lists[i]);
    if s.lists[i] != [] { assert s.lists[i][0] in s.lists[i]; }
  }

  /** The exact-fit case: the detached block `c` becomes used. */
  lemma UseWhole(s: Layout, t: Layout, c: int)
    requires Inv(s, {c}) && c in s.blocks && NoFreeNeighbours(s.blocks)
    requires t == s.(m := WithStatus(s.m, c, USED), blocks := s.blocks[c := s.blocks[c].(free := false)])
    ensures Valid(t) && KeepsUsed(s.blocks, s.m, t.m)
  {
    LooseLinks(s, {c}, c);
    LooseIsFree(s, {c}, c);
    assert Marked(s, t, c, false);
    hide Inv, Marked;
    MarkKeepsInv(s, t, {c}, c, false);
    assert {c} - {c} == {};
    MarkKeepsMemory(s, t, {c}, c, false);
  }

  lemma AllocatedKeepsInUsed(b: Blocks, c: int, need: int)
    requires c in b && b[c].free && Disjoint(b) && 0 <= need && need + 2 <= b[c].span
    ensures forall u :: InUsed(b, u) ==> InUsed(Allocated(b, c, need), u)
  {
    var f := Allocated(b, c, need);
    if b[c].span >= need + 4 { CarvePointIsFresh(b, c, need + 2); }
    forall u | InUsed(b, u)
      ensures InUsed(f, u)
    {
      var d :| Covers(b, d, u) && !b[d].free;
      assert Covers(f, d, u);
    }
  }

  /** Putting the leading part of a split back into the bins merges nothing. */
  lemma SplitRebins(b: Blocks, lists: seq<seq<int>>, lo: int, hi: int, c: int, need: int,
                    m0: seq<Unit>, m1: seq<Unit>, m2: seq<Unit>)
    requires |lists| == NUM_BINS && Tiled(b, lo, hi) && NoFreeNeighbours(b)
    requires c in b && b[c].free && 0 <= need && need + 4 <= b[c].span
    ensures var f := Carve(b, c, need + 2);
      && c in f && f[c].free && SetFree(f, c) == f && NoFreeNeighbours(f) && NoFreeNeighboursBut(f, c)
      && Coalesced(f, c) == f && Rebinned(f, lists, c) == PutFront(lists, f, c)
      && (KeepsUsed(b, m0, m1) && KeepsUsed(f, m1, m2) ==> KeepsUsed(b, m0, m2))
  {
    CarveLeavesNothingToMerge(b, lo, hi, c, need + 2);
    CarveParts(b, c, need + 2);
    AllocatedKeepsInUsed(b, c, need);
    var f := Carve(b, c, need + 2);
    if KeepsUsed(b, m0, m1) && KeepsUsed(f, m1, m2) {
      KeepsUsedWeakens(b, f, m1, m2);
      KeepsUsedTransitive(b, m0, m1, m2);
    }
  }
}
