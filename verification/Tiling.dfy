/** Physical blocks of an arena, as a map from header address to span and status.
    Both heap managers keep their blocks tiling the arena exactly. */
module Tiling {

  datatype Block = Block(span: int, free: bool)

  type Blocks = map<int, Block>

  /** The block at `a` is followed by another block or by the end of the arena. */
  ghost predicate EndsAtBoundary(b: Blocks, hi: int, a: int)
    requires a in b
  {
    a + b[a].span == hi || a + b[a].span in b
  }

  ghost predicate Within(b: Blocks, lo: int, hi: int) {
    forall a {:trigger b[a]} :: a in b ==> lo <= a && 1 <= b[a].span && a + b[a].span <= hi
  }

  ghost predicate Disjoint(b: Blocks) {
    forall a, c {:trigger b[a], b[c]} :: a in b && c in b && a < c ==> a + b[a].span <= c
  }

  ghost predicate NoGaps(b: Blocks, lo: int, hi: int) {
    && lo <= hi
    && (lo < hi ==> lo in b)
    && (forall a {:trigger EndsAtBoundary(b, hi, a)} :: a in b ==> EndsAtBoundary(b, hi, a))
  }

  /** The blocks are pairwise disjoint, lie in [lo, hi), start at lo and leave no gap. */
  ghost predicate Tiled(b: Blocks, lo: int, hi: int) {
    Within(b, lo, hi) && Disjoint(b) && NoGaps(b, lo, hi)
  }

  /** Unit `u` belongs to the block at `a`. */
  ghost predicate Covers(b: Blocks, a: int, u: int) {
    a in b && a <= u < a + b[a].span
  }

  /** Unit `u` lies in a used block. */
  ghost predicate InUsed(b: Blocks, u: int) {
    exists a :: Covers(b, a, u) && !b[a].free
  }

  /** No two physically adjacent blocks are both free. */
  ghost predicate NoFreeNeighbours(b: Blocks) {
    forall a, c {:trigger b[a], b[c]} :: a in b && c in b && b[a].free && b[c].free ==> a + b[a].span != c
  }

  /** Starting from block `from`, walking forward by spans reaches the block covering `u`. */
  lemma {:induction false} WalkTo(b: Blocks, lo: int, hi: int, from: int, u: int) returns (a: int)
    requires Tiled(b, lo, hi)
    requires from in b && from <= u < hi
    ensures Covers(b, a, u) && from <= a
    decreases u - from
  {
    if u < from + b[from].span {
      a := from;
    } else {
      assert EndsAtBoundary(b, hi, from);
      a := WalkTo(b, lo, hi, from + b[from].span, u);
    }
  }

  /** Exact tiling: every unit of the arena belongs to exactly one block. */
  lemma PartitionsArena(b: Blocks, lo: int, hi: int, u: int)
    requires Tiled(b, lo, hi)
    ensures lo <= u < hi <==> exists a :: Covers(b, a, u)
    ensures forall a, c :: Covers(b, a, u) && Covers(b, c, u) ==> a == c
  {
    if lo <= u < hi {
      var a := WalkTo(b, lo, hi, lo, u);
    }
  }

  /** Every block but the first has a physical predecessor ending where it starts. */
  lemma PredecessorExists(b: Blocks, lo: int, hi: int, c: int) returns (p: int)
    requires Tiled(b, lo, hi) && c in b && lo < c
    ensures p in b && p + b[p].span == c
  {
    assert b[c].span >= 1;
    p := WalkTo(b, lo, hi, lo, c - 1);
    assert b[p].span >= 1;
    assert EndsAtBoundary(b, hi, p);
  }

  /** Adjacent blocks `a` and `c` become one free block at `a`. */
  ghost function Fuse(b: Blocks, a: int, c: int): Blocks
    requires a in b && c in b
  {
    (b - {c})[a := Block(b[a].span + b[c].span, true)]
  }

  /** Block `c` is cut into a leading free block and a trailing used block of `tail` units. */
  ghost function Carve(b: Blocks, c: int, tail: int): Blocks
    requires c in b
  {
    b[c := Block(b[c].span - tail, true)][c + b[c].span - tail := Block(tail, false)]
  }

  lemma FuseKeepsTiling(b: Blocks, lo: int, hi: int, a: int, c: int)
    requires Tiled(b, lo, hi) && a in b && c in b && a + b[a].span == c
    ensures Tiled(Fuse(b, a, c), lo, hi)
  {
    FuseStaysWithin(b, lo, hi, a, c);
    FuseStaysDisjoint(b, lo, hi, a, c);
    var f := Fuse(b, a, c);
    assert b[a].span >= 1;
    forall x | x in f
      ensures EndsAtBoundary(f, hi, x)
    {
      FuseKeepsEnd(b, lo, hi, a, c, x);
    }
  }

  lemma FuseStaysWithin(b: Blocks, lo: int, hi: int, a: int, c: int)
    requires Within(b, lo, hi) && a in b && c in b && a + b[a].span == c
    ensures Within(Fuse(b, a, c), lo, hi)
  {
    assert b[a].span >= 1;
  }

  lemma FuseStaysDisjoint(b: Blocks, lo: int, hi: int, a: int, c: int)
    requires Within(b, lo, hi) && Disjoint(b) && a in b && c in b && a + b[a].span == c
    ensures Disjoint(Fuse(b, a, c))
  {
    var f := Fuse(b, a, c);
    assert b[a].span >= 1 && b[c].span >= 1;
    forall x, y | x in f && y in f && x < y
      ensures x + f[x].span <= y
    {
      assert b[x].span >= 1 && b[y].span >= 1;
    }
  }

  lemma FuseKeepsEnd(b: Blocks, lo: int, hi: int, a: int, c: int, x: int)
    requires Tiled(b, lo, hi) && a in b && c in b && a + b[a].span == c
    requires x in Fuse(b, a, c)
    ensures EndsAtBoundary(Fuse(b, a, c), hi, x)
  {
    assert b[a].span >= 1 && b[c].span >= 1 && b[x].span >= 1;
    if x == a {
      assert EndsAtBoundary(b, hi, c);
    } else {
      assert EndsAtBoundary(b, hi, x);
    }
  }

  lemma CarveKeepsTiling(b: Blocks, lo: int, hi: int, c: int, tail: int)
    requires Tiled(b, lo, hi) && c in b && 0 < tail < b[c].span
    ensures Tiled(Carve(b, c, tail), lo, hi)
  {
    CarvePointIsFresh(b, c, tail);
    CarveStaysDisjoint(b, lo, hi, c, tail);
    var f := Carve(b, c, tail);
    forall x | x in f
      ensures EndsAtBoundary(f, hi, x)
    {
      assert EndsAtBoundary(b, hi, if x in b then x else c);
      assert b[c].span >= 1;
    }
  }

  lemma CarvePointIsFresh(b: Blocks, c: int, tail: int)
    requires Disjoint(b) && c in b && 0 < tail < b[c].span
    ensures c + b[c].span - tail !in b
  {
    var t := c + b[c].span - tail;
    if t in b {
      assert b[t].span == b[t].span;
    }
  }

  lemma CarveStaysDisjoint(b: Blocks, lo: int, hi: int, c: int, tail: int)
    requires Within(b, lo, hi) && Disjoint(b) && c in b && 0 < tail < b[c].span
    ensures Within(Carve(b, c, tail), lo, hi) && Disjoint(Carve(b, c, tail))
  {
    CarvePointIsFresh(b, c, tail);
    var f := Carve(b, c, tail);
    var t := c + b[c].span - tail;
    forall x, y | x in f && y in f && x < y
      ensures x + f[x].span <= y
    {
      assert b[if x == t then c else x].span >= 1 && b[if y == t then c else y].span >= 1;
    }
  }

  /** Where the free run around block `c` starts: its predecessor if that is free, else `c`. */
  ghost function MergeStart(b: Blocks, c: int): (s: int)
    ensures s == c || (s in b && b[s].free && s + b[s].span == c)
  {
    if p :| p in b && b[p].free && p + b[p].span == c then p else c
  }

  /** Where it ends: after the successor of `c` if that is free, else after `c`. */
  ghost function MergeEnd(b: Blocks, c: int): int
    requires c in b
  {
    var n := c + b[c].span;
    if n in b && b[n].free then n + b[n].span else n
  }

  /** Block `c` and its free physical neighbours replaced by one free block covering their union. */
  ghost function Coalesced(b: Blocks, c: int): Blocks
    requires c in b
  {
    var s, e := MergeStart(b, c), MergeEnd(b, c);
    (map a | a in b && !(s <= a < e) :: b[a])[s := Block(e - s, true)]
  }

  /** Adjacent free blocks occur at `c` at most. */
  ghost predicate NoFreeNeighboursBut(b: Blocks, c: int) {
    forall x, y {:trigger b[x], b[y]} :: x in b && y in b && b[x].free && b[y].free && x != c && y != c ==> x + b[x].span != y
  }

  /** Freeing `c`, then fusing it with a free successor. */
  ghost function AbsorbNext(b: Blocks, c: int): Blocks
    requires c in b
  {
    var n := c + b[c].span;
    if n in b && b[n].free then Fuse(b, c, n) else b
  }

  /** Then fusing a free predecessor with it. */
  ghost function AbsorbPrev(b: Blocks, c: int): Blocks
    requires c in b
  {
    var p := MergeStart(b, c);
    if p == c then b else Fuse(b, p, c)
  }

  /** Merging one side after the other yields the union of the run. */
  lemma AbsorbingCoalesces(b: Blocks, lo: int, hi: int, c: int)
    requires Tiled(b, lo, hi) && c in b && b[c].free
    ensures MergeStart(AbsorbNext(b, c), c) == MergeStart(b, c)
    ensures AbsorbPrev(AbsorbNext(b, c), c) == Coalesced(b, c)
  {
    MergeStartAfterNext(b, lo, hi, c);
    var l, r := AbsorbPrev(AbsorbNext(b, c), c), Coalesced(b, c);
    forall a
      ensures a in l <==> a in r
      ensures a in l ==> l[a] == r[a]
    {
      AbsorbedAt(b, lo, hi, c, a);
    }
  }

  lemma AbsorbedAt(b: Blocks, lo: int, hi: int, c: int, a: int)
    requires Tiled(b, lo, hi) && c in b && b[c].free
    requires MergeStart(AbsorbNext(b, c), c) == MergeStart(b, c)
    ensures var l, r := AbsorbPrev(AbsorbNext(b, c), c), Coalesced(b, c); (a in l <==> a in r) && (a in l ==> l[a] == r[a])
  {
    var s, n := MergeStart(b, c), c + b[c].span;
    assert b[c].span >= 1;
    MergeStartIs(b, lo, hi, c);
    if s != c { assert b[s].span >= 1; }
    if n in b { assert b[n].span >= 1; }
    if a in b { assert b[a].span >= 1; }
  }

  lemma MergeStartIs(b: Blocks, lo: int, hi: int, c: int)
    requires Tiled(b, lo, hi) && c in b
    ensures forall p {:trigger b[p]} :: p in b && b[p].free && p + b[p].span == c ==> MergeStart(b, c) == p
    ensures MergeStart(b, c) != c ==> MergeStart(b, c) < c
  {
    var s := MergeStart(b, c);
    if s != c {
      assert b[s].span >= 1;
    }
    forall p | p in b && b[p].free && p + b[p].span == c
      ensures s == p
    {
      assert b[p].span >= 1;
    }
  }

  lemma MergeStartAfterNext(b: Blocks, lo: int, hi: int, c: int)
    requires Tiled(b, lo, hi) && c in b
    ensures MergeStart(AbsorbNext(b, c), c) == MergeStart(b, c)
  {
    var n := c + b[c].span;
    var b1 := AbsorbNext(b, c);
    if b1 != b {
      FuseKeepsTiling(b, lo, hi, c, n);
      MergeStartIs(b, lo, hi, c);
      MergeStartIs(b1, lo, hi, c);
      assert b[c].span >= 1 && b[n].span >= 1;
      var s := MergeStart(b, c);
      if s != c { assert b1[s] == b[s]; }
    }
  }

  lemma CoalescedHasNoFreeNeighbours(b: Blocks, lo: int, hi: int, c: int)
    requires Tiled(b, lo, hi) && c in b && NoFreeNeighboursBut(b, c)
    ensures NoFreeNeighbours(Coalesced(b, c))
  {
    var s, e := MergeStart(b, c), MergeEnd(b, c);
    var f := Coalesced(b, c);
    MergeStartIs(b, lo, hi, c);
    assert b[c].span >= 1;
    forall x, y | x in f && y in f && f[x].free && f[y].free
      ensures x + f[x].span != y
    {
      if x != s { assert b[x].span >= 1; }
      if y != s { assert b[y].span >= 1; }
      if s != c { assert b[s].span >= 1; }
      var n := c + b[c].span;
      if n in b { assert b[n].span >= 1; }
    }
  }

  lemma CoalescedKeepsTiling(b: Blocks, lo: int, hi: int, c: int)
    requires Tiled(b, lo, hi) && c in b && b[c].free
    ensures Tiled(Coalesced(b, c), lo, hi)
  {
    var n := c + b[c].span;
    AbsorbingCoalesces(b, lo, hi, c);
    if n in b && b[n].free {
      FuseKeepsTiling(b, lo, hi, c, n);
    }
    var b1 := AbsorbNext(b, c);
    var p := MergeStart(b1, c);
    if p != c {
      FuseKeepsTiling(b1, lo, hi, p, c);
    }
  }

  /** A block added at the end of the arena extends the tiling. */
  lemma ExtendingKeepsTiling(b: Blocks, lo: int, hi: int, span: int)
    requires Tiled(b, lo, hi) && 0 < span
    ensures Tiled(b[hi := Block(span, true)], lo, hi + span)
  {
    var f := b[hi := Block(span, true)];
    forall a | a in b
      ensures a < hi
    {
      assert b[a].span >= 1;
    }
    forall a | a in f
      ensures EndsAtBoundary(f, hi + span, a)
    {
      if a in b { assert EndsAtBoundary(b, hi, a); }
    }
  }

  /** Block `c` with its status set to free, neighbours aside. */
  ghost function SetFree(b: Blocks, c: int): Blocks
    requires c in b
  {
    b[c := b[c].(free := true)]
  }

  /** The status of a block has no part in the tiling. */
  lemma StatusKeepsTiling(b: Blocks, lo: int, hi: int, c: int, free: bool)
    requires Tiled(b, lo, hi) && c in b
    ensures Tiled(b[c := b[c].(free := free)], lo, hi)
  {
    var f := b[c := b[c].(free := free)];
    forall a | a in f
      ensures EndsAtBoundary(f, hi, a)
    {
      assert EndsAtBoundary(b, hi, a);
    }
  }

  lemma SetFreeKeepsTiling(b: Blocks, lo: int, hi: int, c: int)
    requires Tiled(b, lo, hi) && c in b
    ensures Tiled(SetFree(b, c), lo, hi)
  {
    StatusKeepsTiling(b, lo, hi, c, true);
  }

  lemma SetFreeKeepsApartBut(b: Blocks, c: int)
    requires c in b && NoFreeNeighboursBut(b, c)
    ensures NoFreeNeighboursBut(SetFree(b, c), c)
  {
  }

  lemma CoalescedUsed(b: Blocks, lo: int, hi: int, c: int, a: int)
    requires Tiled(b, lo, hi) && c in b && b[c].free
    ensures a in b && !b[a].free <==> a in Coalesced(b, c) && !Coalesced(b, c)[a].free
    ensures a in b && !b[a].free ==> Coalesced(b, c)[a] == b[a]
  {
    var s, n := MergeStart(b, c), c + b[c].span;
    assert b[c].span >= 1;
    MergeStartIs(b, lo, hi, c);
    if s != c { assert b[s].span >= 1; }
    if n in b { assert b[n].span >= 1; }
    if a in b { assert b[a].span >= 1; }
  }

  /** The blocks with `span` new free units at `hi`, before coalescing. */
  ghost function Extended(b: Blocks, hi: int, span: int): Blocks {
    b[hi := Block(span, true)]
  }

  /** Splitting a free block leaves nothing to coalesce. */
  lemma CarveLeavesNothingToMerge(b: Blocks, lo: int, hi: int, c: int, tail: int)
    requires Tiled(b, lo, hi) && c in b && b[c].free && 0 < tail < b[c].span && NoFreeNeighbours(b)
    ensures var f := Carve(b, c, tail);
      && NoFreeNeighbours(f) && SetFree(f, c) == f
      && MergeStart(f, c) == c && AbsorbNext(f, c) == f && Coalesced(f, c) == f
  {
    var f := Carve(b, c, tail);
    CarveKeepsApart(b, lo, hi, c, tail);
    CarveKeepsTiling(b, lo, hi, c, tail);
    hide Tiled, Carve, NoFreeNeighbours;
    assert MergeStart(f, c) == c;
    AbsorbingCoalesces(f, lo, hi, c);
  }

  lemma CarveKeepsApart(b: Blocks, lo: int, hi: int, c: int, tail: int)
    requires Tiled(b, lo, hi) && c in b && b[c].free && 0 < tail < b[c].span && NoFreeNeighbours(b)
    ensures var f := Carve(b, c, tail);
      && NoFreeNeighbours(f) && c in f && f[c].free && SetFree(f, c) == f
      && (var n := c + f[c].span; n in f && !f[n].free)
      && forall p {:trigger f[p]} :: p in f && f[p].free ==> p + f[p].span != c
  {
    var f := Carve(b, c, tail);
    CarvePointIsFresh(b, c, tail);
    forall x, y | x in f && y in f && f[x].free && f[y].free
      ensures x + f[x].span != y
    {
      assert x in b && y in b && b[x].free && b[y].free;
      assert b[x].span >= 1 && b[y].span >= 1;
    }
  }

  /** Merging the lower side first yields the same union. */
  lemma LowerFirstCoalesces(b: Blocks, lo: int, hi: int, c: int)
    requires Tiled(b, lo, hi) && c in b && b[c].free
    ensures MergeStart(b, c) in AbsorbPrev(b, c)
    ensures AbsorbNext(AbsorbPrev(b, c), MergeStart(b, c)) == Coalesced(b, c)
  {
    MergeStartIs(b, lo, hi, c);
    var l, r := AbsorbNext(AbsorbPrev(b, c), MergeStart(b, c)), Coalesced(b, c);
    forall a
      ensures a in l <==> a in r
      ensures a in l ==> l[a] == r[a]
    {
      LowerFirstAt(b, lo, hi, c, a);
    }
  }

  lemma LowerFirstAt(b: Blocks, lo: int, hi: int, c: int, a: int)
    requires Tiled(b, lo, hi) && c in b && b[c].free && MergeStart(b, c) in AbsorbPrev(b, c)
    ensures var l, r := AbsorbNext(AbsorbPrev(b, c), MergeStart(b, c)), Coalesced(b, c);
      (a in l <==> a in r) && (a in l ==> l[a] == r[a])
  {
    var s, n := MergeStart(b, c), c + b[c].span;
    assert b[c].span >= 1;
    MergeStartIs(b, lo, hi, c);
    if s != c { assert b[s].span >= 1; }
    if n in b { assert b[n].span >= 1; }
    if a in b { assert b[a].span >= 1; }
  }

  /** Unit `u` lies in a free block. */
  ghost predicate InFree(b: Blocks, u: int) {
    exists a :: Covers(b, a, u) && b[a].free
  }

  /** Every unit of the arena is free or used, and not both. */
  lemma FreeOrUsed(b: Blocks, lo: int, hi: int, u: int)
    requires Tiled(b, lo, hi)
    ensures InFree(b, u) <==> lo <= u < hi && !InUsed(b, u)
  {
    PartitionsArena(b, lo, hi, u);
  }

  /** Coalescing moves no unit between free and used. */
  lemma CoalescingConservesUnits(b: Blocks, lo: int, hi: int, c: int, u: int)
    requires Tiled(b, lo, hi) && c in b && b[c].free
    ensures InUsed(Coalesced(b, c), u) <==> InUsed(b, u)
    ensures InFree(Coalesced(b, c), u) <==> InFree(b, u)
  {
    var f := Coalesced(b, c);
    CoalescedKeepsTiling(b, lo, hi, c);
    FreeOrUsed(b, lo, hi, u);
    FreeOrUsed(f, lo, hi, u);
    if InUsed(f, u) {
      var d :| Covers(f, d, u) && !f[d].free;
      CoalescedUsed(b, lo, hi, c, d);
      assert Covers(b, d, u);
    }
    if InUsed(b, u) {
      var d :| Covers(b, d, u) && !b[d].free;
      CoalescedUsed(b, lo, hi, c, d);
      assert Covers(f, d, u);
    }
  }

  /** The merged block is the union of the block and its free physical neighbours. */
  lemma CoalescedIsUnion(b: Blocks, lo: int, hi: int, c: int, u: int)
    requires Tiled(b, lo, hi) && c in b && b[c].free
    ensures Covers(Coalesced(b, c), MergeStart(b, c), u) <==>
            exists a :: Covers(b, a, u) && b[a].free && (a == c || a + b[a].span == c || a == c + b[c].span)
  {
    var s, n := MergeStart(b, c), c + b[c].span;
    MergeStartIs(b, lo, hi, c);
    assert b[c].span >= 1;
    if Covers(Coalesced(b, c), s, u) {
      var a := if u < c then s else if u < n then c else n;
      assert Covers(b, a, u) && b[a].free;
    }
    if a :| Covers(b, a, u) && b[a].free && (a == c || a + b[a].span == c || a == n) {
      assert b[a].span >= 1;
    }
  }
}
