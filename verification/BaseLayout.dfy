/** The contents of a baseline heap as a value: headers only, and one free list in address order. */
module BaseLayout {
  import opened Tiling
  import opened Chunk
  import opened BinLists

  datatype Layout = Layout(m: seq<Unit>, head: int, lo: int, hi: int, blocks: Blocks, free: seq<int>)

  ghost predicate Bounded(s: Layout) {
    && (if s.lo == NULL then s.hi == NULL else 0 < s.lo <= s.hi <= |s.m|)
    && Tiled(s.blocks, s.lo, s.hi)
    && (forall a {:trigger s.blocks[a]} :: a in s.blocks ==> 0 < a && a + s.blocks[a].span <= |s.m|)
  }

  /** Headers in memory say what `blocks` says. */
  ghost predicate Tagged(s: Layout)
    requires Bounded(s)
  {
    forall a {:trigger s.blocks[a]} :: a in s.blocks ==>
      s.m[a].word0 == (if s.blocks[a].free then FREE else USED) && s.m[a].word1 == s.blocks[a].span
  }

  ghost predicate Sorted(l: seq<int>) {
    forall j, k {:trigger l[j], l[k]} :: 0 <= j < k < |l| ==> l[j] < l[k]
  }

  /** The list holds exactly the free blocks. */
  ghost predicate Complete(b: Blocks, l: seq<int>) {
    && (forall c {:trigger c in l} :: c in l ==> c in b && b[c].free)
    && (forall c {:trigger b[c]} :: c in b && b[c].free ==> c in l)
  }

  ghost predicate LinkOk(s: Layout, k: int)
    requires Bounded(s) && 0 <= k < |s.free|
  {
    s.free[k] in s.blocks && s.m[s.free[k]].link == NextIn(s.free, k)
  }

  ghost predicate Linked(s: Layout)
    requires Bounded(s)
  {
    s.head == HeadOf(s.free) && forall k {:trigger LinkOk(s, k)} :: 0 <= k < |s.free| ==> LinkOk(s, k)
  }

  ghost predicate Inv(s: Layout) {
    Bounded(s) && Tagged(s) && Sorted(s.free) && Complete(s.blocks, s.free) && Linked(s)
  }

  ghost predicate Valid(s: Layout) {
    Inv(s) && NoFreeNeighbours(s.blocks)
  }

  /** What the accessors read at the node at position `k`. */
  lemma NodeFacts(s: Layout, k: int)
    requires Inv(s) && 0 <= k < |s.free|
    ensures var c := s.free[k];
      && c in s.blocks && s.blocks[c].free && 0 < s.lo <= c < s.hi <= |s.m|
      && s.m[c].word0 == FREE && s.m[c].word1 == s.blocks[c].span >= 1 && c + s.blocks[c].span <= s.hi
      && s.m[c].link == NextIn(s.free, k) && c != NULL
      && (k > 0 ==> s.free[k - 1] < c)
  {
    assert LinkOk(s, k) && s.free[k] in s.free;
    assert s.blocks[s.free[k]].span >= 1;
  }

  lemma BlockFacts(s: Layout, c: int)
    requires Inv(s) && c in s.blocks
    ensures 0 < s.lo <= c < s.hi <= |s.m| && s.m[c].word1 == s.blocks[c].span >= 1 && c + s.blocks[c].span <= s.hi
    ensures s.m[c].word0 == if s.blocks[c].free then FREE else USED
    ensures c + s.blocks[c].span == s.hi || c + s.blocks[c].span in s.blocks
    ensures s.hi !in s.blocks
  {
    assert s.blocks[c].span >= 1 && EndsAtBoundary(s.blocks, s.hi, c);
    forall a | a in s.blocks
      ensures a < s.hi
    {
      assert s.blocks[a].span >= 1;
    }
  }

  // Inserting a used block as free between two list neighbours.

  ghost predicate Between(l: seq<int>, c: int, k: int) {
    0 <= k <= |l| && (0 < k ==> l[k - 1] < c) && (k < |l| ==> c < l[k])
  }

  ghost predicate InsertedAt(s: Layout, t: Layout, c: int, k: int) {
    && c in s.blocks && Between(s.free, c, k)
    && t == s.(m := t.m, head := if k == 0 then c else s.head, blocks := SetFree(s.blocks, c), free := s.free[..k] + [c] + s.free[k..])
    && |t.m| == |s.m|
    && (forall u {:trigger t.m[u]} :: 0 <= u < |s.m| ==>
          t.m[u] == if u == c then s.m[u].(word0 := FREE, link := if k < |s.free| then s.free[k] else NULL)
                    else if 0 < k && u == s.free[k - 1] then s.m[u].(link := c)
                    else s.m[u])
  }

  lemma InsertKeepsList(b: Blocks, l: seq<int>, c: int, k: int)
    requires Sorted(l) && Complete(b, l) && c in b && !b[c].free && Between(l, c, k)
    ensures var n := l[..k] + [c] + l[k..]; Sorted(n) && Complete(SetFree(b, c), n)
  {
    var n := l[..k] + [c] + l[k..];
    forall i, j | 0 <= i < j < |n|
      ensures n[i] < n[j]
    {
      assert 0 < k ==> (i < k ==> l[i] <= l[k - 1]);
      assert k < |l| ==> (k < j ==> l[k] <= l[j - 1]);
    }
    forall x
      ensures x in n <==> x in l || x == c
    {
      if x in l {
        var j :| 0 <= j < |l| && l[j] == x;
        assert n[if j < k then j else j + 1] == x;
      }
      if x == c { assert n[k] == x; }
    }
  }

  lemma InsertKeepsInv(s: Layout, t: Layout, c: int, k: int)
    requires Inv(s) && InsertedAt(s, t, c, k) && !s.blocks[c].free
    ensures Inv(t)
  {
    InsertKeepsList(s.blocks, s.free, c, k);
    SetFreeKeepsTiling(s.blocks, s.lo, s.hi, c);
    if 0 < k { NodeFacts(s, k - 1); }
    InsertKeepsTags(s, t, c, k);
    forall j | 0 <= j < |t.free|
      ensures LinkOk(t, j)
    {
      InsertKeepsLink(s, t, c, k, j);
    }
  }

  lemma InsertKeepsTags(s: Layout, t: Layout, c: int, k: int)
    requires Inv(s) && InsertedAt(s, t, c, k) && Tiled(t.blocks, t.lo, t.hi)
    requires 0 < k ==> s.free[k - 1] in s.blocks && s.blocks[s.free[k - 1]].free
    ensures Bounded(t) && Tagged(t)
  {
  }

  lemma InsertKeepsLink(s: Layout, t: Layout, c: int, k: int, j: int)
    requires Inv(s) && InsertedAt(s, t, c, k) && !s.blocks[c].free && Bounded(t) && 0 <= j < |t.free|
    ensures LinkOk(t, j)
  {
    if j != k {
      var i := if j < k then j else j - 1;
      NodeFacts(s, i);
      assert t.free[j] == s.free[i];
      if 0 < k && i != k - 1 { assert s.free[i] != s.free[k - 1]; }
    }
  }

  // Coalescing a node with its list successor.

  ghost predicate FusedAt(s: Layout, t: Layout, k: int) {
    && 0 <= k && k + 1 < |s.free|
    && (var a, c := s.free[k], s.free[k + 1];
        && a in s.blocks && c in s.blocks && a + s.blocks[a].span == c && 0 <= c < |s.m|
        && t == s.(m := t.m, blocks := Fuse(s.blocks, a, c), free := s.free[..k + 1] + s.free[k + 2..])
        && |t.m| == |s.m|
        && (forall u {:trigger t.m[u]} :: 0 <= u < |s.m| ==>
              t.m[u] == if u == a then s.m[u].(word1 := s.blocks[a].span + s.blocks[c].span, link := s.m[c].link)
                        else s.m[u]))
  }

  lemma FuseKeepsList(b: Blocks, l: seq<int>, k: int)
    requires Sorted(l) && Complete(b, l) && 0 <= k && k + 1 < |l| && l[k] in b && l[k + 1] in b
    ensures var n := l[..k + 1] + l[k + 2..]; Sorted(n) && Complete(Fuse(b, l[k], l[k + 1]), n)
  {
    var a, c, n := l[k], l[k + 1], l[..k + 1] + l[k + 2..];
    assert a in l && c in l;
    forall x
      ensures x in n <==> x in l && x != c
    {
      if x in l && x != c {
        var j :| 0 <= j < |l| && l[j] == x;
        assert n[if j <= k then j else j - 1] == x;
      }
    }
  }

  lemma FuseAtKeepsInv(s: Layout, t: Layout, k: int)
    requires Inv(s) && FusedAt(s, t, k)
    ensures Inv(t)
  {
    var a, c := s.free[k], s.free[k + 1];
    NodeFacts(s, k);
    NodeFacts(s, k + 1);
    FuseKeepsList(s.blocks, s.free, k);
    FuseKeepsTiling(s.blocks, s.lo, s.hi, a, c);
    FuseAtKeepsTags(s, t, k);
    forall j | 0 <= j < |t.free|
      ensures LinkOk(t, j)
    {
      FuseAtKeepsLink(s, t, k, j);
    }
  }

  lemma FuseAtKeepsTags(s: Layout, t: Layout, k: int)
    requires Inv(s) && FusedAt(s, t, k) && Tiled(t.blocks, t.lo, t.hi) && s.blocks[s.free[k]].free
    ensures Bounded(t) && Tagged(t)
  {
  }

  lemma FuseAtKeepsLink(s: Layout, t: Layout, k: int, j: int)
    requires Inv(s) && FusedAt(s, t, k) && Bounded(t) && 0 <= j < |t.free|
    ensures LinkOk(t, j)
  {
    var i := if j <= k then j else j + 1;
    NodeFacts(s, i);
    NodeFacts(s, k);
    NodeFacts(s, k + 1);
    assert t.free[j] == s.free[i];
  }

  // Splitting a listed block; its list position stays.

  ghost predicate CarvedAt(s: Layout, t: Layout, c: int, tail: int) {
    && c in s.blocks && 0 < c && 1 <= tail < s.blocks[c].span
    && t == s.(m := t.m, blocks := Carve(s.blocks, c, tail))
    && |t.m| == |s.m|
    && (var rest := s.blocks[c].span - tail;
        forall u {:trigger t.m[u]} :: 0 <= u < |s.m| ==>
          t.m[u] == if u == c then s.m[u].(word1 := rest)
                    else if u == c + rest && c < |s.m| then Unit(USED, tail, s.m[c].link)
                    else s.m[u])
  }

  lemma CarveAtKeepsInv(s: Layout, t: Layout, c: int, tail: int)
    requires Inv(s) && CarvedAt(s, t, c, tail) && s.blocks[c].free
    ensures Inv(t)
  {
    CarveKeepsTiling(s.blocks, s.lo, s.hi, c, tail);
    CarvePointIsFresh(s.blocks, c, tail);
    CarveAtKeepsTags(s, t, c, tail);
    forall x | x in t.blocks && t.blocks[x].free
      ensures x in t.free
    {
      assert x in s.blocks && s.blocks[x].free;
    }
    forall j | 0 <= j < |t.free|
      ensures LinkOk(t, j)
    {
      NodeFacts(s, j);
    }
  }

  lemma CarveAtKeepsTags(s: Layout, t: Layout, c: int, tail: int)
    requires Inv(s) && CarvedAt(s, t, c, tail) && s.blocks[c].free
    requires Tiled(t.blocks, t.lo, t.hi) && c + s.blocks[c].span - tail !in s.blocks
    ensures Bounded(t) && Tagged(t)
  {
    BlockFacts(s, c);
    forall a | a in t.blocks
      ensures t.m[a].word0 == (if t.blocks[a].free then FREE else USED) && t.m[a].word1 == t.blocks[a].span
    {
      if a in s.blocks { assert s.blocks[a].span >= 1; }
    }
  }

  // Taking a node off the list; its block becomes used.

  ghost predicate DetachedAt(s: Layout, t: Layout, k: int) {
    && 0 <= k < |s.free| && s.free[k] in s.blocks
    && (var c := s.free[k];
        && t == s.(m := t.m, head := if k == 0 then NextIn(s.free, k) else s.head,
                   blocks := s.blocks[c := s.blocks[c].(free := false)], free := s.free[..k] + s.free[k + 1..])
        && |t.m| == |s.m|
        && (forall u {:trigger t.m[u]} :: 0 <= u < |s.m| ==>
              t.m[u] == if u == c then s.m[u].(word0 := USED, link := NULL)
                        else if 0 < k && u == s.free[k - 1] then s.m[u].(link := NextIn(s.free, k))
                        else s.m[u]))
  }

  lemma DetachKeepsList(b: Blocks, l: seq<int>, k: int)
    requires Sorted(l) && Complete(b, l) && 0 <= k < |l| && l[k] in b
    ensures var n := l[..k] + l[k + 1..]; Sorted(n) && Complete(b[l[k] := b[l[k]].(free := false)], n)
  {
    var c, n := l[k], l[..k] + l[k + 1..];
    forall x
      ensures x in n <==> x in l && x != c
    {
      if x in l && x != c {
        var j :| 0 <= j < |l| && l[j] == x;
        assert n[if j < k then j else j - 1] == x;
      }
    }
  }

  lemma DetachAtKeepsInv(s: Layout, t: Layout, k: int)
    requires Inv(s) && DetachedAt(s, t, k)
    ensures Inv(t)
  {
    NodeFacts(s, k);
    if 0 < k { NodeFacts(s, k - 1); }
    DetachKeepsList(s.blocks, s.free, k);
    StatusKeepsTiling(s.blocks, s.lo, s.hi, s.free[k], false);
    DetachAtKeepsTags(s, t, k);
    forall j | 0 <= j < |t.free|
      ensures LinkOk(t, j)
    {
      DetachAtKeepsLink(s, t, k, j);
    }
  }

  lemma DetachAtKeepsTags(s: Layout, t: Layout, k: int)
    requires Inv(s) && DetachedAt(s, t, k) && Tiled(t.blocks, t.lo, t.hi)
    requires 0 < k ==> s.free[k - 1] in s.blocks && s.free[k - 1] != s.free[k]
    ensures Bounded(t) && Tagged(t)
  {
  }

  lemma DetachAtKeepsLink(s: Layout, t: Layout, k: int, j: int)
    requires Inv(s) && DetachedAt(s, t, k) && Bounded(t) && 0 <= j < |t.free|
    ensures LinkOk(t, j)
  {
    var i := if j < k then j else j + 1;
    NodeFacts(s, i);
    NodeFacts(s, k);
    assert t.free[j] == s.free[i];
    if 0 < k && i != k - 1 { assert s.free[i] != s.free[k - 1]; }
    assert s.free[i] != s.free[k];
  }

  // A new used block at the end of the arena.

  ghost predicate GrownBy(s: Layout, t: Layout, span: int) {
    && s.lo != NULL && 1 <= span && 0 < s.hi && s.hi + span <= |s.m|
    && t == s.(m := t.m, hi := s.hi + span, blocks := s.blocks[s.hi := Block(span, false)])
    && |t.m| == |s.m|
    && (forall u {:trigger t.m[u]} :: 0 <= u < |s.m| ==>
          t.m[u] == if u == s.hi then Unit(USED, span, NULL) else s.m[u])
  }

  lemma GrowKeepsInv(s: Layout, t: Layout, span: int)
    requires Inv(s) && GrownBy(s, t, span)
    ensures Inv(t)
  {
    GrowKeepsTiling(s, t, span);
    GrowKeepsTags(s, t, span);
    forall x | x in t.blocks && t.blocks[x].free
      ensures x in t.free
    {
      assert x in s.blocks && s.blocks[x].free;
    }
    forall j | 0 <= j < |t.free|
      ensures LinkOk(t, j)
    {
      NodeFacts(s, j);
    }
  }

  lemma GrowKeepsTiling(s: Layout, t: Layout, span: int)
    requires Inv(s) && GrownBy(s, t, span)
    ensures Tiled(t.blocks, t.lo, t.hi)
    ensures forall a {:trigger s.blocks[a]} :: a in s.blocks ==> a < s.hi
  {
    forall a | a in s.blocks
      ensures a < s.hi
    {
      assert s.blocks[a].span >= 1;
    }
    forall a | a in t.blocks
      ensures EndsAtBoundary(t.blocks, t.hi, a)
    {
      if a in s.blocks { assert EndsAtBoundary(s.blocks, s.hi, a); }
    }
  }

  lemma GrowKeepsTags(s: Layout, t: Layout, span: int)
    requires Inv(s) && GrownBy(s, t, span) && Tiled(t.blocks, t.lo, t.hi)
    requires forall a {:trigger s.blocks[a]} :: a in s.blocks ==> a < s.hi
    ensures Bounded(t) && Tagged(t)
  {
  }
}
