/** What it means for memory to leave the used blocks alone. */
module UsedUnits {
  import opened Tiling
  import opened Chunk

  /** `m2` has every unit of the used blocks as `m` has it. */
  ghost predicate KeepsUsed(b: Blocks, m: seq<Unit>, m2: seq<Unit>) {
    |m2| == |m| && forall u {:trigger m2[u]} :: 0 <= u < |m| && InUsed(b, u) ==> m2[u] == m[u]
  }

  lemma FuseKeepsInUsed(b: Blocks, a: int, c: int, u: int)
    requires a in b && c in b && b[a].free && b[c].free && a != c
    ensures InUsed(Fuse(b, a, c), u) <==> InUsed(b, u)
  {
    if InUsed(b, u) {
      var d :| Covers(b, d, u) && !b[d].free;
      assert Covers(Fuse(b, a, c), d, u);
    }
    if InUsed(Fuse(b, a, c), u) {
      var d :| Covers(Fuse(b, a, c), d, u) && !Fuse(b, a, c)[d].free;
      assert Covers(b, d, u);
    }
  }

  lemma KeepsUsedThroughFuse(b: Blocks, a: int, c: int, m: seq<Unit>, m2: seq<Unit>)
    requires a in b && c in b && b[a].free && b[c].free && a != c
    ensures KeepsUsed(Fuse(b, a, c), m, m2) <==> KeepsUsed(b, m, m2)
  {
    forall u
      ensures InUsed(Fuse(b, a, c), u) <==> InUsed(b, u)
    {
      FuseKeepsInUsed(b, a, c, u);
    }
  }

  lemma KeepsUsedTransitive(b: Blocks, m: seq<Unit>, m1: seq<Unit>, m2: seq<Unit>)
    requires KeepsUsed(b, m, m1) && KeepsUsed(b, m1, m2)
    ensures KeepsUsed(b, m, m2)
  {
  }

  lemma KeepsUsedWeakens(b: Blocks, f: Blocks, m: seq<Unit>, m2: seq<Unit>)
    requires forall u :: InUsed(b, u) ==> InUsed(f, u)
    requires KeepsUsed(f, m, m2)
    ensures KeepsUsed(b, m, m2)
  {
  }
}
