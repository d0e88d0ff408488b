/** Bins as sequences of header addresses, front first. */
module BinLists {
  import opened Chunk

  /** The node after position `k` of a bin, as its next link stores it. */
  function NextIn(l: seq<int>, k: int): int
    requires 0 <= k < |l|
  {
    if k + 1 < |l| then l[k + 1] else NULL
  }

  /** The node before position `k` of a bin, as its prev link stores it. */
  function PrevIn(l: seq<int>, k: int): int
    requires 0 <= k < |l|
  {
    if k > 0 then l[k - 1] else NULL
  }

  function HeadOf(l: seq<int>): int {
    if l == [] then NULL else l[0]
  }

  ghost predicate Distinct(l: seq<int>) {
    forall j, k {:trigger l[j], l[k]} :: 0 <= j < k < |l| ==> l[j] != l[k]
  }

  /** `l` without its first occurrence of `c`. */
  function Without(l: seq<int>, c: int): seq<int> {
    if l == [] then [] else if l[0] == c then l[1..] else [l[0]] + Without(l[1..], c)
  }

  lemma {:induction false} WithoutSlices(l: seq<int>, c: int, k: int)
    requires Distinct(l) && 0 <= k < |l| && l[k] == c
    ensures Without(l, c) == l[..k] + l[k + 1..]
  {
    if k > 0 {
      WithoutSlices(l[1..], c, k - 1);
      assert l[0] != l[k];
    }
  }

  lemma WithoutMembers(l: seq<int>, c: int)
    requires Distinct(l) && c in l
    ensures Distinct(Without(l, c))
    ensures forall x {:trigger x in Without(l, c)} {:trigger x in l} :: x in Without(l, c) <==> x in l && x != c
  {
    var k :| 0 <= k < |l| && l[k] == c;
    WithoutSlices(l, c, k);
    hide Without;
    var w := Without(l, c);
    forall x
      ensures x in w <==> x in l && x != c
    {
      if x in l && x != c {
        var j :| 0 <= j < |l| && l[j] == x;
        assert w[if j < k then j else j - 1] == x;
      }
    }
  }
}
