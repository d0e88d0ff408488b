/** The chained hash table, without its locks: a map from keys to values. */
module HashTable {
  import opened HashFunction
  import TableHistory

  type Chain = seq<Node>

  class Node {
    const key: CString
    const keySize: int
    var value: CString
    var valueSize: int
    var next: Node?

    constructor (key: CString, value: CString, next: Node?)
      ensures this.key == key && this.value == value && this.next == next
      ensures keySize == |key| + 1 && valueSize == |value| + 1
    {
      this.key, this.keySize := key, |key| + 1;
      this.value, this.valueSize := value, |value| + 1;
      this.next := next;
    }
  }

  function FirstOf(c: Chain): Node? {
    if c == [] then null else c[0]
  }

  function After(c: Chain, k: int): Node?
    requires 0 <= k < |c|
  {
    if k + 1 < |c| then c[k + 1] else null
  }

  /** Every node is in the chain of the bucket its key hashes to, once; keys are unique. */
  ghost predicate Placed(size: int, chains: seq<Chain>, nodes: set<Node>) {
    && 0 < size == |chains|
    && (forall n {:trigger n in nodes} :: n in nodes ==> n in chains[BucketOf(n.key, size)])
    && (forall i, k {:trigger chains[i][k]} :: 0 <= i < size && 0 <= k < |chains[i]| ==>
          chains[i][k] in nodes && BucketOf(chains[i][k].key, size) == i)
    && (forall i {:trigger chains[i]} :: 0 <= i < size ==> Distinct(chains[i]))
    && KeysUnique(nodes)
  }

  ghost predicate Distinct(c: Chain) {
    forall j, k {:trigger c[j], c[k]} :: 0 <= j < k < |c| ==> c[j] != c[k]
  }

  ghost predicate KeysUnique(nodes: set<Node>) {
    forall m, n {:trigger m in nodes, n in nodes} :: m in nodes && n in nodes && m.key == n.key ==> m == n
  }

  lemma PlacedSizes(size: int, chains: seq<Chain>, nodes: set<Node>)
    requires Placed(size, chains, nodes)
    ensures 0 < size == |chains|
  {
  }

  /** A node with a new key at the front of its chain. */
  lemma PushKeepsPlaces(size: int, chains: seq<Chain>, nodes: set<Node>, n: Node)
    requires Placed(size, chains, nodes) && n !in nodes
    requires forall m {:trigger m in nodes} :: m in nodes ==> m.key != n.key
    ensures var i := BucketOf(n.key, size); Placed(size, chains[i := [n] + chains[i]], nodes + {n})
  {
    var i := BucketOf(n.key, size);
    var after := chains[i := [n] + chains[i]];
    assert Distinct(chains[i]);
    forall m | m in nodes + {n}
      ensures m in after[BucketOf(m.key, size)]
    {
      if m in nodes && BucketOf(m.key, size) == i {
        assert m in [n] + chains[i];
      }
    }
    forall j, k | 0 <= j < size && 0 <= k < |after[j]|
      ensures after[j][k] in nodes + {n} && BucketOf(after[j][k].key, size) == j
    {
      if j == i && 0 < k { assert after[j][k] == chains[i][k - 1]; }
    }
  }

  /** A node unlinked from its chain. */
  lemma UnlinkKeepsPlaces(size: int, chains: seq<Chain>, nodes: set<Node>, i: int, k: int)
    requires Placed(size, chains, nodes) && 0 <= i < size && 0 <= k < |chains[i]|
    ensures Placed(size, chains[i := chains[i][..k] + chains[i][k + 1..]], nodes - {chains[i][k]})
  {
    var c, d, n := chains[i], chains[i][..k] + chains[i][k + 1..], chains[i][k];
    var after := chains[i := d];
    assert Distinct(c);
    forall m | m in nodes - {n}
      ensures m in after[BucketOf(m.key, size)]
    {
      if BucketOf(m.key, size) == i {
        var j :| 0 <= j < |c| && c[j] == m;
        assert d[if j < k then j else j - 1] == m;
      }
    }
    forall j, x | 0 <= j < size && 0 <= x < |after[j]|
      ensures after[j][x] in nodes - {n} && BucketOf(after[j][x].key, size) == j
    {
      if j == i {
        assert after[j][x] == c[if x < k then x else x + 1];
      } else {
        assert chains[j][x] in nodes;
      }
    }
  }

  lemma ChainNode(size: int, chains: seq<Chain>, nodes: set<Node>, i: int, k: int)
    requires Placed(size, chains, nodes) && 0 <= i < size && 0 <= k < |chains[i]|
    ensures chains[i][k] in nodes && (0 < k ==> chains[i][k - 1] in nodes)
  {
  }

  /** The successor of each node once position `k` of chain `idx` is gone. */
  lemma UnlinkedNext(size: int, chains: seq<Chain>, nodes: set<Node>, idx: int, k: int, i: int, j: int)
    requires Placed(size, chains, nodes) && 0 <= idx < size && 0 <= k < |chains[idx]| && 0 <= i < size
    requires var d := chains[idx := chains[idx][..k] + chains[idx][k + 1..]]; 0 <= j < |d[i]|
    ensures var d := chains[idx := chains[idx][..k] + chains[idx][k + 1..]];
      var x := if i == idx && k <= j then j + 1 else j;
      && x < |chains[i]| && d[i][j] == chains[i][x]
      && After(d[i], j) == (if 0 < k && chains[i][x] == chains[idx][k - 1] then After(chains[idx], k) else After(chains[i], x))
  {
    var x := if i == idx && k <= j then j + 1 else j;
    if 0 < k {
      ChainNode(size, chains, nodes, idx, k);
      assert BucketOf(chains[idx][k - 1].key, size) == idx && BucketOf(chains[i][x].key, size) == i;
      assert Distinct(chains[idx]);
    }
  }

  /** Returning `code` and `value` and going from `before` to `after` is what `op` does to a map. */
  ghost predicate IsStep(before: TableHistory.Map, op: TableHistory.Op, code: int, value: CString, after: TableHistory.Map) {
    TableHistory.Answer(code, value) == TableHistory.AnswerOf(before, op) && after == TableHistory.MapAfter(before, op)
  }

  class Table {
    const size: int
    const buckets: array<Node?>
    const bucketSizes: array<int>
    ghost var chains: seq<Chain>
    ghost var nodes: set<Node>

    ghost predicate Shaped()
      reads this
    {
      size == buckets.Length == bucketSizes.Length && Placed(size, chains, nodes)
    }

    ghost predicate LinkOk(i: int, k: int)
      requires 0 <= i < |chains| && 0 <= k < |chains[i]|
      reads this, chains[i][k]
    {
      chains[i][k].next == After(chains[i], k)
    }

    /** The buckets and next links spell the chains, and the counters are their lengths. */
    ghost predicate Linked()
      requires Shaped()
      reads this, buckets, bucketSizes, nodes
    {
      && (forall i {:trigger chains[i]} :: 0 <= i < size ==> buckets[i] == FirstOf(chains[i]) && bucketSizes[i] == |chains[i]|)
      && (forall i, k {:trigger LinkOk(i, k)} :: 0 <= i < size && 0 <= k < |chains[i]| ==> LinkOk(i, k))
      && (forall n {:trigger n in nodes} :: n in nodes ==> n.valueSize == |n.value| + 1)
    }

    ghost predicate Valid()
      reads this, buckets, bucketSizes, nodes
    {
      Shaped() && Linked()
    }

    /** The map the table represents. */
    ghost function Contents(): map<CString, CString>
      requires Shaped()
      reads this, nodes
    {
      map n | n in nodes :: n.key := n.value
    }

    constructor (size: int)
      requires 0 < size
      ensures Valid() && this.size == size && Contents() == map[]
      ensures fresh(buckets) && fresh(bucketSizes)
    {
      this.size := size;
      buckets := new Node?[size](_ => null);
      bucketSizes := new int[size](_ => 0);
      chains := seq(size, _ => []);
      nodes := {};
    }

    /** The node with key `key`, and the one before it in its chain. */
    method Locate(key: CString, idx: int) returns (prev: Node?, node: Node?, ghost k: int)
      requires Valid() && idx == BucketOf(key, size)
      ensures 0 <= k <= |chains[idx]|
      ensures node == null <==> key !in Contents()
      ensures node == null ==> k == |chains[idx]|
      ensures node != null ==> k < |chains[idx]| && node == chains[idx][k] && node.key == key && key in Contents() && node in nodes
      ensures node != null ==> prev == if k == 0 then null else chains[idx][k - 1]
    {
      k := 0;
      prev := null;
      node := buckets[idx];
      assert node == FirstOf(chains[idx]);
      while node != null
        invariant 0 <= k <= |chains[idx]|
        invariant node == if k < |chains[idx]| then chains[idx][k] else null
        invariant prev == if k == 0 then null else chains[idx][k - 1]
        invariant forall j :: 0 <= j < k ==> chains[idx][j].key != key
        decreases |chains[idx]| - k
      {
        assert LinkOk(idx, k);
        if node.key == key {
          assert chains[idx][k] in nodes;
          return;
        }
        prev := node;
        node := node.next;
        k := k + 1;
      }
    }

    /** Adds a new key; 0 when the key is there already, and then nothing changes. */
    method Insert(key: CString, value: CString) returns (r: int)
      requires Valid()
      modifies this, buckets, bucketSizes
      ensures Valid() && fresh(nodes - old(nodes))
      ensures r == if key in old(Contents()) then 0 else 1
      ensures Contents() == if r == 0 then old(Contents()) else old(Contents())[key := value]
      ensures IsStep(old(Contents()), TableHistory.OpInsert(key, value), r, [], Contents())
    {
      hide Placed, Linked, Contents;
      PlacedSizes(size, chains, nodes);
      var idx := Hash(key, size);
      var prev, node, k := Locate(key, idx);
      if node != null {
        return 0;
      }
      PushNode(idx, key, value);
      r := 1;
    }

    /** Links a new node at the head of bucket `idx`. */
    method PushNode(idx: int, key: CString, value: CString)
      requires Valid() && idx == BucketOf(key, size) && key !in Contents()
      modifies this, buckets, bucketSizes
      ensures Valid() && fresh(nodes - old(nodes)) && Contents() == old(Contents())[key := value]
      ensures |chains| == |old(chains)| && chains == old(chains)[idx := chains[idx]]
      ensures chains[idx] != [] && chains[idx][0].key == key && chains[idx][1..] == old(chains)[idx]
    {
      hide Placed, Linked, Contents;
      PlacedSizes(size, chains, nodes);
      NodesAreContents();
      var newNode := new Node(key, value, buckets[idx]);
      PushKeepsPlaces(size, chains, nodes, newNode);
      buckets[idx] := newNode;
      bucketSizes[idx] := bucketSizes[idx] + 1;
      chains := chains[idx := [newNode] + chains[idx]];
      nodes := nodes + {newNode};
      PushedLinks(idx, newNode);
      PushedContents(newNode);
    }

    lemma NodesAreContents()
      requires Shaped()
      ensures forall m {:trigger m in nodes} :: m in nodes ==> m.key in Contents() && Contents()[m.key] == m.value
    {
    }

    twostate lemma PushedContents(new n: Node)
      requires old(Shaped()) && Shaped() && nodes == old(nodes) + {n} && n.key !in old(Contents())
      requires forall m {:trigger m in old(nodes)} :: m in old(nodes) ==> m.value == old(m.value)
      ensures Contents() == old(Contents())[n.key := n.value]
    {
      var before, after := old(Contents())[n.key := n.value], Contents();
      forall key
        ensures key in after <==> key in before
        ensures key in after ==> after[key] == before[key]
      {
        if key in after {
          var m :| m in nodes && m.key == key;
          assert m == n || m in old(nodes);
        }
      }
    }

    /** The links after a push, given those before it. */
    twostate lemma PushedLinks(idx: int, new newNode: Node)
      requires old(Valid()) && Shaped() && 0 <= idx < size
      requires chains == old(chains)[idx := [newNode] + old(chains)[idx]] && nodes == old(nodes) + {newNode}
      requires buckets[idx] == newNode && newNode.next == old(buckets[idx]) && newNode.valueSize == |newNode.value| + 1
      requires bucketSizes[idx] == old(bucketSizes[idx]) + 1
      requires forall i :: 0 <= i < size && i != idx ==> buckets[i] == old(buckets[i]) && bucketSizes[i] == old(bucketSizes[i])
      requires forall n {:trigger n in old(nodes)} :: n in old(nodes) ==> n.next == old(n.next) && n.value == old(n.value) && n.valueSize == old(n.valueSize)
      ensures Linked()
    {
      forall i, j | 0 <= i < size && 0 <= j < |chains[i]|
        ensures LinkOk(i, j)
      {
        if i == idx && 0 < j {
          assert old(LinkOk(i, j - 1)) && old(chains)[i][j - 1] in old(nodes);
        } else if i != idx {
          assert old(LinkOk(i, j)) && old(chains)[i][j] in old(nodes);
        } else {
          assert old(chains)[i] == old(chains)[i];
        }
      }
      forall i | 0 <= i < size
        ensures buckets[i] == FirstOf(chains[i]) && bucketSizes[i] == |chains[i]|
      {
        assert old(buckets[i]) == FirstOf(old(chains)[i]);
      }
    }

    /** The value of a key; 0 when it is not there. */
    method Read(key: CString) returns (r: int, value: CString)
      requires Valid()
      ensures r == if key in Contents() then 1 else 0
      ensures r == 1 ==> value == Contents()[key]
      ensures forall quick :: IsStep(Contents(), TableHistory.OpRead(key, quick), r, if r == 1 then value else [], Contents())
    {
      value := [];
      var idx := Hash(key, size);
      var prev, node, k := Locate(key, idx);
      if node == null {
        return 0, [];
      }
      assert node in nodes;
      return 1, node.value;
    }

    /** Replaces the value of a key; 0 when it is not there, and then nothing changes. */
    method Update(key: CString, value: CString) returns (r: int)
      requires Valid()
      modifies nodes
      ensures Valid()
      ensures r == if key in old(Contents()) then 1 else 0
      ensures Contents() == if r == 0 then old(Contents()) else old(Contents())[key := value]
      ensures IsStep(old(Contents()), TableHistory.OpUpdate(key, value), r, [], Contents())
    {
      hide Placed, Linked, Contents;
      PlacedSizes(size, chains, nodes);
      var idx := Hash(key, size);
      var prev, node, k := Locate(key, idx);
      if node == null {
        return 0;
      }
      SetValue(node, value);
      r := 1;
    }

    method SetValue(node: Node, value: CString)
      requires Valid() && node in nodes
      modifies node
      ensures Valid() && Contents() == old(Contents())[node.key := value]
    {
      hide Placed, Linked, Contents;
      node.value := value;
      node.valueSize := |value| + 1;
      ValueLinks(node);
      ValueContents(node);
    }

    /** Changing one node's value changes no link. */
    twostate lemma ValueLinks(n: Node)
      requires old(Valid()) && Shaped() && n in nodes && n.valueSize == |n.value| + 1
      requires chains == old(chains) && nodes == old(nodes)
      requires forall i :: 0 <= i < buckets.Length ==> buckets[i] == old(buckets[i])
      requires forall i :: 0 <= i < bucketSizes.Length ==> bucketSizes[i] == old(bucketSizes[i])
      requires forall m {:trigger m in nodes} :: m in nodes ==>
                 m.next == old(m.next) && (m != n ==> m.value == old(m.value) && m.valueSize == old(m.valueSize))
      ensures Linked()
    {
      forall i, j | 0 <= i < size && 0 <= j < |chains[i]|
        ensures LinkOk(i, j)
      {
        assert old(LinkOk(i, j)) && chains[i][j] in nodes;
      }
      forall i | 0 <= i < size
        ensures buckets[i] == FirstOf(chains[i]) && bucketSizes[i] == |chains[i]|
      {
        assert old(buckets[i]) == FirstOf(old(chains)[i]);
      }
    }

    twostate lemma ValueContents(n: Node)
      requires old(Shaped()) && Shaped() && n in nodes && nodes == old(nodes)
      requires forall m {:trigger m in nodes} :: m in nodes && m != n ==> m.value == old(m.value)
      ensures n.key in old(Contents()) && Contents() == old(Contents())[n.key := n.value]
    {
      var before, after := old(Contents())[n.key := n.value], Contents();
      forall key
        ensures key in after <==> key in before
        ensures key in after ==> after[key] == before[key]
      {
        if key in after {
          var m :| m in nodes && m.key == key;
          assert m in old(nodes);
        }
      }
    }

    /** Removes a key; 0 when it is not there, and then nothing changes. */
    method Delete(key: CString) returns (r: int)
      requires Valid()
      modifies this, buckets, bucketSizes, nodes
      ensures Valid() && nodes <= old(nodes)
      ensures r == if key in old(Contents()) then 1 else 0
      ensures Contents() == old(Contents()) - {key}
      ensures IsStep(old(Contents()), TableHistory.OpDelete(key), r, [], Contents())
    {
      hide Placed, Linked, Contents;
      PlacedSizes(size, chains, nodes);
      var idx := Hash(key, size);
      var prev, node, k := Locate(key, idx);
      if node == null {
        return 0;
      }
      Unlink(idx, k, prev, node);
      r := 1;
    }

    /** Unlinks the node at position `k` of bucket `idx`. */
    method Unlink(idx: int, ghost k: int, prev: Node?, node: Node)
      requires Valid() && 0 <= idx < size && 0 <= k < |chains[idx]| && node == chains[idx][k] && node in nodes
      requires prev == if k == 0 then null else chains[idx][k - 1]
      modifies this, buckets, bucketSizes, nodes
      ensures Valid() && nodes == old(nodes) - {node}
      ensures Contents() == old(Contents()) - {node.key}
      ensures chains == old(chains)[idx := old(chains)[idx][..k] + old(chains)[idx][k + 1..]]
    {
      hide Placed, Linked, Contents;
      PlacedSizes(size, chains, nodes);
      ChainNode(size, chains, nodes, idx, k);
      UnlinkKeepsPlaces(size, chains, nodes, idx, k);
      Bypass(idx, prev, node);
      chains := chains[idx := chains[idx][..k] + chains[idx][k + 1..]];
      nodes := nodes - {node};
      UnlinkedLinks(idx, k, node);
      UnlinkedContents(node);
    }

    /** The stores of unlinking `node`, which follows `prev` or is first in bucket `idx`. */
    method Bypass(idx: int, prev: Node?, node: Node)
      requires 0 <= idx < buckets.Length == bucketSizes.Length && (prev != null ==> prev in nodes)
      modifies buckets, bucketSizes, nodes`next
      ensures buckets[idx] == if prev == null then old(node.next) else old(buckets[idx])
      ensures bucketSizes[idx] == old(bucketSizes[idx]) - 1
      ensures forall i :: 0 <= i < buckets.Length && i != idx ==> buckets[i] == old(buckets[i]) && bucketSizes[i] == old(bucketSizes[i])
      ensures prev != null ==> prev.next == old(node.next)
      ensures forall n {:trigger n in nodes} :: n in nodes && n != prev ==> n.next == old(n.next)
    {
      if prev == null {
        buckets[idx] := node.next;
      } else {
        prev.next := node.next;
      }
      bucketSizes[idx] := bucketSizes[idx] - 1;
    }

    /** The links after an unlink, given those before it. */
    twostate lemma UnlinkedLinks(new idx: int, new k: int, node: Node)
      requires old(Valid()) && Shaped() && 0 <= idx < size && 0 <= k < |old(chains)[idx]| && node == old(chains)[idx][k]
      requires chains == old(chains)[idx := old(chains)[idx][..k] + old(chains)[idx][k + 1..]] && nodes == old(nodes) - {node}
      requires buckets[idx] == if k == 0 then old(node.next) else old(buckets[idx])
      requires bucketSizes[idx] == old(bucketSizes[idx]) - 1
      requires forall i :: 0 <= i < size && i != idx ==> buckets[i] == old(buckets[i]) && bucketSizes[i] == old(bucketSizes[i])
      requires forall n {:trigger n in old(nodes)} :: n in old(nodes) ==>
                 n.value == old(n.value) && n.valueSize == old(n.valueSize)
      requires 0 < k ==> old(chains)[idx][k - 1].next == old(node.next)
      requires forall n {:trigger n in old(nodes)} :: n in old(nodes) && (0 < k ==> n != old(chains)[idx][k - 1]) ==> n.next == old(n.next)
      ensures Linked()
    {
      assert old(LinkOk(idx, k));
      forall i, j | 0 <= i < size && 0 <= j < |chains[i]|
        ensures LinkOk(i, j)
      {
        var x := if i == idx && k <= j then j + 1 else j;
        assert old(LinkOk(i, x)) && old(chains)[i][x] in old(nodes);
        UnlinkedNext(size, old(chains), old(nodes), idx, k, i, j);
      }
      forall i | 0 <= i < size
        ensures buckets[i] == FirstOf(chains[i]) && bucketSizes[i] == |chains[i]|
      {
        assert old(buckets[i]) == FirstOf(old(chains)[i]);
      }
    }

    twostate lemma UnlinkedContents(n: Node)
      requires old(Shaped()) && Shaped() && n in old(nodes) && nodes == old(nodes) - {n}
      requires forall m {:trigger m in old(nodes)} :: m in old(nodes) ==> m.value == old(m.value)
      ensures n.key in old(Contents()) && Contents() == old(Contents()) - {n.key}
    {
      var before, after := old(Contents()) - {n.key}, Contents();
      forall key
        ensures key in after <==> key in before
        ensures key in after ==> after[key] == before[key]
      {
        if key in after {
          var m :| m in nodes && m.key == key;
          assert m in old(nodes);
        }
      }
    }
  }
}