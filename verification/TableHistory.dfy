/** Operations on the table as steps of one sequential map, and what it means for a concurrent history
    to be explained by such steps. */
module TableHistory {
  import opened HashFunction

  type Map = map<CString, CString>

  datatype Op =
    | OpInsert(key: CString, value: CString)
    | OpRead(key: CString, quick: bool)
    | OpUpdate(key: CString, value: CString)
    | OpDelete(key: CString)

  /** The code an operation returns, and the value a successful read copies out. */
  datatype Answer = Answer(code: int, value: CString)

  predicate Succeeds(m: Map, op: Op) {
    if op.OpInsert? then op.key !in m else op.key in m
  }

  /** The sequential map: the answer of an operation and the map after it. */
  function AnswerOf(m: Map, op: Op): Answer {
    if !Succeeds(m, op) then Answer(0, [])
    else if op.OpRead? then Answer(1, m[op.key])
    else Answer(1, [])
  }

  function MapAfter(m: Map, op: Op): Map {
    if !Succeeds(m, op) then m
    else match op
      case OpInsert(k, v) => m[k := v]
      case OpUpdate(k, v) => m[k := v]
      case OpDelete(k) => m - {k}
      case OpRead(_, _) => m
  }

  /** What threads do, in the order it happens. `TakesEffect` marks the moment an operation is explained
      by a step of the sequential map. */
  datatype Event =
    | Called(thread: nat, op: Op)
    | TakesEffect(thread: nat, op: Op, answer: Answer)
    | Returned(thread: nat, answer: Answer)
    | Failed(thread: nat)

  /** Where a thread stands after a history; `Confused` when its events are out of order. */
  datatype Standing = Quiet | Pending(op: Op) | Done(op: Op, answer: Answer) | Confused

  function Next(st: Standing, t: nat, e: Event): Standing {
    if e.thread != t then st
    else match e
      case Called(_, op) => if st == Quiet then Pending(op) else Confused
      case TakesEffect(_, op, a) => if st == Pending(op) then Done(op, a) else Confused
      case Returned(_, a) => if st.Done? && st.answer == a then Quiet else Confused
      case Failed(_) => if st.Pending? then Quiet else Confused
  }

  function StandingOf(h: seq<Event>, t: nat): Standing {
    if h == [] then Quiet else Next(StandingOf(h[..|h| - 1], t), t, h[|h| - 1])
  }

  /** The map after the effects of a history, taken in order. */
  function Replay(h: seq<Event>): Map {
    if h == [] then map[]
    else
      var m, e := Replay(h[..|h| - 1]), h[|h| - 1];
      if e.TakesEffect? then MapAfter(m, e.op) else m
  }

  /** Every effect has the answer the sequential map gives at that point. */
  ghost predicate Legal(h: seq<Event>) {
    forall k {:trigger h[k]} :: 0 <= k < |h| && h[k].TakesEffect? ==> h[k].answer == AnswerOf(Replay(h[..k]), h[k].op)
  }

  /** The history is explained by one sequential run: each thread's events come as call, one effect,
      return with that effect's answer (or call and failure, with no effect), and the effects in their
      order are a legal run of the sequential map. */
  ghost predicate Linearizable(h: seq<Event>) {
    Legal(h) && forall t {:trigger StandingOf(h, t)} :: StandingOf(h, t) != Confused
  }

  lemma Snoc(h: seq<Event>, e: Event)
    ensures Replay(h + [e]) == if e.TakesEffect? then MapAfter(Replay(h), e.op) else Replay(h)
    ensures forall t {:trigger StandingOf(h + [e], t)} :: StandingOf(h + [e], t) == Next(StandingOf(h, t), t, e)
    ensures Legal(h) && (e.TakesEffect? ==> e.answer == AnswerOf(Replay(h), e.op)) ==> Legal(h + [e])
  {
    var g := h + [e];
    assert g[..|g| - 1] == h;
    if Legal(h) && (e.TakesEffect? ==> e.answer == AnswerOf(Replay(h), e.op)) {
      forall k | 0 <= k < |g| && g[k].TakesEffect?
        ensures g[k].answer == AnswerOf(Replay(g[..k]), g[k].op)
      {
        if k < |h| { assert g[..k] == h[..k] && g[k] == h[k]; }
      }
    }
  }

  // Chains as sequences of key-value pairs.

  datatype Pair = Pair(key: CString, value: CString)

  /** Position `j` of the chain of `key`'s bucket holds `key`. */
  ghost predicate HoldsKey(chains: seq<seq<Pair>>, key: CString, j: int)
    requires 0 < |chains|
  {
    var c := chains[BucketOf(key, |chains|)];
    0 <= j < |c| && c[j].key == key
  }

  ghost predicate Findable(chains: seq<seq<Pair>>, key: CString)
    requires 0 < |chains|
  {
    exists j :: HoldsKey(chains, key, j)
  }

  ghost predicate KeysDistinct(c: seq<Pair>) {
    forall j, k {:trigger c[j], c[k]} :: 0 <= j < k < |c| ==> c[j].key != c[k].key
  }

  /** The chains hold exactly the pairs of `m`, each in its bucket and once. */
  ghost predicate Represents(chains: seq<seq<Pair>>, m: Map) {
    && 0 < |chains|
    && (forall b, j {:trigger chains[b][j]} :: 0 <= b < |chains| && 0 <= j < |chains[b]| ==>
          && BucketOf(chains[b][j].key, |chains|) == b
          && chains[b][j].key in m && m[chains[b][j].key] == chains[b][j].value)
    && (forall key {:trigger key in m} :: key in m ==> Findable(chains, key))
    && (forall b {:trigger chains[b]} :: 0 <= b < |chains| ==> KeysDistinct(chains[b]))
  }

  /** What deciding at position `pos` does to the chain: `pos` is the key's position, or the length. */
  function ChainAfter(c: seq<Pair>, op: Op, pos: nat): seq<Pair>
    requires pos <= |c|
  {
    if pos == |c| then
      if op.OpInsert? then [Pair(op.key, op.value)] + c else c
    else match op
      case OpUpdate(k, v) => c[pos := Pair(c[pos].key, v)]
      case OpDelete(k) => c[..pos] + c[pos + 1..]
      case _ => c
  }

  function AnswerAt(c: seq<Pair>, op: Op, pos: nat): Answer
    requires pos <= |c|
  {
    if pos == |c| then Answer(if op.OpInsert? then 1 else 0, [])
    else match op
      case OpInsert(_, _) => Answer(0, [])
      case OpRead(_, _) => Answer(1, c[pos].value)
      case _ => Answer(1, [])
  }

  /** The walk has passed `pos` entries without meeting `key`. */
  ghost predicate Passed(c: seq<Pair>, key: CString, pos: nat) {
    pos <= |c| && forall j {:trigger c[j]} :: 0 <= j < pos ==> c[j].key != key
  }

  lemma KeyAtOrAbsent(chains: seq<seq<Pair>>, m: Map, key: CString, pos: nat)
    requires Represents(chains, m)
    requires var c := chains[BucketOf(key, |chains|)]; Passed(c, key, pos) && (pos < |c| ==> c[pos].key == key)
    ensures pos == |chains[BucketOf(key, |chains|)]| <==> key !in m
    ensures key in m ==> m[key] == chains[BucketOf(key, |chains|)][pos].value
  {
    var c := chains[BucketOf(key, |chains|)];
    if key in m {
      var j :| HoldsKey(chains, key, j);
      assert KeysDistinct(c);
    }
  }

  /** The sequential map's answer, read off the chain. */
  lemma AnswerIsMaps(chains: seq<seq<Pair>>, m: Map, op: Op, pos: nat)
    requires Represents(chains, m)
    requires var c := chains[BucketOf(op.key, |chains|)]; Passed(c, op.key, pos) && (pos < |c| ==> c[pos].key == op.key)
    ensures AnswerAt(chains[BucketOf(op.key, |chains|)], op, pos) == AnswerOf(m, op)
  {
    KeyAtOrAbsent(chains, m, op.key, pos);
  }

  /** The chains go on representing the sequential map. */
  lemma ChainsFollowMap(chains: seq<seq<Pair>>, m: Map, op: Op, pos: nat)
    requires Represents(chains, m)
    requires var c := chains[BucketOf(op.key, |chains|)]; Passed(c, op.key, pos) && (pos < |c| ==> c[pos].key == op.key)
    ensures var b := BucketOf(op.key, |chains|);
      Represents(chains[b := ChainAfter(chains[b], op, pos)], MapAfter(m, op))
  {
    KeyAtOrAbsent(chains, m, op.key, pos);
    var b := BucketOf(op.key, |chains|);
    var c := chains[b];
    var d := ChainAfter(c, op, pos);
    assert KeysDistinct(c);
    if pos == |c| && op.OpInsert? {
      InsertFollows(chains, m, op.key, op.value);
    } else if pos < |c| && op.OpUpdate? {
      UpdateFollows(chains, m, op.key, op.value, pos);
    } else if pos < |c| && op.OpDelete? {
      DeleteFollows(chains, m, op.key, pos);
    } else {
      assert chains[b := d] == chains;
    }
  }

  lemma InsertFollows(chains: seq<seq<Pair>>, m: Map, key: CString, value: CString)
    requires Represents(chains, m) && key !in m
    ensures var b := BucketOf(key, |chains|); Represents(chains[b := [Pair(key, value)] + chains[b]], m[key := value])
  {
    var b := BucketOf(key, |chains|);
    var after := chains[b := [Pair(key, value)] + chains[b]];
    assert KeysDistinct(chains[b]);
    var n := m[key := value];
    forall x | x in n
      ensures Findable(after, x)
    {
      if x == key {
        assert HoldsKey(after, x, 0);
      } else {
        var j :| HoldsKey(chains, x, j);
        assert HoldsKey(after, x, if BucketOf(x, |chains|) == b then j + 1 else j);
      }
    }
    assert KeysDistinct(after[b]) by {
      forall j, k | 0 <= j < k < |after[b]|
        ensures after[b][j].key != after[b][k].key
      {
        assert after[b][k] == chains[b][k - 1];
      }
    }
  }

  lemma UpdateFollows(chains: seq<seq<Pair>>, m: Map, key: CString, value: CString, pos: nat)
    requires Represents(chains, m) && HoldsKey(chains, key, pos)
    ensures var b := BucketOf(key, |chains|); Represents(chains[b := chains[b][pos := Pair(key, value)]], m[key := value])
  {
    var b := BucketOf(key, |chains|);
    var after := chains[b := chains[b][pos := Pair(key, value)]];
    assert KeysDistinct(chains[b]);
    var n := m[key := value];
    forall x | x in n
      ensures Findable(after, x)
    {
      if x == key {
        assert HoldsKey(after, x, pos);
      } else {
        var j :| HoldsKey(chains, x, j);
        assert HoldsKey(after, x, j);
      }
    }
  }

  lemma DeleteFollows(chains: seq<seq<Pair>>, m: Map, key: CString, pos: nat)
    requires Represents(chains, m) && HoldsKey(chains, key, pos)
    ensures var b := BucketOf(key, |chains|); Represents(chains[b := chains[b][..pos] + chains[b][pos + 1..]], m - {key})
  {
    var b := BucketOf(key, |chains|);
    var c, d := chains[b], chains[b][..pos] + chains[b][pos + 1..];
    var after := chains[b := d];
    assert KeysDistinct(c);
    forall x | x in m - {key}
      ensures Findable(after, x)
    {
      DeleteKeepsOthers(chains, m, key, pos, x);
    }
    forall i, j | 0 <= i < |after| && 0 <= j < |after[i]|
      ensures BucketOf(after[i][j].key, |chains|) == i && after[i][j].key in m - {key}
      ensures m[after[i][j].key] == after[i][j].value
    {
      var x := if i == b && pos <= j then j + 1 else j;
      assert after[i][j] == chains[i][x];
      assert BucketOf(chains[i][x].key, |chains|) == i;
    }
  }

  lemma DeleteKeepsOthers(chains: seq<seq<Pair>>, m: Map, key: CString, pos: nat, x: CString)
    requires Represents(chains, m) && HoldsKey(chains, key, pos) && x in m && x != key
    ensures var b := BucketOf(key, |chains|); Findable(chains[b := chains[b][..pos] + chains[b][pos + 1..]], x)
  {
    var b := BucketOf(key, |chains|);
    var after := chains[b := chains[b][..pos] + chains[b][pos + 1..]];
    var j :| HoldsKey(chains, x, j);
    assert HoldsKey(after, x, if BucketOf(x, |chains|) == b && pos < j then j - 1 else j);
  }
}