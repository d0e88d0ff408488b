/** The filtered, depth-limited listing of a directory tree. */
module DirTree {
  import opened PatternSyntax
  import opened PatternMatch

  datatype Kind = Directory | Symlink | Pipe | Socket | Other

  /** A directory entry; `children` are its entries in listing order, when it is a directory. */
  datatype Entry = Entry(name: string, kind: Kind, size: nat, blocks: nat, children: seq<Entry>)

  datatype Filter = NoFilter | ByPattern(atoms: seq<Atom>)

  datatype Details = Details(name: string, kind: Kind, size: nat, blocks: nat)

  function DetailsOf(e: Entry): Details {
    Details(e.name, e.kind, e.size, e.blocks)
  }

  /** A printed line: where the entry is (child numbers from the root), and its details, of which a
      line that is not full shows the name only. */
  datatype Line = Line(path: seq<nat>, full: bool, details: Details)

  datatype Summary = Summary(dirs: nat, files: nat, links: nat, pipes: nat, sockets: nat, size: nat, blocks: nat)

  ghost predicate Kept(f: Filter, name: string) {
    f.NoFilter? || MatchesSomewhere(f.atoms, name)
  }

  // What is there: entries within the depth limit, found by their paths.

  /** `path` leads, through directories and within the limit, to an entry below `es` at depth `d`. */
  ghost predicate Visible(es: seq<Entry>, path: seq<nat>, d: int, max: int) {
    && path != [] && path[0] < |es|
    && (|path| > 1 ==> es[path[0]].kind.Directory? && d < max && Visible(es[path[0]].children, path[1..], d + 1, max))
  }

  ghost function EntryAt(es: seq<Entry>, path: seq<nat>, d: int, max: int): Entry
    requires Visible(es, path, d, max)
  {
    if |path| == 1 then es[path[0]] else EntryAt(es[path[0]].children, path[1..], d + 1, max)
  }

  ghost predicate MatchAt(f: Filter, es: seq<Entry>, path: seq<nat>, d: int, max: int) {
    Visible(es, path, d, max) && Kept(f, EntryAt(es, path, d, max).name)
  }

  /** Some entry within the limit is kept. */
  ghost predicate HasMatch(f: Filter, es: seq<Entry>, d: int, max: int) {
    exists path :: MatchAt(f, es, path, d, max)
  }

  /** Whether the listing descends into `e`, found at depth `d`. */
  predicate Descends(e: Entry, d: int, max: int) {
    e.kind.Directory? && d < max
  }

  // The listing.

  ghost function HeadLines(f: Filter, e: Entry, path: seq<nat>, d: int, max: int): seq<Line> {
    if Kept(f, e.name) then [Line(path, true, DetailsOf(e))]
    else if Descends(e, d, max) && HasMatch(f, e.children, d + 1, max) then [Line(path, false, DetailsOf(e))]
    else []
  }

  /** Lines for entry `e` and below. */
  ghost function ListEntry(f: Filter, e: Entry, path: seq<nat>, d: int, max: int): seq<Line>
    decreases e, 1
  {
    HeadLines(f, e, path, d, max) + if Descends(e, d, max) then ListFrom(f, e.children, 0, path, d + 1, max) else []
  }

  /** Lines for the entries of `es` from number `i` on. */
  ghost function ListFrom(f: Filter, es: seq<Entry>, i: nat, prefix: seq<nat>, d: int, max: int): seq<Line>
    requires i <= |es|
    decreases es, 0, |es| - i
  {
    if i == |es| then []
    else ListEntry(f, es[i], prefix + [i], d, max) + ListFrom(f, es, i + 1, prefix, d, max)
  }

  lemma HasMatchOne(f: Filter, es: seq<Entry>, i: nat, d: int, max: int)
    requires i < |es|
    requires Kept(f, es[i].name) || (Descends(es[i], d, max) && HasMatch(f, es[i].children, d + 1, max))
    ensures HasMatch(f, es, d, max)
  {
    if Kept(f, es[i].name) {
      assert MatchAt(f, es, [i], d, max);
    } else {
      var path :| MatchAt(f, es[i].children, path, d + 1, max);
      assert ([i] + path)[1..] == path;
      assert MatchAt(f, es, [i] + path, d, max);
    }
  }

  lemma HasMatchSome(f: Filter, es: seq<Entry>, d: int, max: int) returns (i: nat)
    requires HasMatch(f, es, d, max)
    ensures i < |es| && (Kept(f, es[i].name) || (Descends(es[i], d, max) && HasMatch(f, es[i].children, d + 1, max)))
  {
    var path :| MatchAt(f, es, path, d, max);
    i := path[0];
    if |path| > 1 {
      assert MatchAt(f, es[i].children, path[1..], d + 1, max);
    }
  }

  /** Exactly the right lines: an entry within the limit has a full line when it is kept, a bare name
      when it is a directory with something kept below it, and no line otherwise. */
  ghost predicate Deserves(f: Filter, es: seq<Entry>, path: seq<nat>, line: Line, d: int, max: int) {
    && Visible(es, path, d, max)
    && (var e := EntryAt(es, path, d, max);
        && line.details == DetailsOf(e)
        && if line.full then Kept(f, e.name)
           else !Kept(f, e.name) && Descends(e, d + |path| - 1, max) && HasMatch(f, e.children, d + |path|, max))
  }

  /** `line` is about the entry at `path` below `es`, from number `i` on. */
  ghost predicate About(f: Filter, es: seq<Entry>, i: nat, prefix: seq<nat>, line: Line, path: seq<nat>, d: int, max: int) {
    path != [] && i <= path[0] && line.path == prefix + path && Deserves(f, es, path, line, d, max)
  }

  /** Some entry from number `i` on deserves `line`. */
  ghost predicate Deserved(f: Filter, es: seq<Entry>, i: nat, prefix: seq<nat>, line: Line, d: int, max: int) {
    exists path :: About(f, es, i, prefix, line, path, d, max)
  }

  ghost predicate DeservedAt(f: Filter, es: seq<Entry>, i: nat, prefix: seq<nat>, line: Line, d: int, max: int) {
    exists path :: About(f, es, i, prefix, line, path, d, max) && path[0] == i
  }

  lemma DeservedSplits(f: Filter, es: seq<Entry>, i: nat, prefix: seq<nat>, line: Line, d: int, max: int)
    ensures Deserved(f, es, i, prefix, line, d, max) <==>
            DeservedAt(f, es, i, prefix, line, d, max) || Deserved(f, es, i + 1, prefix, line, d, max)
  {
    if Deserved(f, es, i, prefix, line, d, max) {
      var path :| About(f, es, i, prefix, line, path, d, max);
      assert path[0] == i || About(f, es, i + 1, prefix, line, path, d, max);
    }
    if Deserved(f, es, i + 1, prefix, line, d, max) {
      var path :| About(f, es, i + 1, prefix, line, path, d, max);
      assert About(f, es, i, prefix, line, path, d, max);
    }
  }

  lemma ListFromSteps(f: Filter, es: seq<Entry>, i: nat, prefix: seq<nat>, d: int, max: int)
    requires i <= |es|
    ensures ListFrom(f, es, i, prefix, d, max) ==
            if i == |es| then [] else ListEntry(f, es[i], prefix + [i], d, max) + ListFrom(f, es, i + 1, prefix, d, max)
  {
  }

  lemma NothingPastTheEnd(f: Filter, es: seq<Entry>, prefix: seq<nat>, line: Line, d: int, max: int)
    ensures !Deserved(f, es, |es|, prefix, line, d, max)
  {
  }

  /** The lines of the entries from number `i` on are exactly those some entry deserves. */
  lemma {:induction false} ListedIff(f: Filter, es: seq<Entry>, i: nat, prefix: seq<nat>, line: Line, d: int, max: int)
    requires i <= |es|
    ensures line in ListFrom(f, es, i, prefix, d, max) <==> Deserved(f, es, i, prefix, line, d, max)
    decreases es, 0, |es| - i
  {
    hide *;
    ListFromSteps(f, es, i, prefix, d, max);
    if i == |es| {
      NothingPastTheEnd(f, es, prefix, line, d, max);
    } else {
      ListedIff(f, es, i + 1, prefix, line, d, max);
      EntryListedIff(f, es, i, prefix, line, d, max);
      DeservedSplits(f, es, i, prefix, line, d, max);
    }
  }

  lemma {:induction false} EntryListedIff(f: Filter, es: seq<Entry>, i: nat, prefix: seq<nat>, line: Line, d: int, max: int)
    requires i < |es|
    ensures line in ListEntry(f, es[i], prefix + [i], d, max) <==> DeservedAt(f, es, i, prefix, line, d, max)
    decreases es, 0, 0
  {
    var e := es[i];
    HeadDeserved(f, es, i, prefix, line, d, max);
    if Descends(e, d, max) {
      ListedIff(f, e.children, 0, prefix + [i], line, d + 1, max);
    }
    DeservedBelow(f, es, i, prefix, line, d, max);
  }

  /** The entry itself. */
  lemma HeadDeserved(f: Filter, es: seq<Entry>, i: nat, prefix: seq<nat>, line: Line, d: int, max: int)
    requires i < |es|
    ensures line in HeadLines(f, es[i], prefix + [i], d, max) <==> About(f, es, i, prefix, line, [i], d, max)
  {
    if About(f, es, i, prefix, line, [i], d, max) {
      assert line == Line(prefix + [i], line.full, DetailsOf(es[i]));
    }
  }

  /** What is below it. */
  lemma DeservedBelow(f: Filter, es: seq<Entry>, i: nat, prefix: seq<nat>, line: Line, d: int, max: int)
    requires i < |es|
    ensures DeservedAt(f, es, i, prefix, line, d, max) <==>
            About(f, es, i, prefix, line, [i], d, max) ||
            (Descends(es[i], d, max) && Deserved(f, es[i].children, 0, prefix + [i], line, d + 1, max))
  {
    if DeservedAt(f, es, i, prefix, line, d, max) {
      var path :| About(f, es, i, prefix, line, path, d, max) && path[0] == i;
      if |path| == 1 {
        assert path == [i];
      } else {
        assert path == [i] + path[1..];
        AboutBelow(f, es, i, prefix, line, path[1..], d, max);
      }
    }
    if Descends(es[i], d, max) && Deserved(f, es[i].children, 0, prefix + [i], line, d + 1, max) {
      var path :| About(f, es[i].children, 0, prefix + [i], line, path, d + 1, max);
      AboutBelow(f, es, i, prefix, line, path, d, max);
      assert ([i] + path)[0] == i;
    }
  }

  lemma AboutBelow(f: Filter, es: seq<Entry>, i: nat, prefix: seq<nat>, line: Line, path: seq<nat>, d: int, max: int)
    requires i < |es| && path != []
    ensures About(f, es, i, prefix, line, [i] + path, d, max) <==>
            Descends(es[i], d, max) && About(f, es[i].children, 0, prefix + [i], line, path, d + 1, max)
  {
    DeservesBelow(f, es, i, path, line, d, max);
    assert prefix + [i] + path == prefix + ([i] + path);
  }

  lemma DeservesBelow(f: Filter, es: seq<Entry>, i: nat, path: seq<nat>, line: Line, d: int, max: int)
    requires i < |es| && path != []
    ensures Deserves(f, es, [i] + path, line, d, max) <==> Descends(es[i], d, max) && Deserves(f, es[i].children, path, line, d + 1, max)
  {
    assert ([i] + path)[1..] == path;
  }

  /** Nothing is printed below an entry that has no line itself. */
  lemma HeadBeforeBelow(f: Filter, e: Entry, path: seq<nat>, d: int, max: int)
    requires Descends(e, d, max) && ListFrom(f, e.children, 0, path, d + 1, max) != []
    ensures HeadLines(f, e, path, d, max) != []
  {
    hide ListFrom, HasMatch;
    var line := ListFrom(f, e.children, 0, path, d + 1, max)[0];
    ListedIff(f, e.children, 0, path, line, d + 1, max);
    DeservedMeansMatch(f, e.children, path, line, d + 1, max);
  }

  lemma DeservedMeansMatch(f: Filter, es: seq<Entry>, prefix: seq<nat>, line: Line, d: int, max: int)
    requires Deserved(f, es, 0, prefix, line, d, max)
    ensures HasMatch(f, es, d, max)
  {
    var p :| About(f, es, 0, prefix, line, p, d, max);
    if line.full {
      assert MatchAt(f, es, p, d, max);
    } else {
      var below := EntryAt(es, p, d, max);
      var q :| MatchAt(f, below.children, q, d + |p|, max);
      MatchBelow(f, es, p, q, d, max);
    }
  }

  lemma {:induction false} MatchBelow(f: Filter, es: seq<Entry>, p: seq<nat>, q: seq<nat>, d: int, max: int)
    requires Visible(es, p, d, max) && Descends(EntryAt(es, p, d, max), d + |p| - 1, max)
    requires MatchAt(f, EntryAt(es, p, d, max).children, q, d + |p|, max)
    ensures MatchAt(f, es, p + q, d, max)
    decreases |p|
  {
    assert (p + q)[1..] == p[1..] + q;
    if |p| > 1 {
      MatchBelow(f, es[p[0]].children, p[1..], q, d + 1, max);
    } else {
      assert p[1..] + q == q;
    }
  }

  // Order.

  /** Every line is under `prefix`, first number at least `i`. */
  ghost predicate Under(lines: seq<Line>, prefix: seq<nat>, i: nat) {
    forall k {:trigger lines[k]} :: 0 <= k < |lines| ==>
      |prefix| < |lines[k].path| && lines[k].path[..|prefix|] == prefix && i <= lines[k].path[|prefix|]
  }

  /** No entry has two lines, and every line's parent below `prefix` has an earlier line. */
  ghost predicate InTreeOrder(lines: seq<Line>, prefix: seq<nat>) {
    && (forall j, k {:trigger lines[j], lines[k]} :: 0 <= j < k < |lines| ==> lines[j].path != lines[k].path)
    && (forall k {:trigger lines[k]} :: 0 <= k < |lines| && |prefix| + 1 < |lines[k].path| ==> ParentBefore(lines, k))
  }

  ghost predicate ParentBefore(lines: seq<Line>, k: nat)
    requires k < |lines| && lines[k].path != []
  {
    exists j :: 0 <= j < k && lines[j].path == lines[k].path[..|lines[k].path| - 1]
  }

  lemma AppendOrder(a: seq<Line>, b: seq<Line>, prefix: seq<nat>, i: nat)
    requires Under(a, prefix, i) && Under(b, prefix, i + 1)
    requires forall k {:trigger a[k]} :: 0 <= k < |a| ==> a[k].path[|prefix|] == i
    requires InTreeOrder(a, prefix) && InTreeOrder(b, prefix)
    ensures Under(a + b, prefix, i) && InTreeOrder(a + b, prefix)
  {
    hide ParentBefore;
    var c := a + b;
    forall j, k | 0 <= j < k < |c|
      ensures c[j].path != c[k].path
    {
      if j < |a| <= k { assert c[j].path[|prefix|] == i && c[k] == b[k - |a|]; }
    }
    forall k: nat | k < |c| && |prefix| + 1 < |c[k].path|
      ensures ParentBefore(c, k)
    {
      if k < |a| {
        AppendParent([], a, b, k);
        assert [] + a + b == c;
      } else {
        assert b[k - |a|] == c[k];
        AppendParent(a, b, [], k - |a|);
        assert a + b + [] == c;
      }
    }
  }

  lemma AppendParent(a: seq<Line>, b: seq<Line>, z: seq<Line>, k: nat)
    requires k < |b| && b[k].path != [] && ParentBefore(b, k)
    ensures (a + b + z)[k + |a|] == b[k] && ParentBefore(a + b + z, k + |a|)
  {
    var c := a + b + z;
    var j :| 0 <= j < k && b[j].path == b[k].path[..|b[k].path| - 1];
    assert c[j + |a|] == b[j];
  }

  /** One line for an entry, then the lines below it. */
  lemma HeadOrder(head: seq<Line>, below: seq<Line>, prefix: seq<nat>, i: nat)
    requires |head| <= 1 && (head != [] ==> head[0].path == prefix + [i]) && (below != [] ==> head != [])
    requires Under(below, prefix + [i], 0) && InTreeOrder(below, prefix + [i])
    ensures Under(head + below, prefix, i) && InTreeOrder(head + below, prefix)
    ensures forall k {:trigger (head + below)[k]} :: 0 <= k < |head + below| ==> (head + below)[k].path[|prefix|] == i
  {
    HeadUnder(head, below, prefix, i);
    HeadParents(head, below, prefix, i);
    HeadDistinct(head, below, prefix, i);
  }

  lemma HeadDistinct(head: seq<Line>, below: seq<Line>, prefix: seq<nat>, i: nat)
    requires |head| <= 1 && (head != [] ==> head[0].path == prefix + [i])
    requires Under(below, prefix + [i], 0) && InTreeOrder(below, prefix + [i])
    ensures var c := head + below; forall j, k {:trigger c[j], c[k]} :: 0 <= j < k < |c| ==> c[j].path != c[k].path
  {
    hide ParentBefore;
    var c := head + below;
    forall j, k | 0 <= j < k < |c|
      ensures c[j].path != c[k].path
    {
      assert c[k] == below[k - |head|];
      if j >= |head| { assert c[j] == below[j - |head|]; }
    }
  }

  lemma HeadUnder(head: seq<Line>, below: seq<Line>, prefix: seq<nat>, i: nat)
    requires |head| <= 1 && (head != [] ==> head[0].path == prefix + [i]) && Under(below, prefix + [i], 0)
    ensures Under(head + below, prefix, i)
    ensures forall k {:trigger (head + below)[k]} :: 0 <= k < |head + below| ==> (head + below)[k].path[|prefix|] == i
  {
    var c := head + below;
    forall k | 0 <= k < |c|
      ensures |prefix| < |c[k].path| && c[k].path[..|prefix|] == prefix && c[k].path[|prefix|] == i
    {
      if k >= |head| {
        var p := below[k - |head|].path;
        assert p[..|prefix| + 1] == prefix + [i];
        assert p[..|prefix|] == p[..|prefix| + 1][..|prefix|] && p[|prefix|] == p[..|prefix| + 1][|prefix|];
      }
    }
  }

  lemma HeadParents(head: seq<Line>, below: seq<Line>, prefix: seq<nat>, i: nat)
    requires |head| <= 1 && (head != [] ==> head[0].path == prefix + [i]) && (below != [] ==> head != [])
    requires Under(below, prefix + [i], 0) && InTreeOrder(below, prefix + [i])
    ensures var c := head + below;
      forall k {:trigger c[k]} :: 0 <= k < |c| && |prefix| + 1 < |c[k].path| ==> ParentBefore(c, k)
  {
    hide ParentBefore;
    var c := head + below;
    forall k: nat | k < |c| && |prefix| + 1 < |c[k].path|
      ensures ParentBefore(c, k)
    {
      assert head == [head[0]] && c[k] == below[k - 1];
      HeadParent(head[0], below, prefix, i, k - 1);
    }
  }

  lemma HeadParent(head: Line, below: seq<Line>, prefix: seq<nat>, i: nat, k: nat)
    requires head.path == prefix + [i] && k < |below|
    requires |prefix| + 1 < |below[k].path| && below[k].path[..|prefix| + 1] == prefix + [i]
    requires |prefix| + 2 < |below[k].path| ==> ParentBefore(below, k)
    ensures ParentBefore([head] + below, k + 1)
  {
    var c := [head] + below;
    assert c[k + 1] == below[k];
    if |prefix| + 2 < |below[k].path| {
      var j :| 0 <= j < k && below[j].path == below[k].path[..|below[k].path| - 1];
      assert c[j + 1] == below[j];
    } else {
      assert c[0].path == c[k + 1].path[..|c[k + 1].path| - 1];
    }
  }

  /** The listing is in tree order. */
  lemma {:induction false} ListingOrder(f: Filter, es: seq<Entry>, i: nat, prefix: seq<nat>, d: int, max: int)
    requires i <= |es|
    ensures Under(ListFrom(f, es, i, prefix, d, max), prefix, i) && InTreeOrder(ListFrom(f, es, i, prefix, d, max), prefix)
    decreases es, |es| - i
  {
    if i < |es| {
      var e := es[i];
      ListingOrder(f, es, i + 1, prefix, d, max);
      var head := HeadLines(f, e, prefix + [i], d, max);
      var below := [];
      if Descends(e, d, max) {
        below := ListFrom(f, e.children, 0, prefix + [i], d + 1, max);
        ListingOrder(f, e.children, 0, prefix + [i], d + 1, max);
        if below != [] { HeadBeforeBelow(f, e, prefix + [i], d, max); }
      }
      HeadOrder(head, below, prefix, i);
      AppendOrder(head + below, ListFrom(f, es, i + 1, prefix, d, max), prefix, i);
    }
  }

  /** So every ancestor of a printed entry is printed before it. */
  lemma {:induction false} AncestorBefore(lines: seq<Line>, prefix: seq<nat>, k: nat, m: nat)
    requires InTreeOrder(lines, prefix) && k < |lines| && |prefix| < m < |lines[k].path|
    ensures exists j :: 0 <= j < k && lines[j].path == lines[k].path[..m]
    decreases k
  {
    assert ParentBefore(lines, k);
    var j :| 0 <= j < k && lines[j].path == lines[k].path[..|lines[k].path| - 1];
    if m < |lines[j].path| {
      AncestorBefore(lines, prefix, j, m);
      assert lines[j].path[..m] == lines[k].path[..m];
    }
  }

  // Totals.

  function Contribution(e: Details): Summary {
    match e.kind
    case Directory => Summary(1, 0, 0, 0, 0, e.size, e.blocks)
    case Other => Summary(0, 1, 0, 0, 0, e.size, e.blocks)
    case Symlink => Summary(0, 0, 1, 0, 0, e.size, e.blocks)
    case Pipe => Summary(0, 0, 0, 1, 0, e.size, e.blocks)
    case Socket => Summary(0, 0, 0, 0, 1, e.size, e.blocks)
  }

  function Plus(a: Summary, b: Summary): Summary {
    Summary(a.dirs + b.dirs, a.files + b.files, a.links + b.links, a.pipes + b.pipes, a.sockets + b.sockets,
            a.size + b.size, a.blocks + b.blocks)
  }

  const ZERO := Summary(0, 0, 0, 0, 0, 0, 0)

  /** What a line adds to the summary: full lines count, bare names do not. */
  function LineSum(line: Line): Summary {
    if line.full then Contribution(line.details) else ZERO
  }

  /** What the lines add up to. */
  function SumOf(lines: seq<Line>): Summary {
    if lines == [] then ZERO else Plus(LineSum(lines[0]), SumOf(lines[1..]))
  }

  lemma PlusLaws(a: Summary, b: Summary, c: Summary)
    ensures Plus(Plus(a, b), c) == Plus(a, Plus(b, c)) && Plus(ZERO, a) == a == Plus(a, ZERO)
  {
  }

  lemma SumOfOne(line: Line)
    ensures SumOf([line]) == LineSum(line)
  {
    hide Plus, LineSum;
    PlusLaws(LineSum(line), ZERO, ZERO);
    assert [line][1..] == [];
  }

  lemma {:induction false} SumOfAppend(a: seq<Line>, b: seq<Line>)
    ensures SumOf(a + b) == Plus(SumOf(a), SumOf(b))
  {
    hide Plus, LineSum;
    if a == [] {
      assert a + b == b;
      PlusLaws(SumOf(b), ZERO, ZERO);
    } else {
      SumOfAppend(a[1..], b);
      assert (a + b)[1..] == a[1..] + b;
      PlusLaws(LineSum(a[0]), SumOf(a[1..]), SumOf(b));
    }
  }

  /** Totals after printing `a`, then `b`. */
  lemma TotalsAppend(t: Summary, a: seq<Line>, b: seq<Line>)
    ensures Plus(Plus(t, SumOf(a)), SumOf(b)) == Plus(t, SumOf(a + b))
    ensures Plus(t, SumOf([])) == t
  {
    SumOfAppend(a, b);
    hide SumOf;
    PlusLaws(t, SumOf(a), SumOf(b));
    assert SumOf([]) == ZERO by { SumOfNone(); }
    PlusLaws(t, ZERO, ZERO);
  }

  lemma SumOfNone()
    ensures SumOf([]) == ZERO
  {
  }

  ghost predicate WellFormedFilter(f: Filter) {
    f.ByPattern? ==> AllWellFormed(f.atoms)
  }

  method EntryMatchesFilter(f: Filter, name: string) returns (r: bool)
    requires WellFormedFilter(f)
    ensures r <==> Kept(f, name)
  {
    if f.NoFilter? {
      return true;
    }
    r := Match(name, PrintAll(f.atoms), f.atoms);
  }

  /** Looks for a kept entry in a directory's subtree, within the depth limit. */
  method SubtreeHasMatch(f: Filter, es: seq<Entry>, d: int, max: int) returns (found: bool)
    requires WellFormedFilter(f)
    ensures found <==> HasMatch(f, es, d, max)
    decreases es
  {
    found := false;
    var i := 0;
    while i < |es| && !found
      invariant 0 <= i <= |es|
      invariant found ==> HasMatch(f, es, d, max)
      invariant !found ==> NoneBefore(f, es, i, d, max)
    {
      var kept := EntryMatchesFilter(f, es[i].name);
      if kept {
        found := true;
        HasMatchOne(f, es, i, d, max);
      } else if es[i].kind.Directory? && d < max {
        found := SubtreeHasMatch(f, es[i].children, d + 1, max);
        if found { HasMatchOne(f, es, i, d, max); }
      }
      i := i + 1;
    }
    if !found { NoneMeansNoMatch(f, es, d, max); }
  }

  /** None of the first `n` entries is kept or has anything kept below it. */
  ghost predicate NoneBefore(f: Filter, es: seq<Entry>, n: int, d: int, max: int)
    requires n <= |es|
  {
    forall k {:trigger es[k]} :: 0 <= k < n ==> !Kept(f, es[k].name) && !(Descends(es[k], d, max) && HasMatch(f, es[k].children, d + 1, max))
  }

  lemma NoneMeansNoMatch(f: Filter, es: seq<Entry>, d: int, max: int)
    requires NoneBefore(f, es, |es|, d, max)
    ensures !HasMatch(f, es, d, max)
  {
    if HasMatch(f, es, d, max) {
      var k := HasMatchSome(f, es, d, max);
    }
  }

  lemma ListStep(f: Filter, es: seq<Entry>, i: nat, prefix: seq<nat>, d: int, max: int, printed: seq<Line>)
    requires i <= |es|
    ensures i == |es| ==> printed + ListFrom(f, es, i, prefix, d, max) == printed
    ensures i < |es| ==>
      printed + ListFrom(f, es, i, prefix, d, max) ==
      printed + ListEntry(f, es[i], prefix + [i], d, max) + ListFrom(f, es, i + 1, prefix, d, max)
  {
  }

  class Listing {
    var out: seq<Line>
    var dirs: nat
    var files: nat
    var links: nat
    var pipes: nat
    var sockets: nat
    var size: nat
    var blocks: nat

    function Totals(): Summary
      reads this
    {
      Summary(dirs, files, links, pipes, sockets, size, blocks)
    }

    constructor ()
      ensures out == [] && Totals() == ZERO
    {
      out := [];
      dirs, files, links, pipes, sockets, size, blocks := 0, 0, 0, 0, 0, 0, 0;
    }

    /** Adds one entry to the summary. */
    method AddEntry(e: Details)
      modifies this
      ensures out == old(out) && Totals() == Plus(old(Totals()), Contribution(e))
    {
      match e.kind {
        case Directory => dirs := dirs + 1;
        case Other => files := files + 1;
        case Symlink => links := links + 1;
        case Pipe => pipes := pipes + 1;
        case Socket => sockets := sockets + 1;
      }
      size := size + e.size;
      blocks := blocks + e.blocks;
    }

    /** Prints one line; a full line is counted. */
    method PrintLine(line: Line)
      modifies this
      ensures out == old(out) + [line] && Totals() == Plus(old(Totals()), SumOf([line]))
    {
      hide SumOf, Contribution, Plus;
      out := out + [line];
      SumOfOne(line);
      PlusLaws(Totals(), ZERO, ZERO);
      if line.full {
        AddEntry(line.details);
      }
    }

    /** Lists a directory's entries. The result says whether anything kept is below it; without a filter
        it is always true. */
    method ProcessDir(f: Filter, es: seq<Entry>, prefix: seq<nat>, d: int, max: int) returns (any: bool)
      requires WellFormedFilter(f)
      modifies this
      ensures out == old(out) + ListFrom(f, es, 0, prefix, d, max)
      ensures Totals() == Plus(old(Totals()), SumOf(ListFrom(f, es, 0, prefix, d, max)))
      ensures any <==> f.NoFilter? || HasMatch(f, es, d, max)
      decreases es, 1
    {
      hide SumOf, Plus, HasMatch, Kept, ListFrom, ListEntry;
      any := false;
      ghost var printed: seq<Line> := [];
      TotalsAppend(Totals(), [], []);
      var i := 0;
      while i < |es|
        invariant 0 <= i <= |es|
        invariant out == old(out) + printed && Totals() == Plus(old(Totals()), SumOf(printed))
        invariant printed + ListFrom(f, es, i, prefix, d, max) == ListFrom(f, es, 0, prefix, d, max)
        invariant any ==> HasMatch(f, es, d, max)
        invariant !any ==> NoneBefore(f, es, i, d, max)
      {
        var matched := ProcessEntry(f, es[i], prefix + [i], d, max);
        if matched {
          any := true;
          HasMatchOne(f, es, i, d, max);
        }
        ghost var lines := ListEntry(f, es[i], prefix + [i], d, max);
        TotalsAppend(old(Totals()), printed, lines);
        ListStep(f, es, i, prefix, d, max, printed);
        printed := printed + lines;
        i := i + 1;
      }
      ListStep(f, es, |es|, prefix, d, max, printed);
      if !any { NoneMeansNoMatch(f, es, d, max); }
      if f.NoFilter? {
        any := true;
      }
    }

    /** Prints the line of one entry, if it deserves one. */
    method PrintHead(f: Filter, e: Entry, path: seq<nat>, d: int, max: int) returns (matched: bool)
      requires WellFormedFilter(f)
      modifies this
      ensures out == old(out) + HeadLines(f, e, path, d, max)
      ensures Totals() == Plus(old(Totals()), SumOf(HeadLines(f, e, path, d, max)))
      ensures matched <==> Kept(f, e.name) || (Descends(e, d, max) && HasMatch(f, e.children, d + 1, max))
    {
      hide SumOf, Plus, HasMatch, Kept;
      TotalsAppend(Totals(), [], []);
      var selfMatches := EntryMatchesFilter(f, e.name);
      var childHasMatch := false;
      if e.kind.Directory? && !selfMatches && d < max {
        childHasMatch := SubtreeHasMatch(f, e.children, d + 1, max);
      }
      matched := selfMatches || childHasMatch;
      if selfMatches {
        PrintLine(Line(path, true, DetailsOf(e)));
      } else if childHasMatch {
        PrintLine(Line(path, false, DetailsOf(e)));
      }
    }

    /** Prints one entry if it deserves a line, then lists below it. */
    method ProcessEntry(f: Filter, e: Entry, path: seq<nat>, d: int, max: int) returns (matched: bool)
      requires WellFormedFilter(f)
      modifies this
      ensures out == old(out) + ListEntry(f, e, path, d, max)
      ensures Totals() == Plus(old(Totals()), SumOf(ListEntry(f, e, path, d, max)))
      ensures matched <==> Kept(f, e.name) || (Descends(e, d, max) && HasMatch(f, e.children, d + 1, max))
      decreases e, 0
    {
      hide SumOf, Plus, HasMatch, Kept, HeadLines, ListFrom;
      ghost var head := HeadLines(f, e, path, d, max);
      matched := PrintHead(f, e, path, d, max);
      assert head + [] == head;
      if e.kind.Directory? && d < max {
        var below := ProcessDir(f, e.children, path, d + 1, max);
        TotalsAppend(old(Totals()), head, ListFrom(f, e.children, 0, path, d + 1, max));
      }
    }
  }
}
