/** The summary of a listing, said of the tree: it counts exactly the matching entries within the depth
    limit, by kind, and adds up exactly their sizes and blocks. */
module DirTotals {
  import opened DirTree

  type Path = seq<nat>

  /** The sum of `w` over a set of paths. */
  ghost function Total(ps: set<Path>, w: Path -> int): int {
    if ps == {} then 0
    else
      var p :| p in ps;
      w(p) + Total(ps - {p}, w)
  }

  /** The order of summation does not matter. */
  lemma {:induction false} TotalSplit(ps: set<Path>, w: Path -> int, q: Path)
    requires q in ps
    ensures Total(ps, w) == w(q) + Total(ps - {q}, w)
    decreases |ps|
  {
    var p :| p in ps && Total(ps, w) == w(p) + Total(ps - {p}, w);
    if p != q {
      TotalSplit(ps - {p}, w, q);
      TotalSplit(ps - {q}, w, p);
      assert ps - {p} - {q} == ps - {q} - {p};
    }
  }

  lemma {:induction false} TotalCounts(ps: set<Path>, qs: set<Path>, w: Path -> int)
    requires qs <= ps && forall p {:trigger w(p)} :: p in ps ==> w(p) == if p in qs then 1 else 0
    ensures Total(ps, w) == |qs|
    decreases |ps|
  {
    if ps == {} {
      assert qs == {};
    } else {
      var p :| p in ps;
      TotalSplit(ps, w, p);
      TotalCounts(ps - {p}, qs - {p}, w);
      if p in qs { assert |qs| == |qs - {p}| + 1; } else { assert qs - {p} == qs; }
    }
  }

  // The entries of a tree.

  ghost function FullPaths(lines: seq<Line>): set<Path> {
    set k | 0 <= k < |lines| && lines[k].full :: lines[k].path
  }

  /** The paths of the matching entries within the limit. */
  ghost function Matching(f: Filter, es: seq<Entry>, d: int, max: int): (ps: set<Path>)
    ensures forall p {:trigger p in ps} :: p in ps <==> MatchAt(f, es, p, d, max)
  {
    var ps := FullPaths(ListFrom(f, es, 0, [], d, max));
    assert forall p {:trigger p in ps} :: p in ps <==> MatchAt(f, es, p, d, max) by {
      forall p
        ensures p in ps <==> MatchAt(f, es, p, d, max)
      {
        FullLineIff(f, es, d, max, p);
      }
    }
    ps
  }

  lemma FullLineIff(f: Filter, es: seq<Entry>, d: int, max: int, p: Path)
    ensures p in FullPaths(ListFrom(f, es, 0, [], d, max)) <==> MatchAt(f, es, p, d, max)
  {
    var lines := ListFrom(f, es, 0, [], d, max);
    if p in FullPaths(lines) {
      var k :| 0 <= k < |lines| && lines[k].full && lines[k].path == p;
      FullLineMatches(f, es, d, max, k);
    }
    if MatchAt(f, es, p, d, max) {
      var line := Line(p, true, DetailsOf(EntryAt(es, p, d, max)));
      assert [] + p == p;
      assert About(f, es, 0, [], line, p, d, max);
      ListedIff(f, es, 0, [], line, d, max);
      var k :| 0 <= k < |lines| && lines[k] == line;
    }
  }

  lemma FullLineMatches(f: Filter, es: seq<Entry>, d: int, max: int, k: nat)
    requires var lines := ListFrom(f, es, 0, [], d, max); k < |lines| && lines[k].full
    ensures var line := ListFrom(f, es, 0, [], d, max)[k];
      MatchAt(f, es, line.path, d, max) && line.details == DetailsOf(EntryAt(es, line.path, d, max))
  {
    var line := ListFrom(f, es, 0, [], d, max)[k];
    assert line in ListFrom(f, es, 0, [], d, max);
    ListedIff(f, es, 0, [], line, d, max);
    var p :| About(f, es, 0, [], line, p, d, max);
    assert [] + p == p;
  }

  // Summing lines.

  function SumFull(lines: seq<Line>, v: Details -> int): int {
    if lines == [] then 0 else (if lines[0].full then v(lines[0].details) else 0) + SumFull(lines[1..], v)
  }

  function CountOf(s: Summary, k: Kind): nat {
    match k
    case Directory => s.dirs
    case Other => s.files
    case Symlink => s.links
    case Pipe => s.pipes
    case Socket => s.sockets
  }

  lemma {:induction false} SummaryIsSums(lines: seq<Line>, k: Kind)
    ensures CountOf(SumOf(lines), k) == SumFull(lines, (e: Details) => if e.kind == k then 1 else 0)
    ensures SumOf(lines).size == SumFull(lines, (e: Details) => e.size)
    ensures SumOf(lines).blocks == SumFull(lines, (e: Details) => e.blocks)
  {
    if lines != [] {
      SummaryIsSums(lines[1..], k);
    }
  }

  /** Over lines about different entries, summing lines is summing paths. */
  lemma {:induction false} SumIsTotal(lines: seq<Line>, v: Details -> int, w: Path -> int)
    requires forall j, k {:trigger lines[j], lines[k]} :: 0 <= j < k < |lines| ==> lines[j].path != lines[k].path
    requires forall k {:trigger lines[k]} :: 0 <= k < |lines| && lines[k].full ==> w(lines[k].path) == v(lines[k].details)
    ensures SumFull(lines, v) == Total(FullPaths(lines), w)
  {
    if lines != [] {
      var rest := lines[1..];
      assert forall k :: 0 <= k < |rest| ==> rest[k] == lines[k + 1];
      SumIsTotal(rest, v, w);
      var ps, p := FullPaths(lines), lines[0].path;
      FullPathsStep(lines);
      if lines[0].full {
        TotalSplit(ps, w, p);
      }
    } else {
      assert FullPaths(lines) == {};
    }
  }

  lemma FullPathsStep(lines: seq<Line>)
    requires lines != [] && forall j, k {:trigger lines[j], lines[k]} :: 0 <= j < k < |lines| ==> lines[j].path != lines[k].path
    ensures var ps, rest := FullPaths(lines), FullPaths(lines[1..]);
      if lines[0].full then lines[0].path in ps && ps - {lines[0].path} == rest else ps == rest
  {
    var rest := lines[1..];
    assert forall k :: 0 <= k < |rest| ==> rest[k] == lines[k + 1];
    forall p
      ensures p in FullPaths(rest) <==> p in FullPaths(lines) && (lines[0].full ==> p != lines[0].path)
    {
      if p in FullPaths(lines) && (lines[0].full ==> p != lines[0].path) {
        var k :| 0 <= k < |lines| && lines[k].full && lines[k].path == p;
        assert rest[k - 1].path == p;
      }
      if p in FullPaths(rest) {
        var k :| 0 <= k < |rest| && rest[k].full && rest[k].path == p;
        assert lines[k + 1].path == p;
      }
    }
    if lines[0].full { assert lines[0].path in FullPaths(lines); }
  }

  // The main result.

  ghost predicate IsKind(es: seq<Entry>, p: Path, d: int, max: int, k: Kind) {
    Visible(es, p, d, max) && EntryAt(es, p, d, max).kind == k
  }

  ghost function SizeAt(es: seq<Entry>, p: Path, d: int, max: int): int {
    if Visible(es, p, d, max) then EntryAt(es, p, d, max).size else 0
  }

  ghost function BlocksAt(es: seq<Entry>, p: Path, d: int, max: int): int {
    if Visible(es, p, d, max) then EntryAt(es, p, d, max).blocks else 0
  }

  /** The full lines of a listing are about different matching entries, and carry their details. */
  lemma ListingFits(f: Filter, es: seq<Entry>, d: int, max: int)
    ensures var lines := ListFrom(f, es, 0, [], d, max);
      && FullPaths(lines) == Matching(f, es, d, max)
      && (forall j, k {:trigger lines[j], lines[k]} :: 0 <= j < k < |lines| ==> lines[j].path != lines[k].path)
      && (forall k {:trigger lines[k]} :: 0 <= k < |lines| && lines[k].full ==>
            Visible(es, lines[k].path, d, max) && lines[k].details == DetailsOf(EntryAt(es, lines[k].path, d, max)))
  {
    var lines, ps := ListFrom(f, es, 0, [], d, max), Matching(f, es, d, max);
    ListingOrder(f, es, 0, [], d, max);
    hide ListFrom, Matching;
    forall p
      ensures p in FullPaths(lines) <==> p in ps
    {
      FullLineIff(f, es, d, max, p);
    }
    forall j | 0 <= j < |lines| && lines[j].full
      ensures Visible(es, lines[j].path, d, max) && lines[j].details == DetailsOf(EntryAt(es, lines[j].path, d, max))
    {
      FullLineMatches(f, es, d, max, j);
    }
  }

  /** The summary of a listing counts exactly the matching entries within the limit, for each kind, and
      adds up exactly their sizes and their blocks. */
  lemma SummaryCountsMatches(f: Filter, es: seq<Entry>, d: int, max: int)
    ensures var s, ps := SumOf(ListFrom(f, es, 0, [], d, max)), Matching(f, es, d, max);
      && s.dirs == |set p | p in ps && IsKind(es, p, d, max, Directory)|
      && s.files == |set p | p in ps && IsKind(es, p, d, max, Other)|
      && s.links == |set p | p in ps && IsKind(es, p, d, max, Symlink)|
      && s.pipes == |set p | p in ps && IsKind(es, p, d, max, Pipe)|
      && s.sockets == |set p | p in ps && IsKind(es, p, d, max, Socket)|
      && s.size == Total(ps, (p: Path) => SizeAt(es, p, d, max))
      && s.blocks == Total(ps, (p: Path) => BlocksAt(es, p, d, max))
  {
    hide SumOf, ListFrom, Matching, IsKind;
    KindCounts(f, es, d, max, Directory);
    KindCounts(f, es, d, max, Other);
    KindCounts(f, es, d, max, Symlink);
    KindCounts(f, es, d, max, Pipe);
    KindCounts(f, es, d, max, Socket);
    SizesAdd(f, es, d, max);
  }

  lemma KindCounts(f: Filter, es: seq<Entry>, d: int, max: int, k: Kind)
    ensures var s, ps := SumOf(ListFrom(f, es, 0, [], d, max)), Matching(f, es, d, max);
      CountOf(s, k) == |set p | p in ps && IsKind(es, p, d, max, k)|
  {
    var lines, ps := ListFrom(f, es, 0, [], d, max), Matching(f, es, d, max);
    ListingFits(f, es, d, max);
    SummaryIsSums(lines, k);
    hide ListFrom, Matching, FullPaths, SumOf, Visible, EntryAt, SumFull, Total;
    SumIsTotal(lines, (e: Details) => if e.kind == k then 1 else 0, (p: Path) => if IsKind(es, p, d, max, k) then 1 else 0);
    TotalCounts(ps, set p | p in ps && IsKind(es, p, d, max, k), (p: Path) => if IsKind(es, p, d, max, k) then 1 else 0);
  }

  lemma SizesAdd(f: Filter, es: seq<Entry>, d: int, max: int)
    ensures var s, ps := SumOf(ListFrom(f, es, 0, [], d, max)), Matching(f, es, d, max);
      && s.size == Total(ps, (p: Path) => SizeAt(es, p, d, max))
      && s.blocks == Total(ps, (p: Path) => BlocksAt(es, p, d, max))
  {
    var lines, ps := ListFrom(f, es, 0, [], d, max), Matching(f, es, d, max);
    ListingFits(f, es, d, max);
    SummaryIsSums(lines, Other);
    hide ListFrom, Matching, FullPaths, SumOf, Visible, EntryAt, SumFull, Total;
    SumIsTotal(lines, (e: Details) => e.size, (p: Path) => SizeAt(es, p, d, max));
    SumIsTotal(lines, (e: Details) => e.blocks, (p: Path) => BlocksAt(es, p, d, max));
  }
}
