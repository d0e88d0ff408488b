/** What a listing is, said of the tree alone: which entries have a line, what the lines show, and in what
    order they stand. */
module DirLines {
  import opened PatternMatch
  import opened DirTree
  import opened DirTotals

  /** `path` leads, through directories, to an entry below `es`. */
  ghost predicate Leads(es: seq<Entry>, path: Path) {
    path != [] && path[0] < |es| && (|path| > 1 ==> es[path[0]].kind.Directory? && Leads(es[path[0]].children, path[1..]))
  }

  ghost function At(es: seq<Entry>, path: Path): Entry
    requires Leads(es, path)
  {
    if |path| == 1 then es[path[0]] else At(es[path[0]].children, path[1..])
  }

  /** The depth limit: entries of the directory listed are at depth `d` whatever the limit, and what is below
      them is within it when its own depth is at most `max`. */
  lemma {:induction false} VisibleIff(es: seq<Entry>, path: Path, d: int, max: int)
    ensures Visible(es, path, d, max) <==> Leads(es, path) && (|path| == 1 || d + |path| - 1 <= max)
    ensures Visible(es, path, d, max) ==> EntryAt(es, path, d, max) == At(es, path)
    decreases |path|
  {
    if |path| > 1 && path[0] < |es| {
      VisibleIff(es[path[0]].children, path[1..], d + 1, max);
    }
  }

  /** No filter, or a contiguous part of the name in the pattern's language. */
  ghost predicate NameMatches(f: Filter, name: string) {
    f.NoFilter? || exists i, j :: 0 <= i <= j <= |name| && Language(f.atoms, name[i..j])
  }

  /** The entry at `path` is within the limit and its name matches. */
  ghost predicate Wanted(f: Filter, es: seq<Entry>, path: Path, d: int, max: int) {
    Leads(es, path) && (|path| == 1 || d + |path| - 1 <= max) && NameMatches(f, At(es, path).name)
  }

  lemma WantedIsMatch(f: Filter, es: seq<Entry>, path: Path, d: int, max: int)
    ensures Wanted(f, es, path, d, max) <==> MatchAt(f, es, path, d, max)
  {
    VisibleIff(es, path, d, max);
  }

  /** Every line is about the entry its path leads to, and shows its name; a full line, which also shows
      its kind, size and blocks, is exactly that of an entry whose name matches. */
  lemma LineShowsEntry(f: Filter, es: seq<Entry>, d: int, max: int, k: nat)
    requires k < |ListFrom(f, es, 0, [], d, max)|
    ensures var line := ListFrom(f, es, 0, [], d, max)[k];
      && Leads(es, line.path) && (|line.path| == 1 || d + |line.path| - 1 <= max)
      && (var e := At(es, line.path);
          && line.details.name == e.name
          && (line.full ==> line.details.kind == e.kind && line.details.size == e.size && line.details.blocks == e.blocks)
          && (line.full <==> NameMatches(f, e.name)))
  {
    var line := LineIsDeserved(f, es, d, max, k);
    VisibleIff(es, line.path, d, max);
  }

  lemma LineIsDeserved(f: Filter, es: seq<Entry>, d: int, max: int, k: nat) returns (line: Line)
    requires k < |ListFrom(f, es, 0, [], d, max)|
    ensures line == ListFrom(f, es, 0, [], d, max)[k] && Deserves(f, es, line.path, line, d, max)
  {
    var lines := ListFrom(f, es, 0, [], d, max);
    line := lines[k];
    ListedIff(f, es, 0, [], line, d, max);
    hide ListFrom, Deserves;
    assert line in lines;
    var p :| About(f, es, 0, [], line, p, d, max);
    assert [] + p == p;
  }

  /** Something at or below `path` is wanted. */
  ghost predicate WantedBelow(f: Filter, es: seq<Entry>, path: Path, d: int, max: int) {
    exists q :: path <= q && Wanted(f, es, q, d, max)
  }

  ghost predicate HasLine(lines: seq<Line>, path: Path) {
    exists k :: 0 <= k < |lines| && lines[k].path == path
  }

  /** An entry has a line exactly when its name, or that of something below it within the limit, matches. */
  lemma LinesAre(f: Filter, es: seq<Entry>, d: int, max: int, path: Path)
    ensures HasLine(ListFrom(f, es, 0, [], d, max), path) <==> path != [] && WantedBelow(f, es, path, d, max)
  {
    var lines := ListFrom(f, es, 0, [], d, max);
    if HasLine(lines, path) {
      var k :| 0 <= k < |lines| && lines[k].path == path;
      LineIsWanted(f, es, d, max, k);
    }
    if path != [] && WantedBelow(f, es, path, d, max) {
      var q :| path <= q && Wanted(f, es, q, d, max);
      WantedHasLine(f, es, d, max, path, q);
    }
  }

  lemma LineIsWanted(f: Filter, es: seq<Entry>, d: int, max: int, k: nat)
    requires k < |ListFrom(f, es, 0, [], d, max)|
    ensures var p := ListFrom(f, es, 0, [], d, max)[k].path; p != [] && WantedBelow(f, es, p, d, max)
  {
    var line := LineIsDeserved(f, es, d, max, k);
    var p := line.path;
    hide ListFrom;
    if line.full {
      WantedIsMatch(f, es, p, d, max);
      assert p <= p;
    } else {
      var below := EntryAt(es, p, d, max);
      var q :| MatchAt(f, below.children, q, d + |p|, max);
      MatchBelow(f, es, p, q, d, max);
      WantedIsMatch(f, es, p + q, d, max);
      assert p <= p + q;
    }
  }

  lemma WantedHasLine(f: Filter, es: seq<Entry>, d: int, max: int, path: Path, q: Path)
    requires path != [] && path <= q && Wanted(f, es, q, d, max)
    ensures HasLine(ListFrom(f, es, 0, [], d, max), path)
  {
    var lines := ListFrom(f, es, 0, [], d, max);
    WantedIsMatch(f, es, q, d, max);
    FullLineIff(f, es, d, max, q);
    var k :| 0 <= k < |lines| && lines[k].full && lines[k].path == q;
    if |path| < |q| {
      ListingOrder(f, es, 0, [], d, max);
      hide ListFrom, InTreeOrder;
      AncestorBefore(lines, [], k, |path|);
      assert q[..|path|] == path;
    }
  }

  // Order.

  /** `a` comes before `b`: at the first place where they differ `a` has the smaller number, or ends. */
  ghost predicate Before(a: Path, b: Path) {
    b != [] && (a == [] || a[0] < b[0] || (a[0] == b[0] && Before(a[1..], b[1..])))
  }

  lemma {:induction false} DivergeBefore(a: Path, b: Path, n: nat)
    requires n < |a| && n < |b| && a[..n] == b[..n] && a[n] < b[n]
    ensures Before(a, b)
  {
    if n > 0 {
      assert a[..n][0] == b[..n][0];
      assert a[1..][..n - 1] == a[..n][1..] && b[1..][..n - 1] == b[..n][1..];
      DivergeBefore(a[1..], b[1..], n - 1);
    }
  }

  lemma {:induction false} ExtendBefore(a: Path, b: Path)
    requires |a| < |b| && b[..|a|] == a
    ensures Before(a, b)
  {
    if a != [] {
      assert b[0] == a[0];
      assert b[1..][..|a| - 1] == a[1..];
      ExtendBefore(a[1..], b[1..]);
    }
  }

  ghost predicate Sorted(lines: seq<Line>) {
    forall j, k {:trigger lines[j], lines[k]} :: 0 <= j < k < |lines| ==> Before(lines[j].path, lines[k].path)
  }

  lemma AppendSorted(a: seq<Line>, b: seq<Line>, prefix: Path, i: nat)
    requires Sorted(a) && Sorted(b) && Under(a, prefix, i) && Under(b, prefix, i + 1)
    requires forall k {:trigger a[k]} :: 0 <= k < |a| ==> a[k].path[|prefix|] == i
    ensures Sorted(a + b)
  {
    hide Before;
    var c := a + b;
    forall j, k | 0 <= j < k < |c|
      ensures Before(c[j].path, c[k].path)
    {
      if j < |a| <= k {
        assert c[j] == a[j] && c[k] == b[k - |a|];
        DivergeBefore(c[j].path, c[k].path, |prefix|);
      }
    }
  }

  lemma HeadSorted(head: seq<Line>, below: seq<Line>, path: Path)
    requires |head| <= 1 && (head != [] ==> head[0].path == path) && Sorted(below) && Under(below, path, 0)
    ensures Sorted(head + below)
  {
    hide Before;
    var c := head + below;
    forall j, k | 0 <= j < k < |c|
      ensures Before(c[j].path, c[k].path)
    {
      assert c[k] == below[k - |head|];
      if j < |head| { ExtendBefore(c[j].path, c[k].path); }
    }
  }

  /** The lines stand in lexicographic order of their paths: an entry before what is below it, and all of
      that before the next entry of its directory. */
  lemma {:induction false} ListingSorted(f: Filter, es: seq<Entry>, i: nat, prefix: Path, d: int, max: int)
    requires i <= |es|
    ensures Sorted(ListFrom(f, es, i, prefix, d, max))
    decreases es, |es| - i
  {
    if i < |es| {
      var e := es[i];
      ListingSorted(f, es, i + 1, prefix, d, max);
      ListingOrder(f, es, i + 1, prefix, d, max);
      var head := HeadLines(f, e, prefix + [i], d, max);
      var below := [];
      if Descends(e, d, max) {
        below := ListFrom(f, e.children, 0, prefix + [i], d + 1, max);
        ListingSorted(f, e.children, 0, prefix + [i], d + 1, max);
        ListingOrder(f, e.children, 0, prefix + [i], d + 1, max);
      }
      HeadSorted(head, below, prefix + [i]);
      HeadUnder(head, below, prefix, i);
      AppendSorted(head + below, ListFrom(f, es, i + 1, prefix, d, max), prefix, i);
    }
  }
}
