/** The other half: a pattern that breaks the condition has a name that the documentation matches and
    the program does not. */
module PatternGap {
  import opened PatternSyntax
  import opened PatternMatch
  import opened PatternDocs

  // What a word cannot do without: the characters the pattern names.

  /** How many characters of `w` are not `x`. */
  function Demand(w: string, x: char): nat {
    if w == "" then 0 else (if w[0] == x then 0 else 1) + Demand(w[1..], x)
  }

  lemma {:induction false} DemandJoined(u: string, v: string, x: char)
    ensures Demand(u + v, x) == Demand(u, x) + Demand(v, x)
  {
    if u == "" {
      assert u + v == v;
    } else {
      assert (u + v)[1..] == u[1..] + v;
      DemandJoined(u[1..], v, x);
    }
  }

  lemma {:induction false} NoDemand(w: string, x: char)
    ensures Demand(w, x) <= |w|
    ensures Demand(w, x) == 0 <==> forall k {:trigger w[k]} :: 0 <= k < |w| ==> w[k] == x
    ensures (forall k {:trigger w[k]} :: 0 <= k < |w| ==> w[k] != x) ==> Demand(w, x) == |w|
  {
    if w != "" {
      NoDemand(w[1..], x);
      assert forall k :: 0 < k < |w| ==> w[k] == w[1..][k - 1];
    }
  }

  /** `x` is no character of the atom. */
  predicate Fresh(a: Atom, x: char) {
    match a
    case Lit(c) => c != x
    case Star(c) => c != x
    case Group(g) => x !in g
    case GroupStar(g) => x !in g
  }

  predicate AllFresh(atoms: seq<Atom>, x: char) {
    forall k {:trigger atoms[k]} :: 0 <= k < |atoms| ==> Fresh(atoms[k], x)
  }

  lemma {:induction false} FreshAtoms(atoms: seq<Atom>, x: char)
    requires x !in PrintAll(atoms)
    ensures AllFresh(atoms, x)
  {
    if atoms != [] {
      assert forall c :: c in Print(atoms[0]) ==> c in PrintAll(atoms);
      FreshAtom(atoms[0], x);
      FreshAtoms(atoms[1..], x);
      assert forall k :: 0 < k < |atoms| ==> atoms[k] == atoms[1..][k - 1];
    }
  }

  lemma FreshAtom(a: Atom, x: char)
    requires x !in Print(a)
    ensures Fresh(a, x)
  {
    match a
    case Lit(c) => assert Print(a)[0] == c;
    case Star(c) => assert Print(a)[0] == c;
    case Group(g) =>
      assert forall c :: c in g ==> c in Print(a);
    case GroupStar(g) =>
      assert forall c :: c in g ==> c in Print(a);
  }

  lemma DemandUpTo(s: string, i: int, j: int, x: char)
    requires 0 <= i <= j <= |s|
    ensures Demand(s[..j], x) == Demand(s[..i], x) + Demand(s[i..j], x)
  {
    assert s[..j] == s[..i] + s[i..j];
    DemandJoined(s[..i], s[i..j], x);
  }

  lemma {:induction false} DemandBelow(m: string, w: string, x: char)
    requires |m| == |w| && forall k {:trigger m[k]} :: 0 <= k < |m| && m[k] != x ==> w[k] != x
    ensures Demand(m, x) <= Demand(w, x)
  {
    if m != "" {
      assert forall k :: 0 <= k < |m[1..]| ==> m[1..][k] == m[k + 1] && w[1..][k] == w[k + 1];
      DemandBelow(m[1..], w[1..], x);
    }
  }

  lemma AtomDemand(a: Atom, w: string, x: char)
    requires AtomLanguage(a, w) && Fresh(a, x)
    ensures Demand(Min(a, x), x) <= Demand(w, x)
  {
    if a.Group? { SpelledDemand(a.body, w, Min(a, x), x); }
  }

  lemma SpelledDemand(g: string, w: string, m: string, x: char)
    requires Spells(g, w) && x !in g && m == seq(|g|, i requires 0 <= i < |g| => if g[i] == '?' then x else g[i])
    ensures forall k {:trigger m[k]} :: 0 <= k < |m| && m[k] != x ==> w[k] != x
    ensures Demand(m, x) <= Demand(w, x)
  {
    forall k | 0 <= k < |m| && m[k] != x
      ensures w[k] != x
    {
      assert Admits(g[k], w[k]) && g[k] in g;
    }
    DemandBelow(m, w, x);
  }

  /** A word of a pattern has as many characters other than `x` as the shortest word. */
  lemma {:induction false} WordDemand(atoms: seq<Atom>, w: string, x: char)
    requires Language(atoms, w) && AllFresh(atoms, x)
    ensures Demand(MinWord(atoms, x), x) <= Demand(w, x)
    decreases |atoms|
  {
    hide Language, AtomLanguage, Fresh, Demand, Min;
    var i := LanguageCut(atoms, w);
    if atoms != [] {
      assert Fresh(atoms[0], x);
      assert forall k :: 0 <= k < |atoms[1..]| ==> atoms[1..][k] == atoms[k + 1];
      AtomDemand(atoms[0], w[..i], x);
      WordDemand(atoms[1..], w[i..], x);
      DemandJoined(w[..i], w[i..], x);
      assert w[..i] + w[i..] == w;
      DemandJoined(Min(atoms[0], x), MinWord(atoms[1..], x), x);
    } else {
      NoDemand(MinWord(atoms, x), x);
    }
  }

  // Where those characters are.

  /** `w` and `m` have `x` at the same places. */
  predicate Alike(w: string, m: string, x: char) {
    |w| == |m| && forall k {:trigger m[k]} :: 0 <= k < |m| ==> (w[k] == x <==> m[k] == x)
  }

  lemma {:induction false} SamePlaces(w: string, m: string, x: char)
    requires |w| == |m| && forall k {:trigger m[k]} :: 0 <= k < |m| && m[k] != x ==> w[k] != x
    requires Demand(w, x) == Demand(m, x)
    ensures Alike(w, m, x)
  {
    if m != "" {
      var u, n := w[1..], m[1..];
      assert forall k :: 0 <= k < |n| ==> n[k] == m[k + 1] && u[k] == w[k + 1];
      DemandBelow(n, u, x);
      SamePlaces(u, n, x);
      assert forall k :: 0 < k < |m| ==> m[k] == n[k - 1] && w[k] == u[k - 1];
    }
  }

  /** An atom that names a character, matching with no more named characters than it needs. */
  lemma HardAtom(a: Atom, w: string, x: char)
    requires !Wild(a) && AtomLanguage(a, w) && Fresh(a, x) && Demand(w, x) == Demand(Min(a, x), x)
    ensures Alike(w, Min(a, x), x)
  {
    if a.Group? {
      SpelledDemand(a.body, w, Min(a, x), x);
      SamePlaces(w, Min(a, x), x);
    }
  }

  lemma HardPlace(a: Atom, x: char) returns (k: nat)
    requires !Wild(a) && Fresh(a, x)
    ensures k < |Min(a, x)| && Min(a, x)[k] != x
  {
    k := 0;
    if a.Group? {
      k :| 0 <= k < |a.body| && a.body[k] != '?';
      assert a.body[k] in a.body;
    }
  }

  lemma {:induction false} AlikeDemand(w: string, m: string, x: char)
    requires Alike(w, m, x)
    ensures Demand(w, x) == Demand(m, x)
  {
    if m != "" {
      assert forall k :: 0 <= k < |m[1..]| ==> m[1..][k] == m[k + 1] && w[1..][k] == w[k + 1];
      AlikeDemand(w[1..], m[1..], x);
    }
  }

  lemma AlikePrefix(w: string, m: string, k: nat, x: char)
    requires Alike(w, m, x) && k <= |m|
    ensures Demand(w[0..k], x) == Demand(m[0..k], x)
  {
    var u, v := w[0..k], m[0..k];
    forall l | 0 <= l < |v|
      ensures u[l] == x <==> v[l] == x
    {
      assert u[l] == w[l] && v[l] == m[l];
    }
    AlikeDemand(u, v, x);
  }

  /** The places of `s` other than `x` are told apart by how many come before them. */
  lemma PlaceUnique(s: string, a: int, b: int, x: char)
    requires 0 <= a < |s| && 0 <= b < |s| && s[a] != x && s[b] != x && Demand(s[..a], x) == Demand(s[..b], x)
    ensures a == b
  {
    if a < b { PlaceCounts(s, a, b, x); }
    if b < a { PlaceCounts(s, b, a, x); }
  }

  lemma PlaceCounts(s: string, a: int, b: int, x: char)
    requires 0 <= a < b <= |s| && s[a] != x
    ensures Demand(s[..a], x) < Demand(s[..b], x)
  {
    DemandUpTo(s, a, b, x);
    assert s[a..b][0] == s[a];
  }

  /** Two alike stretches of `s` with as much before them are the same stretch. */
  lemma StretchUnique(s: string, a: int, b: int, n: nat, k: nat, x: char)
    requires 0 <= a && a + n <= |s| && 0 <= b && b + n <= |s| && k < n && s[b + k] != x
    requires Alike(s[a..a + n], s[b..b + n], x) && Demand(s[..a], x) == Demand(s[..b], x)
    ensures a == b
  {
    var w, m := s[a..a + n], s[b..b + n];
    assert s[a + k] != x by { assert m[k] == s[b + k] && w[k] == s[a + k]; }
    AlikePrefix(w, m, k, x);
    hide Alike, Demand;
    SubSlice(s, a, a + n, 0, k);
    SubSlice(s, b, b + n, 0, k);
    assert w[0..k] == s[a + 0..a + k] && m[0..k] == s[b + 0..b + k];
    DemandUpTo(s, a, a + k, x);
    DemandUpTo(s, b, b + k, x);
    PlaceUnique(s, a + k, b + k, x);
  }

  // What a wild run matches of `x` alone.

  function Only(n: nat, x: char): (w: string)
    ensures |w| == n && forall k :: 0 <= k < n ==> w[k] == x
  {
    seq(n, _ => x)
  }

  lemma OnlyCut(n: nat, x: char, i: int)
    requires 0 <= i <= n
    ensures Only(n, x)[..i] == Only(i, x) && Only(n, x)[i..] == Only(n - i, x)
  {
  }

  lemma {:induction false} EmptyRepeats(pieces: seq<string>)
    requires forall k :: 0 <= k < |pieces| ==> Spells("", pieces[k])
    ensures Flatten(pieces) == ""
  {
    if pieces != [] {
      EmptyRepeats(pieces[1..]);
      assert Spells("", pieces[0]);
    }
  }

  lemma AtomGaps(a: Atom, n: nat, x: char)
    requires Wild(a) && a != GroupStar("?") && Fresh(a, x) && x != '?' && AtomLanguage(a, Only(n, x))
    ensures n == |Min(a, x)| || |Min(a, x)| + 2 <= n
  {
    var w := Only(n, x);
    assert n == 0 || (w[0] == x && w[..1][0] == x);
    if a.GroupStar? && n > 0 {
      var g := a.body;
      if g == "" {
        var pieces :| Flatten(pieces) == w && forall k :: 0 <= k < |pieces| ==> Spells(g, pieces[k]);
        EmptyRepeats(pieces);
      } else {
        assert g[0] in g && g == [g[0]] + g[1..];
        RepeatsUnrolls(g, w);
      }
    }
  }

  /** Of `x` alone a wild run without `(?)*` matches its shortest length, or at least two more. */
  lemma {:induction false} RunGaps(run: seq<Atom>, n: nat, x: char)
    requires Easy(run) && GroupStar("?") !in run && AllFresh(run, x) && x != '?' && Language(run, Only(n, x))
    ensures n == |MinWord(run, x)| || |MinWord(run, x)| + 2 <= n
    decreases |run|
  {
    hide Language, AtomLanguage;
    var i := LanguageCut(run, Only(n, x));
    if run != [] {
      var rest := run[1..];
      assert forall k :: 0 <= k < |rest| ==> rest[k] == run[k + 1];
      OnlyCut(n, x, i);
      assert Wild(run[0]) && Fresh(run[0], x);
      AtomGaps(run[0], i, x);
      RunGaps(rest, n - i, x);
    }
  }

  // The name that separates.

  /** A pattern around a wild run: `h` and `t` are the nearest atoms that name a character. */
  datatype Around = Around(a: seq<Atom>, h: Atom, run: seq<Atom>, t: Atom, b: seq<Atom>)
  {
    function Pattern(): seq<Atom> {
      a + ([h] + (run + ([t] + b)))
    }

    /** The shortest word, with one `x` too many in the run. */
    function Name(x: char): string {
      MinWord(a, x) + (Min(h, x) + (Only(|MinWord(run, x)| + 1, x) + (Min(t, x) + MinWord(b, x))))
    }

    /** Where in the name the run starts and ends. */
    function From(x: char): nat {
      |MinWord(a, x)| + |Min(h, x)|
    }

    function To(x: char): nat {
      From(x) + |MinWord(run, x)| + 1
    }

    predicate Fits(x: char) {
      !Wild(h) && !Wild(t) && Easy(run) && GroupStar("?") !in run && x != '?' && AllFresh(Pattern(), x)
    }
  }

  lemma PartsAreFresh(p: Around, x: char)
    requires p.Fits(x)
    ensures AllFresh(p.a, x) && Fresh(p.h, x) && AllFresh(p.run, x) && Fresh(p.t, x) && AllFresh(p.b, x)
  {
    var all := p.Pattern();
    var m, n := |p.a|, |p.run|;
    hide Fresh, Wild;
    assert forall k :: 0 <= k < m ==> p.a[k] == all[k];
    assert p.h == all[m];
    assert forall k :: 0 <= k < n ==> p.run[k] == all[m + 1 + k];
    assert p.t == all[m + 1 + n];
    assert forall k :: 0 <= k < |p.b| ==> p.b[k] == all[m + n + 2 + k];
  }

  lemma CutAt(a: seq<Atom>, b: seq<Atom>, s: string, i: int, j: int) returns (c: int)
    requires 0 <= i <= j <= |s| && Language(a + b, s[i..j])
    ensures i <= c <= j && Language(a, s[i..c]) && Language(b, s[c..j])
  {
    hide Language;
    c := Unjoined(a, b, s[i..j]);
    SubSlice(s, i, j, 0, c);
    SubSlice(s, i, j, c, j - i);
    assert s[i..j][0..c] == s[i..j][..c] && s[i..j][c..j - i] == s[i..j][c..];
    c := i + c;
  }

  lemma AtomAt(a: Atom, b: seq<Atom>, s: string, i: int, j: int) returns (c: int)
    requires 0 <= i <= j <= |s| && Language([a] + b, s[i..j])
    ensures i <= c <= j && AtomLanguage(a, s[i..c]) && Language(b, s[c..j])
  {
    hide Language, AtomLanguage;
    c := CutAt([a], b, s, i, j);
    OneAtom(a, s[i..c]);
  }

  /** The stretch `s[i..j]` matches, cut into what the five parts of the pattern take. */
  ghost predicate Cut(p: Around, s: string, i: int, c1: int, c2: int, c3: int, c4: int, j: int) {
    && 0 <= i <= c1 <= c2 <= c3 <= c4 <= j <= |s|
    && Language(p.a, s[i..c1]) && AtomLanguage(p.h, s[c1..c2]) && Language(p.run, s[c2..c3])
    && AtomLanguage(p.t, s[c3..c4]) && Language(p.b, s[c4..j])
  }

  lemma Cutting(p: Around, s: string, i: int, j: int) returns (c1: int, c2: int, c3: int, c4: int)
    requires 0 <= i <= j <= |s| && Language(p.Pattern(), s[i..j])
    ensures Cut(p, s, i, c1, c2, c3, c4, j)
  {
    hide Language, AtomLanguage;
    c1 := CutAt(p.a, [p.h] + (p.run + ([p.t] + p.b)), s, i, j);
    c2 := AtomAt(p.h, p.run + ([p.t] + p.b), s, c1, j);
    c3 := CutAt(p.run, [p.t] + p.b, s, c2, j);
    c4 := AtomAt(p.t, p.b, s, c3, j);
  }

  lemma NameDemand(p: Around, x: char)
    requires p.Fits(x)
    ensures Demand(p.Name(x), x) ==
      Demand(MinWord(p.a, x), x) + Demand(Min(p.h, x), x) + Demand(Min(p.t, x), x) + Demand(MinWord(p.b, x), x)
    ensures 0 <= p.From(x) <= p.To(x) <= |p.Name(x)|
    ensures Demand(p.Name(x)[..p.To(x)], x) == Demand(MinWord(p.a, x), x) + Demand(Min(p.h, x), x)
  {
    hide MinWord, Min, Wild, Easy, AllFresh, Demand;
    var u, m, o, n, v := MinWord(p.a, x), Min(p.h, x), Only(|MinWord(p.run, x)| + 1, x), Min(p.t, x), MinWord(p.b, x);
    NoDemand(o, x);
    DemandJoined(u, m + (o + (n + v)), x);
    DemandJoined(m, o + (n + v), x);
    DemandJoined(o, n + v, x);
    DemandJoined(n, v, x);
    DemandJoined(u, m + o, x);
    DemandJoined(m, o, x);
    assert p.Name(x)[..p.To(x)] == u + (m + o);
  }

  /** The name has nothing to spare, so every part takes exactly what it cannot do without. */
  lemma NothingToSpare(p: Around, x: char, i: int, c1: int, c2: int, c3: int, c4: int, j: int)
    requires p.Fits(x) && Cut(p, p.Name(x), i, c1, c2, c3, c4, j)
    ensures var s := p.Name(x);
      && Demand(s[..c1], x) == Demand(MinWord(p.a, x), x)
      && Demand(s[c1..c2], x) == Demand(Min(p.h, x), x)
      && Demand(s[..c3], x) == Demand(MinWord(p.a, x), x) + Demand(Min(p.h, x), x)
      && Demand(s[c3..c4], x) == Demand(Min(p.t, x), x)
  {
    hide *;
    NameDemand(p, x);
    var s := p.Name(x);
    CutsDemand(p, s, x, i, c1, c2, c3, c4, j);
    PartsAdd(s, x, i, c1, c2, c3, c4, j);
  }

  lemma CutsDemand(p: Around, s: string, x: char, i: int, c1: int, c2: int, c3: int, c4: int, j: int)
    requires p.Fits(x) && Cut(p, s, i, c1, c2, c3, c4, j)
    ensures 0 <= i <= c1 <= c2 <= c3 <= c4 <= j <= |s|
    ensures Demand(MinWord(p.a, x), x) <= Demand(s[i..c1], x) && Demand(Min(p.h, x), x) <= Demand(s[c1..c2], x)
    ensures Demand(Min(p.t, x), x) <= Demand(s[c3..c4], x) && Demand(MinWord(p.b, x), x) <= Demand(s[c4..j], x)
  {
    PartsAreFresh(p, x);
    hide Language, AtomLanguage, AllFresh, Fresh, MinWord, Min, Demand;
    WordDemand(p.a, s[i..c1], x);
    AtomDemand(p.h, s[c1..c2], x);
    AtomDemand(p.t, s[c3..c4], x);
    WordDemand(p.b, s[c4..j], x);
  }

  lemma PartsAdd(s: string, x: char, i: int, c1: int, c2: int, c3: int, c4: int, j: int)
    requires 0 <= i <= c1 <= c2 <= c3 <= c4 <= j <= |s|
    ensures Demand(s[..c1], x) == Demand(s[..i], x) + Demand(s[i..c1], x)
    ensures Demand(s[..c3], x) == Demand(s[..c1], x) + Demand(s[c1..c2], x) + Demand(s[c2..c3], x)
    ensures Demand(s, x) == Demand(s[..c3], x) + Demand(s[c3..c4], x) + Demand(s[c4..j], x) + Demand(s[j..], x)
  {
    hide Demand;
    DemandUpTo(s, i, c1, x);
    DemandUpTo(s, c1, c2, x);
    DemandUpTo(s, c2, c3, x);
    DemandUpTo(s, c3, c4, x);
    DemandUpTo(s, c4, j, x);
    DemandUpTo(s, j, |s|, x);
    assert s[..|s|] == s && s[j..|s|] == s[j..];
  }

  /** An atom that names a character takes the only stretch of `s` with as much before it. */
  lemma HardAtomStays(a: Atom, s: string, c: int, d: int, at: int, x: char)
    requires !Wild(a) && Fresh(a, x) && 0 <= c <= d <= |s| && AtomLanguage(a, s[c..d])
    requires Demand(s[c..d], x) == Demand(Min(a, x), x)
    requires 0 <= at && at + |Min(a, x)| <= |s| && s[at..at + |Min(a, x)|] == Min(a, x)
    requires Demand(s[..c], x) == Demand(s[..at], x)
    ensures c == at && d == at + |Min(a, x)|
  {
    var k := HardPlace(a, x);
    var n := |Min(a, x)|;
    HardAtom(a, s[c..d], x);
    hide Wild, Fresh, AtomLanguage, Min, Demand;
    assert Min(a, x)[k] == s[at + k];
    StretchUnique(s, c, at, n, k, x);
  }

  lemma NameParts(p: Around, x: char)
    ensures var s := p.Name(x);
      && p.To(x) + |Min(p.t, x)| <= |s|
      && s[..|MinWord(p.a, x)|] == MinWord(p.a, x)
      && s[|MinWord(p.a, x)|..p.From(x)] == Min(p.h, x)
      && s[p.From(x)..p.To(x)] == Only(|MinWord(p.run, x)| + 1, x)
      && s[p.To(x)..p.To(x) + |Min(p.t, x)|] == Min(p.t, x)
  {
    hide MinWord, Min, Only;
    var u, m, o, n, v := MinWord(p.a, x), Min(p.h, x), Only(|MinWord(p.run, x)| + 1, x), Min(p.t, x), MinWord(p.b, x);
    PartsOfJoin(u, m, o, n, v);
  }

  lemma PartsOfJoin(u: string, m: string, o: string, n: string, v: string)
    ensures var s := u + (m + (o + (n + v)));
      && s[..|u|] == u
      && s[|u|..|u| + |m|] == m
      && s[|u| + |m|..|u| + |m| + |o|] == o
      && s[|u| + |m| + |o|..|u| + |m| + |o| + |n|] == n
  {
  }

  /** The run is left with the one `x` too many, which it cannot take. */
  lemma NameIsMissed(p: Around, x: char, i: int, j: int)
    requires p.Fits(x) && 0 <= i <= j <= |p.Name(x)|
    ensures !Language(p.Pattern(), p.Name(x)[i..j])
  {
    hide *;
    var s := p.Name(x);
    if Language(p.Pattern(), s[i..j]) {
      var c1, c2, c3, c4 := Cutting(p, s, i, j);
      RunIsFull(p, x, i, c1, c2, c3, c4, j);
      FullRun(p, x, i, c1, c2, c3, c4, j);
    }
  }

  lemma RunIsFull(p: Around, x: char, i: int, c1: int, c2: int, c3: int, c4: int, j: int)
    requires p.Fits(x) && Cut(p, p.Name(x), i, c1, c2, c3, c4, j)
    ensures c2 == p.From(x) && c3 == p.To(x)
  {
    var s := p.Name(x);
    hide Wild, Easy, AllFresh, Fresh, Language, AtomLanguage, MinWord, Min, Demand, Only;
    PartsAreFresh(p, x);
    NothingToSpare(p, x, i, c1, c2, c3, c4, j);
    NameParts(p, x);
    NameDemand(p, x);
    hide Around.Name;
    HardAtomStays(p.h, s, c1, c2, |MinWord(p.a, x)|, x);
    HardAtomStays(p.t, s, c3, c4, p.To(x), x);
  }

  lemma FullRun(p: Around, x: char, i: int, c1: int, c2: int, c3: int, c4: int, j: int)
    requires p.Fits(x) && Cut(p, p.Name(x), i, c1, c2, c3, c4, j)
    ensures !(c2 == p.From(x) && c3 == p.To(x))
  {
    PartsAreFresh(p, x);
    NameParts(p, x);
    hide Wild, Easy, AllFresh, Fresh, Language, AtomLanguage, MinWord, Min, Only, Around.Name;
    if c2 == p.From(x) && c3 == p.To(x) {
      RunGaps(p.run, |MinWord(p.run, x)| + 1, x);
    }
  }

  // The documentation matches it.

  /** A wild run with a `?*` takes one character more than its shortest word. */
  lemma RunDocumented(u: seq<Atom>, v: seq<Atom>, w: string, x: char)
    requires Easy(u) && Easy(v) && |w| == |MinWord(u + ([Star('?')] + v), x)| + 1
    ensures DocLanguage(u + ([Star('?')] + v), w)
  {
    hide *;
    var k := |MinWord(u, x)|;
    StarIsFree(u, v, x);
    EasyWord(u, w[..k], x);
    ProgramWithinDocs(u, w[..k]);
    OneQuestion(w[k]);
    EasyWord(v, w[k + 1..], x);
    ProgramWithinDocs(v, w[k + 1..]);
    DocJoined([Star('?')], v, [w[k]], w[k + 1..]);
    DocJoined(u, [Star('?')] + v, w[..k], [w[k]] + w[k + 1..]);
    assert w == w[..k] + ([w[k]] + w[k + 1..]);
  }

  lemma StarIsFree(u: seq<Atom>, v: seq<Atom>, x: char)
    ensures MinWord(u + ([Star('?')] + v), x) == MinWord(u, x) + MinWord(v, x)
  {
    MinWordJoined(u, [Star('?')] + v, x);
    assert ([Star('?')] + v)[1..] == v;
  }

  lemma OneQuestion(c: char)
    ensures DocLanguage([Star('?')], [c])
  {
    assert DocAtom(Star('?'), [c][..1]) && [c][1..] == "";
  }

  lemma MinDocumented(a: Atom, x: char)
    ensures DocLanguage([a], Min(a, x))
  {
    MinIsWord(a, x);
    OneAtom(a, Min(a, x));
    ProgramWithinDocs([a], Min(a, x));
  }

  lemma MinWordDocumented(atoms: seq<Atom>, x: char)
    ensures DocLanguage(atoms, MinWord(atoms, x))
  {
    MinWordIsWord(atoms, x);
    ProgramWithinDocs(atoms, MinWord(atoms, x));
  }

  lemma NameIsDocumented(p: Around, x: char)
    requires DocLanguage(p.run, Only(|MinWord(p.run, x)| + 1, x))
    ensures DocSomewhere(p.Pattern(), p.Name(x))
  {
    var u, m, o, n, v := MinWord(p.a, x), Min(p.h, x), Only(|MinWord(p.run, x)| + 1, x), Min(p.t, x), MinWord(p.b, x);
    hide DocLanguage, MinWord, Min, Only;
    MinWordDocumented(p.a, x);
    MinDocumented(p.h, x);
    MinDocumented(p.t, x);
    MinWordDocumented(p.b, x);
    DocJoined([p.t], p.b, n, v);
    DocJoined(p.run, [p.t] + p.b, o, n + v);
    DocJoined([p.h], p.run + ([p.t] + p.b), m, o + (n + v));
    DocJoined(p.a, [p.h] + (p.run + ([p.t] + p.b)), u, m + (o + (n + v)));
    assert p.Name(x)[0..|p.Name(x)|] == p.Name(x);
  }

  // Every pattern that breaks the condition has such a shape.

  /** The nearest atoms that name a character, around the `?*` at `k`. */
  function Surrounding(atoms: seq<Atom>, k: nat): Around
    requires k < |atoms| && !Easy(atoms[..k]) && !Easy(atoms[k + 1..])
  {
    var lo, hi := Before(atoms, k), After(atoms, k);
    Around(atoms[..lo], atoms[lo], atoms[lo + 1..hi], atoms[hi], atoms[hi + 1..])
  }

  function Before(atoms: seq<Atom>, k: nat): (lo: nat)
    requires k < |atoms| && !Easy(atoms[..k])
    ensures lo < k && !Wild(atoms[lo]) && Easy(atoms[lo + 1..k])
  {
    var b := EasyBack(atoms[..k]);
    assert atoms[..k][0..] == atoms[..k];
    assert atoms[..k][b..] == atoms[b..k];
    b - 1
  }

  function After(atoms: seq<Atom>, k: nat): (hi: nat)
    requires k < |atoms| && !Easy(atoms[k + 1..])
    ensures k < hi < |atoms| && !Wild(atoms[hi]) && Easy(atoms[k + 1..hi])
  {
    var f := EasyFront(atoms[k + 1..]);
    assert atoms[k + 1..][..|atoms[k + 1..]|] == atoms[k + 1..];
    assert atoms[k + 1..][..f] == atoms[k + 1..k + 1 + f];
    k + 1 + f
  }

  /** A name that the documentation matches and the program does not. */
  lemma SeparatingName(atoms: seq<Atom>, k: nat, x: char)
    requires k < |atoms| && atoms[k] == Star('?') && !Easy(atoms[..k]) && !Easy(atoms[k + 1..]) && !Covered(atoms, k)
    requires x !in PrintAll(atoms) && x != '?'
    ensures var s := Surrounding(atoms, k).Name(x); DocSomewhere(atoms, s) && !MatchesSomewhere(atoms, s)
  {
    hide *;
    var p := Surrounding(atoms, k);
    SurroundingFits(atoms, k, x);
    RunDocumented(atoms[Before(atoms, k) + 1..k], atoms[k + 1..After(atoms, k)], Only(|MinWord(p.run, x)| + 1, x), x);
    NameIsDocumented(p, x);
    NowhereMatched(p, x);
  }

  lemma SurroundingFits(atoms: seq<Atom>, k: nat, x: char)
    requires k < |atoms| && atoms[k] == Star('?') && !Easy(atoms[..k]) && !Easy(atoms[k + 1..]) && !Covered(atoms, k)
    requires x !in PrintAll(atoms) && x != '?'
    ensures var p, lo, hi := Surrounding(atoms, k), Before(atoms, k), After(atoms, k);
      && p.Fits(x) && p.Pattern() == atoms
      && Easy(atoms[lo + 1..k]) && Easy(atoms[k + 1..hi]) && p.run == atoms[lo + 1..k] + ([Star('?')] + atoms[k + 1..hi])
  {
    hide *;
    var lo, hi := Before(atoms, k), After(atoms, k);
    var p := Around(atoms[..lo], atoms[lo], atoms[lo + 1..hi], atoms[hi], atoms[hi + 1..]);
    assert Surrounding(atoms, k) == p by { SurroundingIs(atoms, k); }
    AroundIs(atoms, lo, hi);
    RunAround(atoms, lo, k, hi);
    FreshAtoms(atoms, x);
    FitsAround(p, x);
  }

  lemma SurroundingIs(atoms: seq<Atom>, k: nat)
    requires k < |atoms| && !Easy(atoms[..k]) && !Easy(atoms[k + 1..])
    ensures var lo, hi := Before(atoms, k), After(atoms, k);
      Surrounding(atoms, k) == Around(atoms[..lo], atoms[lo], atoms[lo + 1..hi], atoms[hi], atoms[hi + 1..])
  {
  }

  lemma FitsAround(p: Around, x: char)
    requires !Wild(p.h) && !Wild(p.t) && Easy(p.run) && GroupStar("?") !in p.run && x != '?' && AllFresh(p.Pattern(), x)
    ensures p.Fits(x)
  {
  }

  lemma NowhereMatched(p: Around, x: char)
    requires p.Fits(x)
    ensures !MatchesSomewhere(p.Pattern(), p.Name(x))
  {
    hide Language, Around.Name, Around.Pattern, Around.Fits;
    forall i, j | 0 <= i <= j <= |p.Name(x)|
      ensures !Language(p.Pattern(), p.Name(x)[i..j])
    {
      NameIsMissed(p, x, i, j);
    }
  }

  lemma AroundIs(atoms: seq<Atom>, lo: nat, hi: nat)
    requires lo < hi < |atoms|
    ensures Around(atoms[..lo], atoms[lo], atoms[lo + 1..hi], atoms[hi], atoms[hi + 1..]).Pattern() == atoms
  {
    var rest := atoms[lo + 1..hi] + ([atoms[hi]] + atoms[hi + 1..]);
    assert rest == atoms[lo + 1..];
    assert atoms == atoms[..lo] + ([atoms[lo]] + atoms[lo + 1..]);
  }

  lemma RunAround(atoms: seq<Atom>, lo: nat, k: nat, hi: nat)
    requires lo < k < hi < |atoms| && atoms[k] == Star('?') && Easy(atoms[lo + 1..k]) && Easy(atoms[k + 1..hi]) && !Covered(atoms, k)
    ensures atoms[lo + 1..hi] == atoms[lo + 1..k] + ([Star('?')] + atoms[k + 1..hi])
    ensures Easy(atoms[lo + 1..hi]) && GroupStar("?") !in atoms[lo + 1..hi]
  {
    var run := atoms[lo + 1..hi];
    assert run == atoms[lo + 1..k] + ([Star('?')] + atoms[k + 1..hi]);
    if GroupStar("?") in run {
      var j :| lo < j < hi && atoms[j] == GroupStar("?");
      CoverNear(atoms, lo, j, k, hi);
    }
  }

  lemma CoverNear(atoms: seq<Atom>, lo: nat, j: nat, k: nat, hi: nat)
    requires lo < j < hi <= |atoms| && lo < k < hi && atoms[j] == GroupStar("?") && Easy(atoms[lo + 1..hi])
    ensures Covered(atoms, k)
  {
    var m, n := if j < k then j else k, if j < k then k else j;
    SubSlice(atoms, lo + 1, hi, m - lo - 1, n - lo - 1);
    forall l | 0 <= l < n - m
      ensures Wild(atoms[m..n][l])
    {
      assert atoms[m..n][l] == atoms[lo + 1..hi][m - lo - 1 + l];
    }
    assert Covers(atoms, j, k);
  }

  /** For `x` any character other than `?` that the pattern does not use: the program agrees with the
      documentation on every name exactly when the pattern's repeated question marks are harmless. */
  lemma AgreesOnEveryNameIff(atoms: seq<Atom>, x: char)
    requires x !in PrintAll(atoms) && x != '?'
    ensures (forall s :: MatchesSomewhere(atoms, s) <==> DocSomewhere(atoms, s)) <==> Harmless(atoms)
  {
    if Harmless(atoms) {
      forall s
        ensures MatchesSomewhere(atoms, s) <==> DocSomewhere(atoms, s)
      {
        HarmlessAgrees(atoms, s);
      }
    } else {
      hide Easy, Covered, MatchesSomewhere, DocSomewhere;
      var k :| 0 <= k < |atoms| && atoms[k] == Star('?') && !Easy(atoms[..k]) && !Easy(atoms[k + 1..]) && !Covered(atoms, k);
      SeparatingName(atoms, k, x);
      var s := Surrounding(atoms, k).Name(x);
      assert !(MatchesSomewhere(atoms, s) <==> DocSomewhere(atoms, s));
    }
  }

  /** By the documentation "a?*b" matches "axb" and "a(?)*b?*c" matches "abxc"; the program matches neither. */
  lemma QuestionStarMissesAName()
    ensures Parse("a?*b") == Atoms([Lit('a'), Star('?'), Lit('b')])
    ensures DocSomewhere([Lit('a'), Star('?'), Lit('b')], "axb")
    ensures !MatchesSomewhere([Lit('a'), Star('?'), Lit('b')], "axb")
    ensures Parse("a(?)*b?*c") == Atoms([Lit('a'), GroupStar("?"), Lit('b'), Star('?'), Lit('c')])
    ensures DocSomewhere([Lit('a'), GroupStar("?"), Lit('b'), Star('?'), Lit('c')], "abxc")
    ensures !MatchesSomewhere([Lit('a'), GroupStar("?"), Lit('b'), Star('?'), Lit('c')], "abxc")
  {
    TheirAtoms();
    hide Parse;
    var u := [Lit('a'), GroupStar("?")];
    assert u[1..] == [GroupStar("?")];
    assert MinWord(u, 'x') + ['b', 'x', 'c'] == "abxc";
    assert u + [Lit('b'), Star('?'), Lit('c')] == [Lit('a'), GroupStar("?"), Lit('b'), Star('?'), Lit('c')];
    assert MinWord([], 'x') + ['a', 'x', 'b'] == "axb";
    assert [] + [Lit('a'), Star('?'), Lit('b')] == [Lit('a'), Star('?'), Lit('b')];
    StarBetween([], 'a', 'b', 'x');
    StarBetween(u, 'b', 'c', 'x');
  }

  lemma TheirAtoms()
    ensures Parse("a?*b") == Atoms([Lit('a'), Star('?'), Lit('b')])
    ensures Parse("a(?)*b?*c") == Atoms([Lit('a'), GroupStar("?"), Lit('b'), Star('?'), Lit('c')])
  {
    var p, q := [Lit('a'), Star('?'), Lit('b')], [Lit('a'), GroupStar("?"), Lit('b'), Star('?'), Lit('c')];
    BalancedQuestion();
    assert AllWellFormed(p) && AllWellFormed(q);
    assert PrintAll([Lit('b')]) == "b" && PrintAll([Lit('c')]) == "c";
    PrintTwo(Lit('a'), Star('?'), [Lit('b')]);
    PrintTwo(Lit('b'), Star('?'), [Lit('c')]);
    PrintTwo(Lit('a'), GroupStar("?"), [Lit('b'), Star('?'), Lit('c')]);
    hide PrintAll, Parse, AllWellFormed;
    assert [Lit('a')] + ([Star('?')] + [Lit('b')]) == p;
    assert [Lit('b')] + ([Star('?')] + [Lit('c')]) == [Lit('b'), Star('?'), Lit('c')];
    assert [Lit('a')] + ([GroupStar("?")] + [Lit('b'), Star('?'), Lit('c')]) == q;
    assert Print(Lit('a')) + (Print(Star('?')) + "b") == "a?*b";
    assert Print(Lit('b')) + (Print(Star('?')) + "c") == "b?*c";
    assert Print(Lit('a')) + (Print(GroupStar("?")) + "b?*c") == "a(?)*b?*c";
    ParsePrint(p);
    ParsePrint(q);
  }

  lemma PrintTwo(a: Atom, b: Atom, rest: seq<Atom>)
    ensures PrintAll([a] + ([b] + rest)) == Print(a) + (Print(b) + PrintAll(rest))
  {
    assert ([a] + ([b] + rest))[1..] == [b] + rest;
    assert ([b] + rest)[1..] == rest;
  }

  lemma BalancedQuestion()
    ensures Balanced("?")
  {
    forall k | 0 <= k <= 1
      ensures 0 <= Level("?"[..k])
    {
    }
  }

  /** `?*` between two different characters, with anything that avoids `x` before them. */
  lemma StarBetween(a: seq<Atom>, c: char, d: char, x: char)
    requires c != '?' && d != '?' && x != '?' && c != x && d != x && AllFresh(a, x)
    ensures DocSomewhere(a + [Lit(c), Star('?'), Lit(d)], MinWord(a, x) + [c, x, d])
    ensures !MatchesSomewhere(a + [Lit(c), Star('?'), Lit(d)], MinWord(a, x) + [c, x, d])
  {
    var p := Around(a, Lit(c), [Star('?')], Lit(d), []);
    StarBetweenIs(p, a, c, d, x);
    hide *;
    OneQuestion(x);
    NameIsDocumented(p, x);
    NowhereMatched(p, x);
  }

  lemma StarBetweenIs(p: Around, a: seq<Atom>, c: char, d: char, x: char)
    requires p == Around(a, Lit(c), [Star('?')], Lit(d), [])
    requires c != '?' && d != '?' && x != '?' && c != x && d != x && AllFresh(a, x)
    ensures p.Pattern() == a + [Lit(c), Star('?'), Lit(d)] && p.Name(x) == MinWord(a, x) + [c, x, d]
    ensures p.Fits(x) && Only(|MinWord(p.run, x)| + 1, x) == [x] && p.run == [Star('?')]
  {
    hide MinWord, AllFresh;
    var q := p.Pattern();
    assert q == a + [Lit(c), Star('?'), Lit(d)];
    assert MinWord(p.run, x) == "" && MinWord(p.b, x) == "" by { NothingToSay(x); }
    assert Only(1, x) == [x];
    assert p.Name(x) == MinWord(a, x) + [c, x, d];
    StillFresh(a, [Lit(c), Star('?'), Lit(d)], x);
  }

  lemma NothingToSay(x: char)
    ensures MinWord([Star('?')], x) == "" && MinWord([], x) == ""
  {
  }

  lemma StillFresh(a: seq<Atom>, b: seq<Atom>, x: char)
    requires AllFresh(a, x) && forall k {:trigger b[k]} :: 0 <= k < |b| ==> Fresh(b[k], x)
    ensures AllFresh(a + b, x)
  {
  }
}
