/** What the documentation says a pattern matches, and exactly how far the program agrees. They differ
    on `?*` alone: the documentation repeats any character, the program repeats the character `?`. */
module PatternDocs {
  import opened PatternSyntax
  import opened PatternMatch

  /** A star repeats what precedes it, and `?` is any character. */
  ghost predicate DocAtom(a: Atom, w: string) {
    match a
    case Lit(c) => |w| == 1 && Admits(c, w[0])
    case Star(c) => forall k {:trigger w[k]} :: 0 <= k < |w| ==> Admits(c, w[k])
    case Group(g) => Spells(g, w)
    case GroupStar(g) => Repeats(g, w)
  }

  ghost predicate DocLanguage(atoms: seq<Atom>, w: string) {
    if atoms == [] then w == ""
    else exists i :: 0 <= i <= |w| && DocAtom(atoms[0], w[..i]) && DocLanguage(atoms[1..], w[i..])
  }

  /** The documentation's meaning of a pattern: some contiguous substring is in its language. */
  ghost predicate DocSomewhere(atoms: seq<Atom>, s: string) {
    exists i, j :: 0 <= i <= j <= |s| && DocLanguage(atoms, s[i..j])
  }

  // What to write instead: `(?)*` for `?*`.

  function FixAtom(a: Atom): Atom {
    if a == Star('?') then GroupStar("?") else a
  }

  function Fix(atoms: seq<Atom>): (f: seq<Atom>)
    ensures |f| == |atoms|
  {
    if atoms == [] then [] else [FixAtom(atoms[0])] + Fix(atoms[1..])
  }

  lemma {:induction false} AnythingRepeats(w: string)
    ensures Repeats("?", w)
    decreases |w|
  {
    RepeatsSplits("?", w);
    if w != "" {
      AnythingRepeats(w[1..]);
      assert Spells("?", w[..1]);
    }
  }

  lemma FixedAtom(a: Atom, w: string)
    ensures DocAtom(a, w) <==> AtomLanguage(FixAtom(a), w)
  {
    if a == Star('?') {
      AnythingRepeats(w);
    }
  }

  lemma {:induction false} FixedLanguage(atoms: seq<Atom>, w: string)
    ensures DocLanguage(atoms, w) <==> Language(Fix(atoms), w)
    decreases |atoms|
  {
    if atoms != [] {
      var f := Fix(atoms);
      assert f[1..] == Fix(atoms[1..]);
      forall i | 0 <= i <= |w|
        ensures DocAtom(atoms[0], w[..i]) <==> AtomLanguage(f[0], w[..i])
        ensures DocLanguage(atoms[1..], w[i..]) <==> Language(f[1..], w[i..])
      {
        FixedAtom(atoms[0], w[..i]);
        FixedLanguage(atoms[1..], w[i..]);
      }
    }
  }

  /** The documentation's meaning of any pattern is the program's meaning of the pattern with every `?*`
      written as `(?)*`, and that is again a pattern. */
  lemma FixedPatternMeetsDocumentation(atoms: seq<Atom>, s: string)
    ensures DocSomewhere(atoms, s) <==> MatchesSomewhere(Fix(atoms), s)
    ensures AllWellFormed(atoms) ==> AllWellFormed(Fix(atoms))
  {
    if AllWellFormed(atoms) { FixKeepsWellFormed(atoms); }
    forall i, j | 0 <= i <= j <= |s|
      ensures DocLanguage(atoms, s[i..j]) <==> Language(Fix(atoms), s[i..j])
    {
      FixedLanguage(atoms, s[i..j]);
    }
  }

  lemma {:induction false} FixKeepsWellFormed(atoms: seq<Atom>)
    requires AllWellFormed(atoms)
    ensures AllWellFormed(Fix(atoms))
  {
    if atoms != [] {
      assert WellFormed(atoms[0]);
      forall k | 0 <= k < |atoms[1..]|
        ensures WellFormed(atoms[1..][k])
      {
        assert WellFormed(atoms[k + 1]);
      }
      FixKeepsWellFormed(atoms[1..]);
      assert Balanced("?") by {
        forall k | 0 <= k <= 1
          ensures 0 <= Level("?"[..k])
        {
        }
      }
    }
  }

  lemma {:induction false} NothingToFix(atoms: seq<Atom>)
    requires Star('?') !in atoms
    ensures Fix(atoms) == atoms
  {
    if atoms != [] {
      assert atoms[0] in atoms;
      NothingToFix(atoms[1..]);
    }
  }

  /** Without `?*` the program meets the documentation on every name. */
  lemma PlainPatternsAgree(atoms: seq<Atom>, s: string)
    requires Star('?') !in atoms
    ensures MatchesSomewhere(atoms, s) <==> DocSomewhere(atoms, s)
  {
    NothingToFix(atoms);
    FixedPatternMeetsDocumentation(atoms, s);
  }

  // Joining patterns.

  lemma LanguageStep(atoms: seq<Atom>, w: string, i: int)
    requires atoms != [] && 0 <= i <= |w| && AtomLanguage(atoms[0], w[..i]) && Language(atoms[1..], w[i..])
    ensures Language(atoms, w)
  {
  }

  lemma LanguageCut(atoms: seq<Atom>, w: string) returns (i: int)
    requires Language(atoms, w)
    ensures if atoms == [] then w == "" && i == 0
            else 0 <= i <= |w| && AtomLanguage(atoms[0], w[..i]) && Language(atoms[1..], w[i..])
  {
    i := 0;
    if atoms != [] {
      i :| 0 <= i <= |w| && AtomLanguage(atoms[0], w[..i]) && Language(atoms[1..], w[i..]);
    }
  }

  lemma {:induction false} Joined(a: seq<Atom>, b: seq<Atom>, u: string, v: string)
    requires Language(a, u) && Language(b, v)
    ensures Language(a + b, u + v)
    decreases |a|
  {
    hide Language, AtomLanguage;
    var i := LanguageCut(a, u);
    if a == [] {
      assert a + b == b && u + v == v;
    } else {
      Joined(a[1..], b, u[i..], v);
      var w := u + v;
      assert (a + b)[1..] == a[1..] + b && w[..i] == u[..i] && w[i..] == u[i..] + v;
      LanguageStep(a + b, w, i);
    }
  }

  lemma {:induction false} Unjoined(a: seq<Atom>, b: seq<Atom>, w: string) returns (i: int)
    requires Language(a + b, w)
    ensures 0 <= i <= |w| && Language(a, w[..i]) && Language(b, w[i..])
    decreases |a|
  {
    hide Language, AtomLanguage;
    if a == [] {
      OnlyEmpty(a, "");
      assert a + b == b && w[0..] == w && w[..0] == "";
      i := 0;
    } else {
      assert (a + b)[1..] == a[1..] + b;
      var j := LanguageCut(a + b, w);
      var k := Unjoined(a[1..], b, w[j..]);
      i := j + k;
      var u := w[..i];
      assert u[..j] == w[..j] && u[j..] == w[j..][..k] && w[i..] == w[j..][k..];
      LanguageStep(a, u, j);
    }
  }

  lemma {:induction false} FixJoined(a: seq<Atom>, b: seq<Atom>)
    ensures Fix(a + b) == Fix(a) + Fix(b)
  {
    if a == [] {
      assert a + b == b;
    } else {
      assert (a + b)[1..] == a[1..] + b;
      FixJoined(a[1..], b);
    }
  }

  /** Whatever the program matches, the documentation matches. */
  lemma {:induction false} ProgramWithinDocs(atoms: seq<Atom>, w: string)
    requires Language(atoms, w)
    ensures DocLanguage(atoms, w)
    decreases |atoms|
  {
    if atoms != [] {
      var i :| 0 <= i <= |w| && AtomLanguage(atoms[0], w[..i]) && Language(atoms[1..], w[i..]);
      ProgramWithinDocs(atoms[1..], w[i..]);
      assert DocAtom(atoms[0], w[..i]);
    }
  }

  // Exactly which patterns meet the documentation on every name.

  predicate AllQuestions(g: string) {
    forall k {:trigger g[k]} :: 0 <= k < |g| ==> g[k] == '?'
  }

  /** The atom asks for a number of characters but for no particular one. */
  predicate Wild(a: Atom) {
    match a
    case Lit(c) => c == '?'
    case Group(g) => AllQuestions(g)
    case Star(_) => true
    case GroupStar(_) => true
  }

  predicate Easy(atoms: seq<Atom>) {
    forall k {:trigger atoms[k]} :: 0 <= k < |atoms| ==> Wild(atoms[k])
  }

  /** `(?)*` at `j` and the atom at `k` have nothing but wild atoms between them. */
  predicate Covers(atoms: seq<Atom>, j: int, k: int)
    requires 0 <= k < |atoms|
  {
    0 <= j < |atoms| && atoms[j] == GroupStar("?") && if j < k then Easy(atoms[j..k]) else Easy(atoms[k..j])
  }

  ghost predicate Covered(atoms: seq<Atom>, k: int)
    requires 0 <= k < |atoms|
  {
    exists j :: Covers(atoms, j, k)
  }

  /** Every `?*` has nothing but wild atoms before it, or nothing but wild atoms after it, or nothing but
      wild atoms between it and some `(?)*`. */
  ghost predicate Harmless(atoms: seq<Atom>) {
    forall k {:trigger atoms[k]} :: 0 <= k < |atoms| && atoms[k] == Star('?') ==>
      Easy(atoms[..k]) || Easy(atoms[k + 1..]) || Covered(atoms, k)
  }

  function Min(a: Atom, x: char): string {
    match a
    case Lit(c) => [if c == '?' then x else c]
    case Group(g) => seq(|g|, i requires 0 <= i < |g| => if g[i] == '?' then x else g[i])
    case Star(_) => ""
    case GroupStar(_) => ""
  }

  /** The shortest word of a pattern, with `x` wherever any character will do. */
  function MinWord(atoms: seq<Atom>, x: char): string {
    if atoms == [] then "" else Min(atoms[0], x) + MinWord(atoms[1..], x)
  }

  lemma MinIsWord(a: Atom, x: char)
    ensures AtomLanguage(a, Min(a, x))
  {
    if a.GroupStar? {
      assert Flatten([]) == "";
    }
  }

  lemma {:induction false} MinWordIsWord(atoms: seq<Atom>, x: char)
    ensures Language(atoms, MinWord(atoms, x))
  {
    if atoms != [] {
      MinIsWord(atoms[0], x);
      MinWordIsWord(atoms[1..], x);
      var w, n := MinWord(atoms, x), |Min(atoms[0], x)|;
      assert w[..n] == Min(atoms[0], x) && w[n..] == MinWord(atoms[1..], x);
    }
  }

  /** An easy pattern matches every string of the shortest length. */
  lemma {:induction false} EasyWord(atoms: seq<Atom>, w: string, x: char)
    requires Easy(atoms) && |w| == |MinWord(atoms, x)|
    ensures Language(atoms, w)
    decreases |atoms|
  {
    if atoms != [] {
      var n := |Min(atoms[0], x)|;
      assert Wild(atoms[0]);
      EasyAtom(atoms[0], w[..n], x);
      forall k | 0 <= k < |atoms[1..]|
        ensures Wild(atoms[1..][k])
      {
        assert Wild(atoms[k + 1]);
      }
      EasyWord(atoms[1..], w[n..], x);
    }
  }

  lemma EasyAtom(a: Atom, w: string, x: char)
    requires Wild(a) && |w| == |Min(a, x)|
    ensures AtomLanguage(a, w)
  {
    if a.GroupStar? {
      MinIsWord(a, x);
    }
  }

  lemma {:induction false} DocWordsAreLong(atoms: seq<Atom>, w: string, x: char)
    requires DocLanguage(atoms, w)
    ensures |w| >= |MinWord(atoms, x)|
    decreases |atoms|
  {
    if atoms != [] {
      var i :| 0 <= i <= |w| && DocAtom(atoms[0], w[..i]) && DocLanguage(atoms[1..], w[i..]);
      DocWordsAreLong(atoms[1..], w[i..], x);
    }
  }

  lemma DocUnjoined(a: seq<Atom>, b: seq<Atom>, w: string) returns (i: int)
    requires DocLanguage(a + b, w)
    ensures 0 <= i <= |w| && DocLanguage(a, w[..i]) && DocLanguage(b, w[i..])
  {
    FixedLanguage(a + b, w);
    FixJoined(a, b);
    i := Unjoined(Fix(a), Fix(b), w);
    FixedLanguage(a, w[..i]);
    FixedLanguage(b, w[i..]);
  }

  lemma DocJoined(a: seq<Atom>, b: seq<Atom>, u: string, v: string)
    requires DocLanguage(a, u) && DocLanguage(b, v)
    ensures DocLanguage(a + b, u + v)
  {
    FixedLanguage(a, u);
    FixedLanguage(b, v);
    Joined(Fix(a), Fix(b), u, v);
    FixJoined(a, b);
    FixedLanguage(a + b, u + v);
  }

  // The condition is enough.

  /** The length of the longest easy front. */
  function EasyFront(atoms: seq<Atom>): (n: nat)
    ensures n <= |atoms| && Easy(atoms[..n])
    ensures n < |atoms| ==> !Wild(atoms[n])
  {
    if atoms == [] || !Wild(atoms[0]) then 0
    else
      var m := EasyFront(atoms[1..]);
      assert forall k :: 0 <= k < m ==> atoms[1..][..m][k] == atoms[k + 1];
      assert forall k :: 0 < k <= m ==> atoms[k] == atoms[1..][..m][k - 1];
      m + 1
  }

  /** Where the longest easy back starts. */
  function EasyBack(atoms: seq<Atom>): (n: nat)
    ensures n <= |atoms| && Easy(atoms[n..])
    ensures 0 < n ==> !Wild(atoms[n - 1])
  {
    if atoms == [] || !Wild(atoms[|atoms| - 1]) then |atoms|
    else EasyBack(atoms[..|atoms| - 1])
  }

  /** Every `?*` of `m` has nothing but wild atoms between it and some `(?)*` of `m`. */
  ghost predicate AllCovered(m: seq<Atom>) {
    forall k {:trigger m[k]} :: 0 <= k < |m| && m[k] == Star('?') ==> Covered(m, k)
  }

  lemma EasySlice(atoms: seq<Atom>, lo: int, hi: int, k: int)
    requires 0 <= lo <= k < hi <= |atoms| && Easy(atoms[lo..hi])
    ensures Wild(atoms[k])
  {
    assert atoms[lo..hi][k - lo] == atoms[k];
  }

  lemma SubSlice<T>(s: seq<T>, i: int, j: int, k: int, l: int)
    requires 0 <= i <= j <= |s| && 0 <= k <= l <= j - i
    ensures s[i..j][k..l] == s[i + k..i + l]
  {
    var w, a, b := s[i..j], s[i..j][k..l], s[i + k..i + l];
    forall n | 0 <= n < l - k
      ensures a[n] == b[n]
    {
      assert a[n] == w[k + n];
    }
  }

  /** Between the longest easy front and the longest easy back every `?*` is covered from between them. */
  lemma MiddleIsCovered(atoms: seq<Atom>, p: nat, q: nat)
    requires Harmless(atoms) && p == EasyFront(atoms) && q == EasyBack(atoms) && p <= q
    ensures AllCovered(atoms[p..q])
  {
    var m := atoms[p..q];
    forall k | 0 <= k < |m| && m[k] == Star('?')
      ensures Covered(m, k)
    {
      MiddleIsHard(atoms, p, q, k);
      var j :| Covers(atoms, j, k + p);
      hide Harmless;
      CoverStaysInside(atoms, p, q, j, k);
    }
  }

  lemma MiddleIsHard(atoms: seq<Atom>, p: nat, q: nat, k: int)
    requires p == EasyFront(atoms) && q == EasyBack(atoms) && 0 <= k < q - p && Wild(atoms[p + k])
    ensures 0 < k < q - p - 1 && !Wild(atoms[p]) && !Wild(atoms[q - 1]) && !Easy(atoms[..p + k]) && !Easy(atoms[p + k + 1..])
  {
    hide Wild, Easy, EasyFront, EasyBack;
    var n := p + k;
    assert atoms[..n] == atoms[0..n] && atoms[n + 1..] == atoms[n + 1..|atoms|];
    if Easy(atoms[..n]) { EasySlice(atoms, 0, n, p); }
    if Easy(atoms[n + 1..]) { EasySlice(atoms, n + 1, |atoms|, q - 1); }
  }

  lemma CoverStaysInside(atoms: seq<Atom>, p: nat, q: nat, j: int, k: int)
    requires p < q <= |atoms| && 0 < k < q - p - 1 && !Wild(atoms[p]) && !Wild(atoms[q - 1]) && Covers(atoms, j, k + p)
    ensures Covered(atoms[p..q], k)
  {
    if j < p { EasySlice(atoms, j, k + p, p); }
    if q <= j { EasySlice(atoms, k + p, j, q - 1); }
    CoverInside(atoms, p, q, j, k);
  }

  lemma CoverInside(atoms: seq<Atom>, p: nat, q: nat, j: int, k: int)
    requires p <= j < q <= |atoms| && 0 <= k < q - p && Covers(atoms, j, k + p)
    ensures Covered(atoms[p..q], k)
  {
    hide Easy;
    if j < k + p { SubSlice(atoms, p, q, j - p, k); } else { SubSlice(atoms, p, q, k, j - p); }
    assert Covers(atoms[p..q], j - p, k);
  }

  /** A wild run with a `(?)*` in it matches everything that is long enough. */
  lemma AnyLongWord(run: seq<Atom>, j: nat, w: string, x: char)
    requires Easy(run) && j < |run| && run[j] == GroupStar("?") && |MinWord(run, x)| <= |w|
    ensures Language(run, w)
  {
    hide *;
    var u, v := run[..j], run[j + 1..];
    assert run == u + ([GroupStar("?")] + v);
    EasySides(run, j);
    MinWordAround(u, v, x);
    var k, l := |MinWord(u, x)|, |w| - |MinWord(v, x)|;
    assert w == w[..k] + (w[k..l] + w[l..]);
    AnyBetween(u, v, w[..k], w[k..l], w[l..], x);
  }

  lemma EasySides(run: seq<Atom>, j: nat)
    requires Easy(run) && j < |run|
    ensures Easy(run[..j]) && Easy(run[j + 1..])
  {
  }

  lemma MinWordAround(a: seq<Atom>, b: seq<Atom>, x: char)
    ensures MinWord(a + ([GroupStar("?")] + b), x) == MinWord(a, x) + MinWord(b, x)
  {
    MinWordJoined(a, [GroupStar("?")] + b, x);
    assert ([GroupStar("?")] + b)[1..] == b;
  }

  lemma AnyBetween(a: seq<Atom>, b: seq<Atom>, u: string, w: string, v: string, x: char)
    requires Easy(a) && Easy(b) && |u| == |MinWord(a, x)| && |v| == |MinWord(b, x)|
    ensures Language(a + ([GroupStar("?")] + b), u + (w + v))
  {
    hide *;
    assert Language([GroupStar("?")], w) by {
      AnythingRepeats(w);
      OneAtom(GroupStar("?"), w);
      AnyAtom(w);
    }
    EasyWord(a, u, x);
    EasyWord(b, v, x);
    Joined([GroupStar("?")], b, w, v);
    Joined(a, [GroupStar("?")] + b, u, w + v);
  }

  lemma AnyAtom(w: string)
    requires Repeats("?", w)
    ensures AtomLanguage(GroupStar("?"), w)
  {
  }

  lemma OneAtom(a: Atom, w: string)
    ensures Language([a], w) <==> AtomLanguage(a, w)
  {
    assert [a][1..] == [];
    if AtomLanguage(a, w) {
      assert w[..|w|] == w && w[|w|..] == "";
      LanguageStep([a], w, |w|);
    }
    if Language([a], w) {
      var i := LanguageCut([a], w);
      OnlyEmpty([a][1..], w[i..]);
      assert w[..i] == w;
    }
  }

  lemma OnlyEmpty(atoms: seq<Atom>, w: string)
    requires atoms == []
    ensures Language(atoms, w) <==> w == ""
  {
  }

  lemma {:induction false} MinWordJoined(a: seq<Atom>, b: seq<Atom>, x: char)
    ensures MinWord(a + b, x) == MinWord(a, x) + MinWord(b, x)
  {
    if a == [] {
      assert a + b == b;
    } else {
      assert (a + b)[1..] == a[1..] + b;
      MinWordJoined(a[1..], b, x);
    }
  }

  /** Where every `?*` is covered, the documented words are the program's. */
  lemma {:induction false} CoveredWord(m: seq<Atom>, w: string)
    requires AllCovered(m) && DocLanguage(m, w)
    ensures Language(m, w)
    decreases |m|
  {
    hide *;
    var n := EasyFront(m);
    assert m == m[..n] + m[n..];
    var i := DocUnjoined(m[..n], m[n..], w);
    RunWord(m, w[..i]);
    if n < |m| {
      assert m[n..] == [m[n]] + m[n + 1..];
      var k := DocUnjoined([m[n]], m[n + 1..], w[i..]);
      HardWord(m[n], w[i..][..k]);
      RestIsCovered(m, n);
      CoveredWord(m[n + 1..], w[i..][k..]);
      Joined([m[n]], m[n + 1..], w[i..][..k], w[i..][k..]);
      assert w[i..][..k] + w[i..][k..] == w[i..];
    } else {
      assert m[n..] == [];
      NoAtoms(m[n..], w[i..]);
    }
    Joined(m[..n], m[n..], w[..i], w[i..]);
    assert w[..i] + w[i..] == w;
  }

  lemma NoAtoms(atoms: seq<Atom>, w: string)
    requires atoms == [] && DocLanguage(atoms, w)
    ensures Language(atoms, w)
  {
  }

  lemma HardWord(a: Atom, w: string)
    requires !Wild(a) && DocLanguage([a], w)
    ensures Language([a], w)
  {
    assert [a] == Fix([a]) by { NothingToFix([a]); }
    FixedLanguage([a], w);
  }

  /** The longest wild front of a covered pattern. */
  lemma RunWord(m: seq<Atom>, w: string)
    requires AllCovered(m) && DocLanguage(m[..EasyFront(m)], w)
    ensures Language(m[..EasyFront(m)], w)
  {
    var n := EasyFront(m);
    var run := m[..n];
    hide Language, DocLanguage, MinWord, EasyFront;
    if Star('?') in run {
      var k :| 0 <= k < n && m[k] == Star('?');
      var j :| Covers(m, j, k);
      if n <= j { EasyEndsHere(m, n, k, j); }
      DocWordsAreLong(run, w, 'x');
      AnyLongWord(run, j, w, 'x');
    } else {
      NothingToFix(run);
      FixedLanguage(run, w);
    }
  }

  lemma EasyEndsHere(m: seq<Atom>, n: nat, k: nat, j: nat)
    requires k < n <= j < |m| && (n < |m| ==> !Wild(m[n])) && Wild(m[j])
    ensures !Easy(m[k..j])
  {
    if Easy(m[k..j]) && n < j { EasySlice(m, k, j, n); }
  }

  lemma RestIsCovered(m: seq<Atom>, n: nat)
    requires AllCovered(m) && n < |m| && !Wild(m[n])
    ensures AllCovered(m[n + 1..])
  {
    var r := m[n + 1..];
    assert r == m[n + 1..|m|];
    forall k | 0 <= k < |r| && r[k] == Star('?')
      ensures Covered(r, k)
    {
      var j :| Covers(m, j, n + 1 + k);
      if j <= n { EasySlice(m, j, n + 1 + k, n); }
      CoverInside(m, n + 1, |m|, j, k);
    }
  }

  /** A match of the middle with enough characters on both sides is a match of the whole. */
  lemma EasyEndsMatch(p: seq<Atom>, m: seq<Atom>, q: seq<Atom>, s: string, k: int, l: int, x: char)
    requires Easy(p) && Easy(q) && 0 <= k <= l <= |s| && Language(m, s[k..l])
    requires |MinWord(p, x)| <= k && l + |MinWord(q, x)| <= |s|
    ensures MatchesSomewhere(p + (m + q), s)
  {
    hide Language, MinWord, Easy;
    var from, to := k - |MinWord(p, x)|, l + |MinWord(q, x)|;
    EasyWord(p, s[from..k], x);
    EasyWord(q, s[l..to], x);
    Joined(m, q, s[k..l], s[l..to]);
    assert s[k..l] + s[l..to] == s[k..to];
    Joined(p, m + q, s[from..k], s[k..to]);
    assert s[from..k] + s[k..to] == s[from..to];
  }

  lemma DocMiddle(p: seq<Atom>, m: seq<Atom>, q: seq<Atom>, w: string, x: char) returns (k: int, l: int)
    requires AllCovered(m) && DocLanguage(p + (m + q), w)
    ensures |MinWord(p, x)| <= k <= l && l + |MinWord(q, x)| <= |w| && Language(m, w[k..l])
  {
    hide *;
    assert w[0..|w|] == w;
    k := DocCutAt(p, m + q, w, 0, |w|);
    l := DocCutAt(m, q, w, k, |w|);
    DocWordsAreLong(p, w[0..k], x);
    DocWordsAreLong(q, w[l..|w|], x);
    CoveredWord(m, w[k..l]);
  }

  lemma DocCutAt(a: seq<Atom>, b: seq<Atom>, s: string, i: int, j: int) returns (c: int)
    requires 0 <= i <= j <= |s| && DocLanguage(a + b, s[i..j])
    ensures i <= c <= j && DocLanguage(a, s[i..c]) && DocLanguage(b, s[c..j])
  {
    hide DocLanguage;
    var w := s[i..j];
    c := DocUnjoined(a, b, w);
    SubSlice(s, i, j, 0, c);
    SubSlice(s, i, j, c, j - i);
    assert w[0..c] == w[..c] && w[c..j - i] == w[c..];
    c := i + c;
  }

  lemma EasyEndsAgree(p: seq<Atom>, m: seq<Atom>, q: seq<Atom>, s: string, i: int, j: int)
    requires Easy(p) && Easy(q) && AllCovered(m) && 0 <= i <= j <= |s| && DocLanguage(p + (m + q), s[i..j])
    ensures MatchesSomewhere(p + (m + q), s)
  {
    hide Language, DocLanguage, MinWord, Easy, MatchesSomewhere;
    var k, l := DocMiddle(p, m, q, s[i..j], 'x');
    SubSlice(s, i, j, k, l);
    EasyEndsMatch(p, m, q, s, i + k, i + l, 'x');
  }

  lemma DocsWithinProgram(atoms: seq<Atom>, s: string, i: int, j: int)
    requires Harmless(atoms) && 0 <= i <= j <= |s| && DocLanguage(atoms, s[i..j])
    ensures MatchesSomewhere(atoms, s)
  {
    hide *;
    var p := EasyFront(atoms);
    var q := if p <= EasyBack(atoms) then EasyBack(atoms) else p;
    if p <= EasyBack(atoms) {
      MiddleIsCovered(atoms, p, q);
    } else {
      EasyTail(atoms, EasyBack(atoms), p);
      NothingIsCovered(atoms[p..q]);
    }
    assert atoms == atoms[..p] + (atoms[p..q] + atoms[q..]);
    EasyEndsAgree(atoms[..p], atoms[p..q], atoms[q..], s, i, j);
  }

  lemma NothingIsCovered(m: seq<Atom>)
    requires m == []
    ensures AllCovered(m)
  {
  }

  /** Under the condition the program meets the documentation on every name. */
  lemma HarmlessAgrees(atoms: seq<Atom>, s: string)
    requires Harmless(atoms)
    ensures MatchesSomewhere(atoms, s) <==> DocSomewhere(atoms, s)
  {
    hide Harmless, Language, DocLanguage;
    if MatchesSomewhere(atoms, s) {
      var i, j :| 0 <= i <= j <= |s| && Language(atoms, s[i..j]);
      ProgramWithinDocs(atoms, s[i..j]);
    }
    if DocSomewhere(atoms, s) {
      var i, j :| 0 <= i <= j <= |s| && DocLanguage(atoms, s[i..j]);
      DocsWithinProgram(atoms, s, i, j);
    }
  }

  lemma EasyTail(atoms: seq<Atom>, n: nat, m: nat)
    requires n <= m <= |atoms| && Easy(atoms[n..])
    ensures Easy(atoms[m..])
  {
    forall k | 0 <= k < |atoms[m..]|
      ensures Wild(atoms[m..][k])
    {
      assert Wild(atoms[n..][k + m - n]);
    }
  }
}
