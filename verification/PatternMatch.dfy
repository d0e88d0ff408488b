/** The language of a pattern, and the backtracking matcher proved to decide it. */
module PatternMatch {
  import opened PatternSyntax

  /** Pattern character `c` admits character `x`. */
  predicate Admits(c: char, x: char) {
    c == '?' || c == x
  }

  /** `w` spells the group body `g`. */
  predicate Spells(g: string, w: string) {
    |w| == |g| && forall k {:trigger w[k]} :: 0 <= k < |w| ==> Admits(g[k], w[k])
  }

  function Flatten(pieces: seq<string>): string {
    if pieces == [] then "" else pieces[0] + Flatten(pieces[1..])
  }

  /** `w` is a concatenation of any number of spellings of `g`. */
  ghost predicate Repeats(g: string, w: string) {
    exists pieces :: Flatten(pieces) == w && forall k :: 0 <= k < |pieces| ==> Spells(g, pieces[k])
  }

  ghost predicate AtomLanguage(a: Atom, w: string) {
    match a
    case Lit(c) => |w| == 1 && Admits(c, w[0])
    case Star(c) => forall k :: 0 <= k < |w| ==> w[k] == c
    case Group(g) => Spells(g, w)
    case GroupStar(g) => Repeats(g, w)
  }

  /** `w` is a concatenation of one word of each atom's language, in order. */
  ghost predicate Language(atoms: seq<Atom>, w: string) {
    if atoms == [] then w == ""
    else exists i :: 0 <= i <= |w| && AtomLanguage(atoms[0], w[..i]) && Language(atoms[1..], w[i..])
  }

  /** Some prefix of `s` is in the language. */
  ghost predicate MatchesPrefix(atoms: seq<Atom>, s: string) {
    exists j :: 0 <= j <= |s| && Language(atoms, s[..j])
  }

  /** Some contiguous substring of `s` is in the language. */
  ghost predicate MatchesSomewhere(atoms: seq<Atom>, s: string) {
    exists i, j :: 0 <= i <= j <= |s| && Language(atoms, s[i..j])
  }

  /** A prefix matches when the first atom takes some of it and the rest matches what is left. */
  ghost predicate Splits(atoms: seq<Atom>, s: string, i: int)
    requires atoms != []
  {
    0 <= i <= |s| && AtomLanguage(atoms[0], s[..i]) && MatchesPrefix(atoms[1..], s[i..])
  }

  lemma PrefixSplits(atoms: seq<Atom>, s: string)
    requires atoms != []
    ensures MatchesPrefix(atoms, s) <==> exists i :: Splits(atoms, s, i)
  {
    if MatchesPrefix(atoms, s) {
      var j :| 0 <= j <= |s| && Language(atoms, s[..j]);
      var w := s[..j];
      var i :| 0 <= i <= |w| && AtomLanguage(atoms[0], w[..i]) && Language(atoms[1..], w[i..]);
      assert w[..i] == s[..i] && w[i..] == s[i..][..j - i];
      assert Splits(atoms, s, i);
    }
    if exists i :: Splits(atoms, s, i) {
      var i :| Splits(atoms, s, i);
      var r := s[i..];
      var j :| 0 <= j <= |r| && Language(atoms[1..], r[..j]);
      var w := s[..i + j];
      assert w[..i] == s[..i] && w[i..] == r[..j];
      assert Language(atoms, w);
    }
  }

  lemma EmptyMatches(s: string)
    ensures MatchesPrefix([], s)
  {
    assert s[..0] == "";
    assert Language([], s[..0]);
  }

  lemma LitMatches(c: char, rest: seq<Atom>, s: string)
    ensures MatchesPrefix([Lit(c)] + rest, s) <==> s != "" && Admits(c, s[0]) && MatchesPrefix(rest, s[1..])
  {
    var atoms := [Lit(c)] + rest;
    assert atoms[1..] == rest;
    PrefixSplits(atoms, s);
    if s != "" && Admits(c, s[0]) && MatchesPrefix(rest, s[1..]) {
      assert Splits(atoms, s, 1);
    }
  }

  lemma GroupMatches(g: string, rest: seq<Atom>, s: string)
    ensures MatchesPrefix([Group(g)] + rest, s) <==>
            |g| <= |s| && Spells(g, s[..|g|]) && MatchesPrefix(rest, s[|g|..])
  {
    var atoms := [Group(g)] + rest;
    assert atoms[1..] == rest;
    PrefixSplits(atoms, s);
    if |g| <= |s| && Spells(g, s[..|g|]) && MatchesPrefix(rest, s[|g|..]) {
      assert Splits(atoms, s, |g|);
    }
  }

  /** A repeated character takes nothing, or one more. */
  lemma StarMatches(c: char, rest: seq<Atom>, s: string)
    ensures MatchesPrefix([Star(c)] + rest, s) <==>
            MatchesPrefix(rest, s) || (s != "" && s[0] == c && MatchesPrefix([Star(c)] + rest, s[1..]))
  {
    var atoms := [Star(c)] + rest;
    assert atoms[1..] == rest;
    PrefixSplits(atoms, s);
    if MatchesPrefix(atoms, s) {
      var i :| Splits(atoms, s, i);
      if i > 0 {
        PrefixSplits(atoms, s[1..]);
        assert s[..i][0] == s[0] && s[1..][..i - 1] == s[..i][1..] && s[1..][i - 1..] == s[i..];
        assert Splits(atoms, s[1..], i - 1);
      } else {
        assert s[0..] == s;
      }
    }
    if MatchesPrefix(rest, s) {
      assert s[0..] == s && s[..0] == "";
      assert Splits(atoms, s, 0);
    }
    if s != "" && s[0] == c && MatchesPrefix(atoms, s[1..]) {
      PrefixSplits(atoms, s[1..]);
      var i :| Splits(atoms, s[1..], i);
      assert s[1..][i..] == s[i + 1..];
      var w := s[..i + 1];
      forall k | 0 <= k < |w|
        ensures w[k] == c
      {
        if k > 0 { assert s[1..][..i][k - 1] == s[k]; }
      }
      assert Splits(atoms, s, i + 1);
    }
  }

  lemma RepeatsSplits(g: string, w: string)
    requires g != ""
    ensures Repeats(g, w) <==> w == "" || (|g| <= |w| && Spells(g, w[..|g|]) && Repeats(g, w[|g|..]))
  {
    if Repeats(g, w) && w != "" {
      RepeatsUnrolls(g, w);
    }
    if w == "" {
      assert Flatten([]) == w;
    }
    if |g| <= |w| && Spells(g, w[..|g|]) && Repeats(g, w[|g|..]) {
      RepeatsRolls(g, w);
    }
  }

  lemma RepeatsUnrolls(g: string, w: string)
    requires Repeats(g, w) && w != ""
    ensures |g| <= |w| && Spells(g, w[..|g|]) && Repeats(g, w[|g|..])
  {
    var pieces :| Flatten(pieces) == w && forall k :: 0 <= k < |pieces| ==> Spells(g, pieces[k]);
    var rest := pieces[1..];
    assert Spells(g, pieces[0]);
    assert w == pieces[0] + Flatten(rest);
    assert w[..|g|] == pieces[0] && w[|g|..] == Flatten(rest);
    assert forall k :: 0 <= k < |rest| ==> Spells(g, rest[k]);
  }

  lemma RepeatsRolls(g: string, w: string)
    requires |g| <= |w| && Spells(g, w[..|g|]) && Repeats(g, w[|g|..])
    ensures Repeats(g, w)
  {
    var pieces :| Flatten(pieces) == w[|g|..] && forall k :: 0 <= k < |pieces| ==> Spells(g, pieces[k]);
    var front := w[..|g|];
    var all := [front] + pieces;
    assert front + w[|g|..] == w;
    hide Spells;
    assert all[1..] == pieces;
    assert Flatten(all) == front + Flatten(pieces);
  }

  /** A repeated group takes nothing, or one more spelling of its body. */
  lemma GroupStarMatches(g: string, rest: seq<Atom>, s: string)
    requires g != ""
    ensures MatchesPrefix([GroupStar(g)] + rest, s) <==>
            MatchesPrefix(rest, s) || (|g| <= |s| && Spells(g, s[..|g|]) && MatchesPrefix([GroupStar(g)] + rest, s[|g|..]))
  {
    var atoms, n := [GroupStar(g)] + rest, |g|;
    assert atoms[1..] == rest;
    if MatchesPrefix(atoms, s) {
      GroupStarUnrolls(g, atoms, s);
    }
    if MatchesPrefix(rest, s) {
      PrefixSplits(atoms, s);
      assert s[0..] == s && s[..0] == "";
      RepeatsSplits(g, "");
      assert Splits(atoms, s, 0);
    }
    if n <= |s| && Spells(g, s[..n]) && MatchesPrefix(atoms, s[n..]) {
      GroupStarRolls(g, atoms, s);
    }
  }

  lemma GroupStarUnrolls(g: string, atoms: seq<Atom>, s: string)
    requires g != "" && atoms != [] && atoms[0] == GroupStar(g) && MatchesPrefix(atoms, s)
    ensures MatchesPrefix(atoms[1..], s) || (|g| <= |s| && Spells(g, s[..|g|]) && MatchesPrefix(atoms, s[|g|..]))
  {
    var n := |g|;
    PrefixSplits(atoms, s);
    var i :| Splits(atoms, s, i);
    hide MatchesPrefix, Repeats, Spells;
    RepeatsSplits(g, s[..i]);
    if i > 0 {
      var t := s[n..];
      PrefixSplits(atoms, t);
      assert s[..i][..n] == s[..n];
      assert s[..i][n..] == t[..i - n];
      assert t[i - n..] == s[i..];
      assert Splits(atoms, t, i - n);
    } else {
      assert s[0..] == s;
    }
  }

  lemma GroupStarRolls(g: string, atoms: seq<Atom>, s: string)
    requires g != "" && atoms != [] && atoms[0] == GroupStar(g)
    requires |g| <= |s| && Spells(g, s[..|g|]) && MatchesPrefix(atoms, s[|g|..])
    ensures MatchesPrefix(atoms, s)
  {
    var n := |g|;
    PrefixSplits(atoms, s);
    PrefixSplits(atoms, s[n..]);
    var i :| Splits(atoms, s[n..], i);
    hide MatchesPrefix, Repeats;
    var w := s[..i + n];
    assert w[..n] == s[..n] && w[n..] == s[n..][..i] && s[n..][i..] == s[i + n..];
    RepeatsSplits(g, w);
    assert Splits(atoms, s, i + n);
  }

  // The matcher.

  /** How many characters of `s` the group body at the front of it takes, or -1. */
  method MatchGroupOnce(s: string, body: string) returns (count: int)
    ensures count == if |body| <= |s| && Spells(body, s[..|body|]) then |body| else -1
  {
    count := 0;
    while count < |body|
      invariant 0 <= count <= |body| && count <= |s|
      invariant forall k :: 0 <= k < count ==> Admits(body[k], s[k])
    {
      if count == |s| {
        return -1;
      }
      if s[count] != body[count] && body[count] != '?' {
        return -1;
      }
      count := count + 1;
    }
  }

  predicate Skippable(a: Atom) {
    a.Star? || a.GroupStar?
  }

  lemma {:induction false} EmptyMatchesIff(atoms: seq<Atom>)
    requires AllWellFormed(atoms)
    ensures MatchesPrefix(atoms, "") <==> forall k {:trigger atoms[k]} :: 0 <= k < |atoms| ==> Skippable(atoms[k])
    decreases |atoms|
  {
    if atoms == [] {
      EmptyMatches("");
    } else {
      var a, rest := atoms[0], atoms[1..];
      assert WellFormed(a);
      assert [a] + rest == atoms;
      EmptyMatchesIff(rest);
      hide MatchesPrefix;
      match a
      case Lit(c) => LitMatches(c, rest, "");
      case Star(c) => StarMatches(c, rest, "");
      case Group(g) => GroupMatches(g, rest, "");
      case GroupStar(g) => GroupStarMatches(g, rest, "");
    }
  }

  /** `p` is atom `a` printed, then `tail`, as the matcher sees it. */
  ghost predicate Front(p: string, a: Atom, tail: string) {
    match a
    case Lit(c) => p != "" && p[0] == c && Plain(c) && p[1..] == tail && (1 < |p| ==> p[1] != '*')
    case Star(c) => 1 < |p| && p[0] == c && Plain(c) && p[1] == '*' && p[2..] == tail
    case Group(g) =>
      && g != "" && |g| + 2 <= |p| && p[0] == '(' && FindClose(p) == |g| + 1 && p[1..|g| + 1] == g
      && p[|g| + 2..] == tail && (|g| + 2 < |p| ==> p[|g| + 2] != '*')
    case GroupStar(g) =>
      && g != "" && |g| + 3 <= |p| && p[0] == '(' && FindClose(p) == |g| + 1 && p[1..|g| + 1] == g
      && p[|g| + 2] == '*' && p[|g| + 3..] == tail
  }

  lemma PrintedFront(atoms: seq<Atom>)
    requires AllWellFormed(atoms) && atoms != []
    ensures Front(PrintAll(atoms), atoms[0], PrintAll(atoms[1..]))
    ensures AllWellFormed(atoms[1..]) && [atoms[0]] + atoms[1..] == atoms
  {
    FrontAtom(atoms);
    hide Front, AllWellFormed, PrintAll;
    AtomFront(atoms[0], PrintAll(atoms[1..]));
  }

  lemma AtomFront(a: Atom, tail: string)
    requires WellFormed(a) && (tail != "" ==> tail[0] != '*')
    ensures Front(Print(a) + tail, a, tail)
  {
    match a
    case Lit(c) =>
      assert ([c] + tail)[1..] == tail;
    case Star(c) =>
      assert ([c, '*'] + tail)[2..] == tail;
    case Group(g) =>
      PlainGroupFront(g, tail);
    case GroupStar(g) =>
      StarGroupFront(g, tail);
  }

  lemma PlainGroupFront(g: string, tail: string)
    requires g != "" && Balanced(g) && (tail != "" ==> tail[0] != '*')
    ensures Front(Print(Group(g)) + tail, Group(g), tail)
  {
    var p := "(" + g + ")" + tail;
    assert Print(Group(g)) + tail == p;
    GroupCloses(g, ")", tail);
    GroupSlices(p, g, ")", tail);
    hide FindClose, Balanced;
  }

  lemma StarGroupFront(g: string, tail: string)
    requires g != "" && Balanced(g) && (tail != "" ==> tail[0] != '*')
    ensures Front(Print(GroupStar(g)) + tail, GroupStar(g), tail)
  {
    var p := "(" + g + ")*" + tail;
    assert Print(GroupStar(g)) + tail == p;
    GroupCloses(g, ")*", tail);
    GroupSlices(p, g, ")*", tail);
    hide FindClose, Balanced;
  }

  /** With the string used up, what is left of the pattern must be repeatable away. */
  method SkipStars(p0: string, ghost atoms0: seq<Atom>) returns (r: bool)
    requires AllWellFormed(atoms0) && p0 == PrintAll(atoms0)
    ensures r <==> MatchesPrefix(atoms0, "")
  {
    EmptyMatchesIff(atoms0);
    hide MatchesPrefix, WellFormed, FindClose;
    var p := p0;
    ghost var atoms := atoms0;
    while p != ""
      invariant AllWellFormed(atoms) && p == PrintAll(atoms)
      invariant (forall k {:trigger atoms0[k]} :: 0 <= k < |atoms0| ==> Skippable(atoms0[k])) <==>
                (forall k {:trigger atoms[k]} :: 0 <= k < |atoms| ==> Skippable(atoms[k]))
      decreases |p|
    {
      PrintedFront(atoms);
      SkippableRest(atoms);
      if p[0] == '(' {
        var close := ScanForClose(p);
        if close >= 0 && close + 1 < |p| && p[close + 1] == '*' {
          p := p[close + 2..];
        } else {
          return false;
        }
      } else if 1 < |p| && p[1] == '*' {
        p := p[2..];
      } else {
        return false;
      }
      atoms := atoms[1..];
    }
    PrintStartsPlain(atoms);
    r := true;
  }

  lemma SkippableRest(atoms: seq<Atom>)
    requires atoms != []
    ensures (forall k {:trigger atoms[k]} :: 0 <= k < |atoms| ==> Skippable(atoms[k])) <==>
            Skippable(atoms[0]) && forall k {:trigger atoms[1..][k]} :: 0 <= k < |atoms[1..]| ==> Skippable(atoms[1..][k])
  {
    if Skippable(atoms[0]) && forall k {:trigger atoms[1..][k]} :: 0 <= k < |atoms[1..]| ==> Skippable(atoms[1..][k]) {
      forall k | 0 <= k < |atoms|
        ensures Skippable(atoms[k])
      {
        if k > 0 { assert atoms[k] == atoms[1..][k - 1]; }
      }
    }
  }

  /** `(g)*` and the rest of the pattern against `s`: try the rest after 0, 1, 2, ... spellings of `g`. */
  method TryGroupStar(s: string, g: string, p: string, ghost rest: seq<Atom>) returns (r: bool)
    requires g != "" && AllWellFormed(rest) && p == PrintAll(rest)
    ensures r <==> MatchesPrefix([GroupStar(g)] + rest, s)
    decreases |p|, 1
  {
    hide MatchesPrefix, WellFormed;
    var ts := s;
    while true
      invariant MatchesPrefix([GroupStar(g)] + rest, s) <==> MatchesPrefix([GroupStar(g)] + rest, ts)
      decreases |ts|
    {
      GroupStarMatches(g, rest, ts);
      var done := Submatch(ts, p, rest);
      if done {
        return true;
      }
      var advance := MatchGroupOnce(ts, g);
      if advance < 0 {
        return false;
      }
      ts := ts[advance..];
    }
  }

  /** `c*` and the rest of the pattern against `s0`: try the rest after 0, 1, 2, ... copies of `c`. */
  method TryStar(s0: string, c: char, p: string, ghost rest: seq<Atom>) returns (r: bool)
    requires AllWellFormed(rest) && p == PrintAll(rest)
    ensures r <==> MatchesPrefix([Star(c)] + rest, s0)
    decreases |p|, 1
  {
    hide MatchesPrefix, WellFormed;
    var s := s0;
    StarMatches(c, rest, s);
    r := Submatch(s, p, rest);
    if r {
      return;
    }
    while s != "" && s[0] == c
      invariant MatchesPrefix([Star(c)] + rest, s0) <==> MatchesPrefix([Star(c)] + rest, s)
      invariant !MatchesPrefix(rest, s)
      decreases |s|
    {
      StarMatches(c, rest, s);
      s := s[1..];
      StarMatches(c, rest, s);
      r := Submatch(s, p, rest);
      if r {
        return;
      }
    }
    StarMatches(c, rest, s);
    r := false;
  }

  /** How many characters of group body `g` the front of `s` spells, stopping at the first mismatch. */
  method SpelledLength(s: string, g: string) returns (k: int)
    ensures 0 <= k <= |g| && k <= |s|
    ensures k == |g| <==> |g| <= |s| && Spells(g, s[..|g|])
  {
    k := 0;
    while k < |g| && k < |s| && (g[k] == '?' || s[k] == g[k])
      invariant 0 <= k <= |g| && k <= |s|
      invariant forall j :: 0 <= j < k ==> Admits(g[j], s[j])
    {
      k := k + 1;
    }
    if k < |g| && |g| <= |s| {
      assert !Admits(g[k], s[k]) && s[..|g|][k] == s[k];
    }
  }

  /** Whether some prefix of `s0` is in the language of the pattern `p0`. */
  method Submatch(s0: string, p0: string, ghost atoms0: seq<Atom>) returns (r: bool)
    requires AllWellFormed(atoms0) && p0 == PrintAll(atoms0)
    ensures r <==> MatchesPrefix(atoms0, s0)
    decreases |p0|, 0
  {
    hide MatchesPrefix, WellFormed, AllWellFormed, PrintAll, FindClose, Spells;
    var s, p := s0, p0;
    ghost var atoms := atoms0;
    while p != ""
      invariant |p| <= |p0| && AllWellFormed(atoms) && p == PrintAll(atoms)
      invariant MatchesPrefix(atoms0, s0) <==> MatchesPrefix(atoms, s)
      decreases |p|
    {
      PrintStartsPlain(atoms);
      PrintedFront(atoms);
      ghost var rest := atoms[1..];
      if s == "" {
        r := SkipStars(p, atoms);
        return;
      } else if p[0] == '(' {
        var closed := ScanForClose(p);
        if closed < 0 {
          return false;
        }
        var body := p[1..closed];
        if closed + 1 < |p| && p[closed + 1] == '*' {
          r := TryGroupStar(s, body, p[closed + 2..], rest);
          return;
        }
        GroupMatches(body, rest, s);
        var k := SpelledLength(s, body);
        if k != |body| {
          return false;
        }
        s := s[k..];
        p := p[closed + 1..];
      } else if 1 < |p| && p[1] == '*' {
        r := TryStar(s, p[0], p[2..], rest);
        return;
      } else if p[0] != '?' && s[0] != p[0] {
        LitMatches(p[0], rest, s);
        return false;
      } else {
        LitMatches(p[0], rest, s);
        s := s[1..];
        p := p[1..];
      }
      atoms := rest;
    }
    PrintStartsPlain(atoms);
    EmptyMatches(s);
    r := true;
  }

  /** Whether some substring of `str` is in the language of `pattern`, by trying every start. */
  method Match(str: string, pattern: string, ghost atoms: seq<Atom>) returns (r: bool)
    requires AllWellFormed(atoms) && pattern == PrintAll(atoms)
    ensures r <==> MatchesSomewhere(atoms, str)
  {
    hide MatchesPrefix, MatchesSomewhere;
    SubstringIffPrefix(atoms, str);
    var i := 0;
    while true
      invariant 0 <= i <= |str|
      invariant forall k :: 0 <= k < i ==> !MatchesPrefix(atoms, str[k..])
      decreases |str| - i
    {
      r := Submatch(str[i..], pattern, atoms);
      if r {
        return;
      }
      if i == |str| {
        return false;
      }
      i := i + 1;
    }
  }

  /** A substring matches when a prefix of some suffix does. */
  lemma SubstringIffPrefix(atoms: seq<Atom>, s: string)
    ensures MatchesSomewhere(atoms, s) <==> exists k :: 0 <= k <= |s| && MatchesPrefix(atoms, s[k..])
  {
    if MatchesSomewhere(atoms, s) {
      var i, j :| 0 <= i <= j <= |s| && Language(atoms, s[i..j]);
      assert s[i..][..j - i] == s[i..j];
      assert MatchesPrefix(atoms, s[i..]);
    }
    if exists k :: 0 <= k <= |s| && MatchesPrefix(atoms, s[k..]) {
      var k :| 0 <= k <= |s| && MatchesPrefix(atoms, s[k..]);
      var j :| 0 <= j <= |s[k..]| && Language(atoms, s[k..][..j]);
      assert s[k..][..j] == s[k..k + j];
    }
  }
}
