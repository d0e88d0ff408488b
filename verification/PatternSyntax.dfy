/** File-name patterns: atoms, how they print, and which strings are patterns. */
module PatternSyntax {

  /** A pattern is a sequence of atoms. The body of a group is compared character by character, `?`
      standing for any character; the repeated character of `Star` stands only for itself, even `?`. */
  datatype Atom = Lit(c: char) | Star(c: char) | Group(body: string) | GroupStar(body: string)

  /** Opening minus closing brackets. */
  function Level(s: string): int {
    if s == "" then 0 else Step(s[0]) + Level(s[1..])
  }

  function Step(c: char): int {
    if c == '(' then 1 else if c == ')' then -1 else 0
  }

  /** Brackets balance: no prefix closes more than it opens, and the whole opens as much as it closes. */
  ghost predicate Balanced(s: string) {
    Level(s) == 0 && forall k {:trigger s[..k]} :: 0 <= k <= |s| ==> 0 <= Level(s[..k])
  }

  predicate Plain(c: char) {
    c != '*' && c != '(' && c != ')'
  }

  ghost predicate WellFormed(a: Atom) {
    match a
    case Lit(c) => Plain(c)
    case Star(c) => Plain(c)
    case Group(w) => w != "" && Balanced(w)
    case GroupStar(w) => w != "" && Balanced(w)
  }

  ghost predicate AllWellFormed(atoms: seq<Atom>) {
    forall k {:trigger atoms[k]} :: 0 <= k < |atoms| ==> WellFormed(atoms[k])
  }

  function Print(a: Atom): string {
    match a
    case Lit(c) => [c]
    case Star(c) => [c, '*']
    case Group(w) => "(" + w + ")"
    case GroupStar(w) => "(" + w + ")*"
  }

  function PrintAll(atoms: seq<Atom>): string {
    if atoms == [] then "" else Print(atoms[0]) + PrintAll(atoms[1..])
  }

  /** Index in `s` of the bracket that closes the `depth` ones open before it, or -1. */
  function CloseIn(s: string, depth: nat): (j: int)
    requires 0 < depth
    ensures -1 <= j < |s|
    ensures j >= 0 ==> s[j] == ')'
  {
    if s == "" then -1
    else if s[0] == ')' && depth == 1 then 0
    else
      var j := CloseIn(s[1..], depth + Step(s[0]));
      if j < 0 then -1 else j + 1
  }

  /** Index of the bracket matching the one at the front of `p`, or -1. */
  function FindClose(p: string): (j: int)
    requires p != ""
    ensures -1 <= j < |p| && j != 0
    ensures j >= 0 ==> p[j] == ')'
  {
    var j := CloseIn(p[1..], 1);
    if j < 0 then -1 else j + 1
  }

  /** The closing bracket found is where the level first falls back. */
  lemma {:induction false} CloseInIs(s: string, depth: nat, j: nat)
    requires 0 < depth && j < |s|
    ensures CloseIn(s, depth) == j <==>
      && s[j] == ')' && Level(s[..j]) == 1 - depth
      && forall k {:trigger s[..k]} :: 0 <= k <= j ==> 1 - depth <= Level(s[..k])
  {
    assert s[..0] == "";
    forall k: nat | 0 < k <= j
      ensures Level(s[..k]) == Step(s[0]) + Level(s[1..][..k - 1])
    {
      assert s[..k][1..] == s[1..][..k - 1];
    }
    if s[0] == ')' && depth == 1 {
      if j > 0 {
        assert s[..1] == [s[0]];
        assert Level(s[..1]) == -1 + Level(s[1..][..0]);
      }
    } else if j == 0 {
    } else {
      CloseInIs(s[1..], depth + Step(s[0]), j - 1);
      if forall k {:trigger s[..k]} :: 0 <= k <= j ==> 1 - depth <= Level(s[..k]) {
        forall k | 0 <= k <= j - 1
          ensures 1 - (depth + Step(s[0])) <= Level(s[1..][..k])
        {
          assert Level(s[..k + 1]) == Step(s[0]) + Level(s[1..][..k]);
        }
      }
      if forall k {:trigger s[1..][..k]} :: 0 <= k <= j - 1 ==> 1 - (depth + Step(s[0])) <= Level(s[1..][..k]) {
        forall k | 0 <= k <= j
          ensures 1 - depth <= Level(s[..k])
        {
          if k > 0 { assert Level(s[..k]) == Step(s[0]) + Level(s[1..][..k - 1]); }
        }
      }
    }
  }

  lemma BodyCloses(w: string, rest: string)
    requires Balanced(w)
    ensures CloseIn(w + ")" + rest, 1) == |w|
  {
    var s := w + ")" + rest;
    assert s[..|w|] == w;
    forall k | 0 <= k <= |w|
      ensures 0 <= Level(s[..k])
    {
      assert s[..k] == w[..k];
    }
    CloseInIs(s, 1, |w|);
  }

  lemma ClosedBodyBalances(s: string)
    requires 0 <= CloseIn(s, 1)
    ensures Balanced(s[..CloseIn(s, 1)])
  {
    var j := CloseIn(s, 1);
    CloseInIs(s, 1, j);
    forall k | 0 <= k <= j
      ensures 0 <= Level(s[..j][..k])
    {
      assert s[..j][..k] == s[..k];
    }
  }

  datatype Parsed = Malformed | Atoms(atoms: seq<Atom>)

  function Cons(a: Atom, rest: Parsed): Parsed {
    match rest
    case Malformed => Malformed
    case Atoms(l) => Atoms([a] + l)
  }

  /** The atoms of a pattern, read from the front. */
  function Parse(p: string): Parsed
    decreases |p|
  {
    if p == "" then Atoms([])
    else if p[0] == '*' || p[0] == ')' then Malformed
    else if p[0] == '(' then
      var j := FindClose(p);
      if j < 0 || j == 1 then Malformed
      else if j + 1 < |p| && p[j + 1] == '*' then Cons(GroupStar(p[1..j]), Parse(p[j + 2..]))
      else Cons(Group(p[1..j]), Parse(p[j + 1..]))
    else if 1 < |p| && p[1] == '*' then Cons(Star(p[0]), Parse(p[2..]))
    else Cons(Lit(p[0]), Parse(p[1..]))
  }

  /** Printing starts with an atom's first character, which is never a star. */
  lemma PrintStartsPlain(atoms: seq<Atom>)
    requires AllWellFormed(atoms)
    ensures PrintAll(atoms) != "" ==> PrintAll(atoms)[0] != '*' && PrintAll(atoms)[0] != ')'
    ensures PrintAll(atoms) == "" <==> atoms == []
  {
    if atoms != [] {
      assert WellFormed(atoms[0]);
    }
  }

  /** Reading one printed atom and what follows it. */
  lemma ParsePrintOne(a: Atom, tail: string)
    requires WellFormed(a) && (tail == "" || tail[0] != '*')
    ensures Parse(Print(a) + tail) == Cons(a, Parse(tail))
  {
    match a
    case Lit(c) =>
      assert ([c] + tail)[1..] == tail;
    case Star(c) =>
      assert ([c, '*'] + tail)[2..] == tail;
    case Group(w) =>
      ParseGroup(w, ")", tail);
    case GroupStar(w) =>
      ParseGroup(w, ")*", tail);
  }

  lemma ParseGroup(w: string, end: string, tail: string)
    requires w != "" && Balanced(w) && (end == ")" || end == ")*") && (tail == "" || tail[0] != '*')
    ensures Parse("(" + w + end + tail) == Cons(if end == ")" then Group(w) else GroupStar(w), Parse(tail))
  {
    var p := "(" + w + end + tail;
    var n := |w| + 1;
    GroupCloses(w, end, tail);
    GroupSlices(p, w, end, tail);
    hide FindClose, Balanced;
    ParseBracket(p, n);
  }

  lemma GroupCloses(w: string, end: string, tail: string)
    requires w != "" && Balanced(w) && (end == ")" || end == ")*")
    ensures FindClose("(" + w + end + tail) == |w| + 1
  {
    BodyCloses(w, end[1..] + tail);
    assert ("(" + w + end + tail)[1..] == w + ")" + (end[1..] + tail);
  }

  lemma GroupSlices(p: string, w: string, end: string, tail: string)
    requires (end == ")" || end == ")*") && (tail == "" || tail[0] != '*') && p == "(" + w + end + tail
    ensures |p| == |w| + 1 + |end| + |tail| && p[0] == '(' && p[1..|w| + 1] == w
    ensures end == ")" ==> p[|w| + 2..] == tail && (|w| + 2 < |p| ==> p[|w| + 2] != '*')
    ensures end == ")*" ==> p[|w| + 2] == '*' && p[|w| + 3..] == tail
  {
    assert p[|w| + 1 + |end|..] == tail;
    assert p[|w| + 1..|w| + 1 + |end|] == end;
    if |w| + 2 < |p| && end == ")" { assert p[|w| + 2] == tail[0]; }
    if end == ")*" { assert p[|w| + 2] == end[1]; }
  }

  lemma ParseBracket(p: string, j: int)
    requires p != "" && p[0] == '(' && j == FindClose(p) && 1 < j
    ensures Parse(p) == if j + 1 < |p| && p[j + 1] == '*' then Cons(GroupStar(p[1..j]), Parse(p[j + 2..]))
                        else Cons(Group(p[1..j]), Parse(p[j + 1..]))
  {
  }

  lemma FrontAtom(atoms: seq<Atom>)
    requires AllWellFormed(atoms) && atoms != []
    ensures WellFormed(atoms[0]) && AllWellFormed(atoms[1..]) && [atoms[0]] + atoms[1..] == atoms
    ensures PrintAll(atoms) == Print(atoms[0]) + PrintAll(atoms[1..])
    ensures PrintAll(atoms[1..]) != "" ==> PrintAll(atoms[1..])[0] != '*'
  {
    PrintStartsPlain(atoms[1..]);
  }

  /** Reading what well-formed atoms print gives those atoms back. */
  lemma {:induction false} ParsePrint(atoms: seq<Atom>)
    requires AllWellFormed(atoms)
    ensures Parse(PrintAll(atoms)) == Atoms(atoms)
    decreases |atoms|
  {
    if atoms != [] {
      FrontAtom(atoms);
      hide *;
      ParsePrint(atoms[1..]);
      ParsePrintOne(atoms[0], PrintAll(atoms[1..]));
      ConsIs(atoms[0], atoms[1..]);
    }
  }

  lemma ConsIs(a: Atom, rest: seq<Atom>)
    ensures Cons(a, Atoms(rest)) == Atoms([a] + rest)
  {
  }

  /** The first atom read from a pattern, and how many characters it takes. */
  lemma ParseOne(p: string) returns (a: Atom, n: nat)
    requires p != "" && Parse(p).Atoms?
    ensures 0 < n <= |p| && WellFormed(a) && Print(a) + p[n..] == p
    ensures Parse(p) == Cons(a, Parse(p[n..]))
  {
    if p[0] == '(' {
      a, n := ParseOneGroup(p);
    } else if 1 < |p| && p[1] == '*' {
      a, n := Star(p[0]), 2;
      assert p == [p[0], '*'] + p[2..];
    } else {
      a, n := Lit(p[0]), 1;
      assert p == [p[0]] + p[1..];
    }
  }

  lemma ParseOneGroup(p: string) returns (a: Atom, n: nat)
    requires p != "" && p[0] == '(' && Parse(p).Atoms?
    ensures 0 < n <= |p| && WellFormed(a) && Print(a) + p[n..] == p
    ensures Parse(p) == Cons(a, Parse(p[n..]))
  {
    var j := FindClose(p);
    ParseBracket(p, j);
    assert Balanced(p[1..j]) by {
      ClosedBodyBalances(p[1..]);
      assert p[1..][..j - 1] == p[1..j];
    }
    hide Parse, FindClose, Balanced;
    assert p[..1] == "(";
    if j + 1 < |p| && p[j + 1] == '*' {
      a, n := GroupStar(p[1..j]), j + 2;
      assert p[j..j + 2] == ")*";
      BracketParts(p, j, j + 2);
    } else {
      a, n := Group(p[1..j]), j + 1;
      assert p[j..j + 1] == ")";
      BracketParts(p, j, j + 1);
    }
  }

  lemma BracketParts(p: string, j: nat, k: nat)
    requires 1 <= j <= k <= |p|
    ensures p == p[..1] + p[1..j] + p[j..k] + p[k..]
  {
  }

  /** Printing what was read gives the pattern back. */
  lemma {:induction false} PrintParse(p: string)
    requires Parse(p).Atoms?
    ensures AllWellFormed(Parse(p).atoms) && PrintAll(Parse(p).atoms) == p
    decreases |p|
  {
    if p != "" {
      var a, n := ParseOne(p);
      hide Parse;
      PrintParse(p[n..]);
      assert ([a] + Parse(p[n..]).atoms)[1..] == Parse(p[n..]).atoms;
    }
  }

  /** The strings that print from a non-empty sequence of atoms. */
  ghost predicate IsPattern(p: string) {
    exists atoms :: atoms != [] && AllWellFormed(atoms) && PrintAll(atoms) == p
  }

  lemma PatternsParse(p: string)
    ensures IsPattern(p) <==> p != "" && Parse(p).Atoms?
  {
    if IsPattern(p) {
      var atoms :| atoms != [] && AllWellFormed(atoms) && PrintAll(atoms) == p;
      ParsePrint(atoms);
      PrintStartsPlain(atoms);
    }
    if p != "" && Parse(p).Atoms? {
      PrintParse(p);
    }
  }

  /** Index of the matching bracket, or -1, by one scan with a depth counter. */
  method ScanForClose(p: string) returns (j: int)
    requires p != ""
    ensures j == FindClose(p)
  {
    var depth: int := 1;
    var i := 1;
    while i < |p|
      invariant 1 <= i <= |p| && 0 < depth
      invariant FindClose(p) == (var c := CloseIn(p[i..], depth); if c < 0 then -1 else c + i)
    {
      assert p[i..][1..] == p[i + 1..];
      if p[i] == '(' {
        depth := depth + 1;
      } else if p[i] == ')' {
        depth := depth - 1;
        if depth == 0 {
          return i;
        }
      }
      i := i + 1;
    }
    j := -1;
  }

  /** What may follow a character that a star can repeat. */
  function ParseAfter(p: string): Parsed {
    if p != "" && p[0] == '*' then Parse(p[1..]) else Parse(p)
  }

  lemma ParseSteps(p: string)
    requires p != ""
    ensures p[0] == '*' || p[0] == ')' ==> Parse(p).Malformed?
    ensures Plain(p[0]) ==> (Parse(p).Atoms? <==> ParseAfter(p[1..]).Atoms?)
    ensures p[0] == '(' ==>
      var j := FindClose(p);
      if j < 0 || j == 1 then Parse(p).Malformed? else Parse(p).Atoms? <==> ParseAfter(p[j + 1..]).Atoms?
  {
    if Plain(p[0]) && 1 < |p| {
      assert p[1..][1..] == p[2..];
    }
    if p[0] == '(' {
      var j := FindClose(p);
      if j > 1 && j + 1 < |p| {
        assert p[j + 1..][1..] == p[j + 2..];
      }
    }
  }

  /** What the check still has to accept at `i`: a star only if it has something to repeat. */
  function Remaining(p: string, i: nat): Parsed
    requires i <= |p|
  {
    if i == 0 || p[i - 1] == '*' then Parse(p[i..]) else ParseAfter(p[i..])
  }

  lemma RemainingSteps(p: string, i: nat)
    requires i < |p|
    ensures p[i] == '*' ==> if i == 0 || p[i - 1] == '*' then Remaining(p, i).Malformed? else Remaining(p, i) == Remaining(p, i + 1)
    ensures p[i] == ')' ==> Remaining(p, i).Malformed?
    ensures Plain(p[i]) ==> (Remaining(p, i).Atoms? <==> Remaining(p, i + 1).Atoms?)
    ensures p[i] == '(' ==>
      var j := FindClose(p[i..]);
      if j < 0 || j == 1 then Remaining(p, i).Malformed? else Remaining(p, i).Atoms? <==> Remaining(p, i + j + 1).Atoms?
  {
    var q := p[i..];
    ParseSteps(q);
    hide Parse, FindClose;
    assert q[1..] == p[i + 1..];
    if p[i] == '(' {
      var j := FindClose(q);
      if j > 1 { assert q[j + 1..] == p[i + j + 1..] && q[j] == p[i + j]; }
    }
  }

  lemma RemainingEnds(p: string)
    ensures Remaining(p, 0) == Parse(p) && Remaining(p, |p|).Atoms?
  {
    assert p[0..] == p && p[|p|..] == "";
  }

  /** The program's check accepts exactly the patterns. */
  method ValidatePattern(p: string) returns (ok: bool)
    ensures ok <==> IsPattern(p)
  {
    PatternsParse(p);
    RemainingEnds(p);
    hide Parse, FindClose, IsPattern, Remaining;
    if p == "" {
      return false;
    }
    var i := 0;
    while i < |p|
      invariant 0 <= i <= |p|
      invariant i > 0 ==> p[i - 1] != '('
      invariant Parse(p).Atoms? <==> Remaining(p, i).Atoms?
    {
      RemainingSteps(p, i);
      if p[i] == '*' {
        if i == 0 || p[i - 1] == '*' || p[i - 1] == '(' {
          return false;
        }
      } else if p[i] == '(' {
        var close := ScanForClose(p[i..]);
        if close < 0 {
          return false;
        }
        if close == 1 {
          return false;
        }
        i := i + close;
      } else if p[i] == ')' {
        return false;
      }
      i := i + 1;
    }
    ok := true;
  }
}
