/** The string hash of the hash table, in 32-bit unsigned arithmetic. */
module HashFunction {

  /** A character of a C string: a signed byte other than the terminator. */
  type CChar = c: int | -128 <= c < 128 && c != 0 witness 1

  type CString = seq<CChar>

  const WORD := 0x1_0000_0000

  /** One round: shift left by five bits and add the sign-extended character, modulo 2^32. */
  function Round(h: int, c: CChar): (r: int)
    ensures 0 <= r < WORD
  {
    (h * 32 + c) % WORD
  }

  function Rounds(h: int, s: CString): int {
    if s == [] then h else Round(Rounds(h, s[..|s| - 1]), s[|s| - 1])
  }

  function BucketOf(key: CString, size: int): (i: int)
    requires 0 < size
    ensures 0 <= i < size
  {
    Rounds(0, key) % size
  }

  method Hash(key: CString, size: int) returns (i: int)
    requires 0 < size
    ensures i == BucketOf(key, size)
    ensures i == WeightedSum(key) % 0x1_0000_0000 % size
  {
    var hash := 0;
    var k := 0;
    while k < |key|
      invariant 0 <= k <= |key|
      invariant hash == Rounds(0, key[..k])
    {
      assert key[..k + 1][..k] == key[..k];
      hash := (hash * 32 + key[k]) % WORD;
      k := k + 1;
    }
    assert key[..k] == key;
    RoundsWeigh(key);
    i := hash % size;
  }

  // The value without rounds: each character has a weight, 32 to the number of characters after it.

  function Power32(n: nat): (p: int)
    ensures 0 < p
  {
    if n == 0 then 1 else 32 * Power32(n - 1)
  }

  /** The sum of `key[k]` times 32 to the power `|key| - 1 - k`. */
  function WeightedSum(key: CString): int {
    if key == [] then 0 else key[0] * Power32(|key| - 1) + WeightedSum(key[1..])
  }

  lemma {:induction false} WeightedSumLast(s: CString, c: CChar)
    ensures WeightedSum(s + [c]) == 32 * WeightedSum(s) + c
  {
    if s != [] {
      WeightedSumLast(s[1..], c);
      assert (s + [c])[1..] == s[1..] + [c];
      Shift(s[0], Power32(|s| - 1));
    } else {
      assert s + [c] == [c] && [c][1..] == [];
    }
  }

  lemma Shift(c: int, p: int)
    ensures c * (32 * p) == 32 * (c * p)
  {
  }

  lemma RoundOfRemainder(a: int, c: CChar)
    ensures Round(a % WORD, c) == (32 * a + c) % WORD
  {
    var x, y, q := a % WORD * 32 + c, 32 * a + c, 32 * (a / WORD);
    assert y - x == WORD * q;
    SameRemainder(y, x, WORD, q);
  }

  lemma SameRemainder(y: int, x: int, n: int, q: int)
    requires 0 < n && y - x == n * q
    ensures y % n == x % n
  {
    var d := y / n - x / n;
    assert y % n - x % n == n * (q - d) by {
      assert n * (q - d) == n * q - n * d;
      assert n * d == n * (y / n) - n * (x / n);
    }
    NoMultipleBetween(n, q - d);
    assert n * (d - q) == -(n * (q - d));
    NoMultipleBetween(n, d - q);
  }

  /** The 32-bit value is the weighted sum of the characters, modulo 2^32. */
  lemma {:induction false} RoundsWeigh(key: CString)
    ensures Rounds(0, key) == WeightedSum(key) % 0x1_0000_0000
  {
    if key != [] {
      var n := |key| - 1;
      RoundsWeigh(key[..n]);
      WeightedSumLast(key[..n], key[n]);
      assert key == key[..n] + [key[n]];
      RoundOfRemainder(WeightedSum(key[..n]), key[n]);
    }
  }

  /** Changing one character changes the sum by the difference times its weight. */
  lemma {:induction false} WeightedSumChanged(s: CString, k: nat, c: CChar)
    requires k < |s|
    ensures WeightedSum(s[k := c]) - WeightedSum(s) == (c - s[k]) * Power32(|s| - 1 - k)
  {
    var t := s[k := c];
    if k == 0 {
      assert t[1..] == s[1..];
      Distribute(c, s[0], Power32(|s| - 1));
    } else {
      WeightedSumChanged(s[1..], k - 1, c);
      assert t[1..] == s[1..][k - 1 := c];
    }
  }

  lemma Distribute(c: int, d: int, p: int)
    ensures c * p - d * p == (c - d) * p
  {
  }

  lemma Power32Is()
    ensures Power32(0) == 1 && Power32(1) == 0x20 && Power32(2) == 0x400 && Power32(3) == 0x8000
    ensures Power32(4) == 0x10_0000 && Power32(5) == 0x200_0000 && Power32(6) == 0x4000_0000
  {
    assert Power32(1) == 32 * Power32(0);
    assert Power32(2) == 32 * Power32(1);
    assert Power32(3) == 32 * Power32(2);
    assert Power32(4) == 32 * Power32(3);
    assert Power32(5) == 32 * Power32(4);
    assert Power32(6) == 32 * Power32(5);
  }

  /** From seven characters before the last on, weights are multiples of 2^32. */
  lemma {:induction false} FarWeight(e: nat)
    requires 7 <= e
    ensures Power32(e) % WORD == 0
  {
    if e == 7 {
      Power32Is();
      assert Power32(7) == 32 * Power32(6);
    } else {
      FarWeight(e - 1);
    }
  }

  /** When a character's change is lost, by how many characters `e` follow it. */
  lemma LostChange(d: int, e: nat)
    requires -255 <= d <= 255
    ensures (d * Power32(e)) % WORD == 0 <==>
            if e <= 4 then d == 0 else if e == 5 then d % 128 == 0 else if e == 6 then d % 4 == 0 else true
  {
    if 7 <= e {
      FarChange(d, e);
    } else {
      Power32Is();
      NearChange(d);
      hide Power32;
      assert e == 0 || e == 1 || e == 2 || e == 3 || e == 4 || e == 5 || e == 6;
    }
  }

  lemma NearChange(d: int)
    requires -255 <= d <= 255
    ensures d % WORD == 0 <==> d == 0
    ensures d * 0x20 % WORD == 0 <==> d == 0
    ensures d * 0x400 % WORD == 0 <==> d == 0
    ensures d * 0x8000 % WORD == 0 <==> d == 0
    ensures d * 0x10_0000 % WORD == 0 <==> d == 0
    ensures d * 0x200_0000 % WORD == 0 <==> d % 128 == 0
    ensures d * 0x4000_0000 % WORD == 0 <==> d % 4 == 0
  {
  }

  lemma FarChange(d: int, e: nat)
    requires 7 <= e
    ensures (d * Power32(e)) % WORD == 0
  {
    FarWeight(e);
    var q := Power32(e) / WORD;
    hide Power32;
    Shuffle(d, q);
    MultipleOf(WORD, q * d);
  }

  lemma Shuffle(d: int, q: int)
    ensures d * (WORD * q) == WORD * (q * d)
  {
  }

  /** Exactly when changing one character leaves the 32-bit value as it was: never for the last five
      characters, for the sixth from the end only by a change of 128, for the seventh by a multiple of 4,
      and always for the characters before them. */
  lemma SameValueIff(s: CString, k: nat, c: CChar)
    requires k < |s|
    ensures Rounds(0, s[k := c]) == Rounds(0, s) <==>
            var d, e := c - s[k], |s| - 1 - k;
            if e <= 4 then d == 0 else if e == 5 then d % 128 == 0 else if e == 6 then d % 4 == 0 else true
  {
    var t := s[k := c];
    RoundsWeigh(s);
    RoundsWeigh(t);
    WeightedSumChanged(s, k, c);
    LostChange(c - s[k], |s| - 1 - k);
    EqualRemainders(WeightedSum(t), WeightedSum(s));
  }

  lemma EqualRemainders(x: int, y: int)
    ensures x % WORD == y % WORD <==> (x - y) % WORD == 0
  {
  }

  /** Keys of plain characters: changing any one of the last six changes the value. */
  lemma LastSixCount(s: CString, k: nat, c: CChar)
    requires k < |s| <= k + 6 && 0 < c && 0 < s[k] && c != s[k]
    ensures Rounds(0, s[k := c]) != Rounds(0, s)
  {
    SameValueIff(s, k, c);
  }

  /** With bytes above 127 two keys can differ in the sixth character from the end alone and have one value. */
  lemma SixthFromTheEnd()
    ensures Rounds(0, [64, 97, 97, 97, 97, 97]) == Rounds(0, [-64, 97, 97, 97, 97, 97])
  {
    var s: CString := [64, 97, 97, 97, 97, 97];
    var t: CString := [-64, 97, 97, 97, 97, 97];
    hide Rounds;
    SameValueIff(s, 0, -64);
    assert s[0 := -64] == t;
  }

  lemma {:induction false} RoundsAppend(h: int, s: CString, t: CString)
    ensures Rounds(h, s + t) == Rounds(Rounds(h, s), t)
    decreases |t|
  {
    if t == [] {
      assert s + t == s;
    } else {
      var n := |t| - 1;
      RoundsAppend(h, s, t[..n]);
      assert (s + t)[..|s + t| - 1] == s + t[..n];
    }
  }

  lemma MultipleOf(n: int, q: int)
    requires 0 < n
    ensures (n * q) % n == 0
  {
    var d := q - (n * q) / n;
    assert (n * q) % n == n * d;
    NoMultipleBetween(n, d);
  }

  lemma NoMultipleBetween(n: int, d: int)
    requires 0 < n
    ensures !(0 < n * d < n)
  {
    if d <= 0 {
      assert n * d <= 0;
    } else {
      assert n * (d - 1) >= 0;
    }
  }

  /** A round multiplies the modulus of agreement by 32, up to 2^32. */
  lemma RoundAgrees(x: int, y: int, c: CChar, m: int, a: int, n: int, b: int)
    requires 0 < m && 0 < n && 32 * m == n * a && WORD == n * b && (x - y) % m == 0
    ensures (Round(x, c) - Round(y, c)) % n == 0
  {
    var k := (x - y) / m;
    var p, q := (x * 32 + c) / WORD, (y * 32 + c) / WORD;
    assert x - y == m * k;
    assert Round(x, c) == x * 32 + c - WORD * p;
    assert Round(y, c) == y * 32 + c - WORD * q;
    Factor(m, k, n, a, b, p - q);
    MultipleOf(n, a * k - b * (p - q));
  }

  lemma Factor(m: int, k: int, n: int, a: int, b: int, d: int)
    requires 32 * m == n * a
    ensures 32 * (m * k) - (n * b) * d == n * (a * k - b * d)
  {
    assert 32 * (m * k) == (32 * m) * k == n * (a * k) by {
      assert (32 * m) * k == (n * a) * k;
    }
    assert (n * b) * d == n * (b * d);
  }

  /** Seven rounds forget the starting value: seven shifts by five bits leave nothing of it. */
  lemma SevenRoundsForget(g: int, h: int, t: CString)
    requires |t| == 7
    ensures Rounds(g, t) == Rounds(h, t)
  {
    hide Rounds, Agree;
    RoundsInRange(g, t);
    RoundsInRange(h, t);
    assert t[..7] == t;
    AgreeAtFirst(Rounds(g, t[..0]), Rounds(h, t[..0]));
    OneMoreRoundAgrees(g, h, t, 0, 1, 1, 0x20, 0x800_0000);
    OneMoreRoundAgrees(g, h, t, 1, 0x20, 1, 0x400, 0x40_0000);
    OneMoreRoundAgrees(g, h, t, 2, 0x400, 1, 0x8000, 0x2_0000);
    OneMoreRoundAgrees(g, h, t, 3, 0x8000, 1, 0x10_0000, 0x1000);
    OneMoreRoundAgrees(g, h, t, 4, 0x10_0000, 1, 0x200_0000, 0x80);
    OneMoreRoundAgrees(g, h, t, 5, 0x200_0000, 1, 0x4000_0000, 4);
    OneMoreRoundAgrees(g, h, t, 6, 0x4000_0000, 8, WORD, 1);
    AgreeModuloWord(Rounds(g, t), Rounds(h, t));
  }

  ghost predicate Agree(x: int, y: int, m: int) {
    0 < m && (x - y) % m == 0
  }

  lemma AgreeAtFirst(x: int, y: int)
    ensures Agree(x, y, 1)
  {
  }

  lemma AgreeModuloWord(x: int, y: int)
    requires Agree(x, y, WORD) && 0 <= x < WORD && 0 <= y < WORD
    ensures x == y
  {
  }

  lemma RoundsInRange(h: int, s: CString)
    requires s != []
    ensures 0 <= Rounds(h, s) < WORD
  {
  }

  lemma OneMoreRoundAgrees(g: int, h: int, t: CString, k: nat, m: int, a: int, n: int, b: int)
    requires k < |t| && 0 < m && 0 < n && 32 * m == n * a && WORD == n * b
    requires Agree(Rounds(g, t[..k]), Rounds(h, t[..k]), m)
    ensures Agree(Rounds(g, t[..k + 1]), Rounds(h, t[..k + 1]), n)
  {
    assert t[..k + 1][..k] == t[..k];
    RoundAgrees(Rounds(g, t[..k]), Rounds(h, t[..k]), t[k], m, a, n, b);
  }

  /** Keys that end in the same seven characters always share a bucket. */
  lemma SameTailSameBucket(s: CString, t: CString, tail: CString, size: int)
    requires |tail| == 7 && 0 < size
    ensures BucketOf(s + tail, size) == BucketOf(t + tail, size)
  {
    RoundsAppend(0, s, tail);
    RoundsAppend(0, t, tail);
    SevenRoundsForget(Rounds(0, s), Rounds(0, t), tail);
  }
}
