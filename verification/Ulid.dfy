/**
 ULIDs: 128 bits written as 26 Crockford base-32 characters, most significant first.
 A byte mask followed by a shift is written as the div/mod it computes.
 */
module Ulid {
  import opened Basics
  import opened Text

  const ALPHABET := "0123456789ABCDEFGHJKMNPQRSTVWXYZ"

  function IndexOf(s: string, c: char): (i: int)
    ensures -1 <= i < |s|
    ensures i >= 0 ==> s[i] == c
    ensures i < 0 <==> c !in s
  {
    if s == [] then -1
    else if s[0] == c then 0
    else
      var j := IndexOf(s[1..], c);
      if j < 0 then -1 else j + 1
  }

  predicate IsULID(s: string) {
    |s| == 26 && forall i | 0 <= i < |s| :: IndexOf(ALPHABET, s[i]) >= 0
  }

  /** A ULID is 26 decimal digits and capital letters, without I, L, O and U. */
  lemma IsULIDIff(s: string)
    ensures IsULID(s) <==> |s| == 26 && forall i :: 0 <= i < |s| ==> InAlphabet(s[i])
  {
    forall i | 0 <= i < |s|
      ensures s[i] in ALPHABET <==> InAlphabet(s[i])
    {
      AlphabetIff(s[i]);
    }
  }

  predicate InAlphabet(c: char) {
    '0' <= c <= '9' || ('A' <= c <= 'Z' && c != 'I' && c != 'L' && c != 'O' && c != 'U')
  }

  lemma LetterInAlphabet(i: nat)
    requires i < 32
    ensures InAlphabet(ALPHABET[i])
  {
    assert i < 10 || i < 18 || i < 20 || i < 22 || i < 27 || i < 32;
  }

  lemma AlphabetIff(c: char)
    ensures c in ALPHABET <==> InAlphabet(c)
  {
    if InAlphabet(c) {
      var n := c as int;
      var i := if n < 58 then n - 48 else if n < 73 then n - 55 else if n < 76 then n - 56
               else if n < 79 then n - 57 else if n < 85 then n - 58 else n - 59;
      assert ALPHABET[i] == c;
    }
    if c in ALPHABET {
      var i :| 0 <= i < |ALPHABET| && ALPHABET[i] == c;
      LetterInAlphabet(i);
    }
  }

  /** Eight 5-bit digits from five bytes: the pattern the encoder repeats three times. */
  function Group(b: seq<Byte>): (d: seq<int>)
    requires |b| == 5
    ensures |d| == 8 && forall i | 0 <= i < 8 :: 0 <= d[i] < 32
  {
    [ b[0] / 8,
      (b[0] % 8) * 4 + b[1] / 64,
      (b[1] / 2) % 32,
      (b[1] % 2) * 16 + b[2] / 16,
      (b[2] % 16) * 2 + b[3] / 128,
      (b[3] / 4) % 32,
      (b[3] % 4) * 8 + b[4] / 32,
      b[4] % 32 ]
  }

  function Digits(b: seq<Byte>): (d: seq<int>)
    requires |b| == 16
    ensures |d| == 26 && forall i | 0 <= i < 26 :: 0 <= d[i] < 32
  {
    [b[0] / 32, b[0] % 32] + Group(b[1..6]) + Group(b[6..11]) + Group(b[11..])
  }

  function Render(d: seq<int>): (s: string)
    requires forall i | 0 <= i < |d| :: 0 <= d[i] < 32
    ensures |s| == |d| && forall i | 0 <= i < |d| :: s[i] == ALPHABET[d[i]]
  {
    if d == [] then "" else [ALPHABET[d[0]]] + Render(d[1..])
  }

  function EncodeULID(b: seq<Byte>): string
    requires |b| == 16
  {
    Render(Digits(b))
  }

  datatype TimeResult = NotUlid | Millis(ms: int)

  /** The value of a digit string, and of a byte string, most significant first. */
  function Val(d: seq<int>, base: nat): int {
    if d == [] then 0 else Val(d[..|d| - 1], base) * base + d[|d| - 1]
  }

  lemma ValNext(d: seq<int>, i: nat, base: nat)
    requires i < |d|
    ensures Val(d[..i + 1], base) == Val(d[..i], base) * base + d[i]
  {
    assert d[..i + 1][..i] == d[..i];
  }

  method ULIDTime(s: string) returns (r: TimeResult)
    ensures r.Millis? <==> IsULID(s)
    ensures r.Millis? ==> r.ms == Val(DigitsOf(s)[..10], 32)
  {
    if !IsULID(s) {
      return NotUlid;
    }
    var ms := 0;
    ghost var ds := DigitsOf(s);
    for i := 0 to 10
      invariant ms == Val(ds[..i], 32)
    {
      ValNext(ds, i, 32);
      ms := ms * 32 + IndexOf(ALPHABET, s[i]);
    }
    r := Millis(ms);
  }

  function DigitsOf(s: string): (d: seq<int>)
    ensures |d| == |s| && forall i | 0 <= i < |s| :: d[i] == IndexOf(ALPHABET, s[i])
  {
    seq(|s|, i requires 0 <= i < |s| => IndexOf(ALPHABET, s[i]))
  }

  // ---- the alphabet is strictly increasing, so digits and characters order alike ----

  function Code(d: int): int {
    if d < 10 then 48 + d
    else if d < 18 then 55 + d
    else if d < 20 then 56 + d
    else if d < 22 then 57 + d
    else if d < 27 then 58 + d
    else 59 + d
  }

  lemma AlphabetCode(d: int)
    requires 0 <= d < 32
    ensures ALPHABET[d] as int == Code(d)
  {
  }

  lemma AlphabetIncreasing(x: int, y: int)
    requires 0 <= x < 32 && 0 <= y < 32
    ensures x < y <==> ALPHABET[x] < ALPHABET[y]
    ensures x == y <==> ALPHABET[x] == ALPHABET[y]
  {
    AlphabetCode(x);
    AlphabetCode(y);
  }

  lemma IndexOfAlphabet(d: int)
    requires 0 <= d < 32
    ensures IndexOf(ALPHABET, ALPHABET[d]) == d
  {
    var i := IndexOf(ALPHABET, ALPHABET[d]);
    assert ALPHABET[d] in ALPHABET;
    AlphabetIncreasing(i, d);
  }

  // ---- positional value ----

  function Pow(base: nat, n: nat): nat {
    if n == 0 then 1 else base * Pow(base, n - 1)
  }

  predicate InBase(d: seq<int>, base: nat) {
    forall i | 0 <= i < |d| :: 0 <= d[i] < base
  }

  lemma {:induction false} ValBound(d: seq<int>, base: nat)
    requires InBase(d, base)
    ensures 0 <= Val(d, base) < Pow(base, |d|)
  {
    if d != [] {
      var p := d[..|d| - 1];
      ValBound(p, base);
      DigitFits(Val(p, base), d[|p|], base, Pow(base, |p|));
    }
  }

  lemma DigitFits(v: int, x: int, base: nat, limit: nat)
    requires 0 <= v < limit && 0 <= x < base
    ensures 0 <= v * base + x < base * limit
  {
    assert v * base <= (limit - 1) * base;
  }

  lemma {:induction false} ValConcat(x: seq<int>, y: seq<int>, base: nat)
    ensures Val(x + y, base) == Val(x, base) * Pow(base, |y|) + Val(y, base)
  {
    if y == [] {
      assert x + y == x;
    } else {
      var p := y[..|y| - 1];
      ValConcat(x, p, base);
      assert (x + y)[..|x + y| - 1] == x + p && (x + y)[|x + y| - 1] == y[|p|];
      DigitShifts(Val(x, base), Pow(base, |p|), Val(p, base), y[|p|], base);
    }
  }

  lemma DigitShifts(v: int, q: int, w: int, x: int, base: int)
    ensures (v * q + w) * base + x == v * (base * q) + (w * base + x)
  {
    assert (v * q) * base == v * (base * q);
  }

  lemma ValCons(d: seq<int>, base: nat)
    requires d != []
    ensures Val(d, base) == d[0] * Pow(base, |d| - 1) + Val(d[1..], base)
  {
    assert d == [d[0]] + d[1..];
    ValConcat([d[0]], d[1..], base);
    assert [d[0]][..0] == [];
    assert Val([d[0]], base) == d[0];
  }

  /** Two digit strings of one length compare, once rendered, exactly as their values do. */
  lemma {:induction false} RenderOrder(x: seq<int>, y: seq<int>)
    requires |x| == |y| && InBase(x, 32) && InBase(y, 32)
    ensures StrLess(Render(x), Render(y)) <==> Val(x, 32) < Val(y, 32)
    ensures Render(x) == Render(y) <==> Val(x, 32) == Val(y, 32)
    ensures Val(x, 32) == Val(y, 32) ==> x == y
  {
    if x != [] {
      RenderOrder(x[1..], y[1..]);
      AlphabetIncreasing(x[0], y[0]);
      ValHead(x, y);
      RenderHead(x);
      RenderHead(y);
      assert x == [x[0]] + x[1..] && y == [y[0]] + y[1..];
    }
  }

  lemma RenderHead(x: seq<int>)
    requires x != [] && InBase(x, 32)
    ensures Render(x)[0] == ALPHABET[x[0]] && Render(x)[1..] == Render(x[1..])
    ensures Render(x) == [ALPHABET[x[0]]] + Render(x[1..])
  {
  }

  /** The leading digit decides a comparison of values, and the rest decides a tie. */
  lemma ValHead(x: seq<int>, y: seq<int>)
    requires |x| == |y| && x != [] && InBase(x, 32) && InBase(y, 32)
    ensures x[0] < y[0] ==> Val(x, 32) < Val(y, 32)
    ensures y[0] < x[0] ==> Val(y, 32) < Val(x, 32)
    ensures x[0] == y[0] ==> Val(x, 32) - Val(y, 32) == Val(x[1..], 32) - Val(y[1..], 32)
  {
    var p := Pow(32, |x| - 1);
    ValCons(x, 32);
    ValCons(y, 32);
    ValBound(x[1..], 32);
    ValBound(y[1..], 32);
    if x[0] < y[0] {
      LeadDecides(x[0], y[0], p, Val(x[1..], 32), Val(y[1..], 32));
    } else if y[0] < x[0] {
      LeadDecides(y[0], x[0], p, Val(y[1..], 32), Val(x[1..], 32));
    }
  }

  lemma LeadDecides(a: int, b: int, p: int, u: int, v: int)
    requires a < b && 0 <= u < p && 0 <= v
    ensures a * p + u < b * p + v
  {
    assert (a + 1) * p <= b * p;
  }

  lemma Val8(d: seq<int>, base: nat)
    requires |d| == 8
    ensures Val(d, base) == ((((((d[0] * base + d[1]) * base + d[2]) * base + d[3]) * base + d[4]) * base + d[5]) * base + d[6]) * base + d[7]
  {
    assert d[..7][..6] == d[..6] && d[..6][..5] == d[..5] && d[..5][..4] == d[..4];
    assert d[..4][..3] == d[..3] && d[..3][..2] == d[..2] && d[..2][..1] == d[..1] && d[..1][..0] == [];
    assert Val(d[..1], base) == d[0];
    assert Val(d[..2], base) == d[0] * base + d[1];
    assert Val(d[..3], base) == Val(d[..2], base) * base + d[2];
    assert Val(d[..4], base) == Val(d[..3], base) * base + d[3];
    assert Val(d[..5], base) == Val(d[..4], base) * base + d[4];
    assert Val(d[..6], base) == Val(d[..5], base) * base + d[5];
    assert Val(d[..7], base) == Val(d[..6], base) * base + d[6];
  }

  lemma Val5(d: seq<int>, base: nat)
    requires |d| == 5
    ensures Val(d, base) == (((d[0] * base + d[1]) * base + d[2]) * base + d[3]) * base + d[4]
  {
    assert d[..4][..3] == d[..3] && d[..3][..2] == d[..2] && d[..2][..1] == d[..1] && d[..1][..0] == [];
    assert Val(d[..1], base) == d[0];
    assert Val(d[..2], base) == d[0] * base + d[1];
    assert Val(d[..3], base) == Val(d[..2], base) * base + d[2];
    assert Val(d[..4], base) == Val(d[..3], base) * base + d[3];
  }

  lemma GroupArithmetic(b0: int, b1: int, b2: int, b3: int, b4: int)
    requires 0 <= b1 < 256 && 0 <= b3 < 256
    ensures (((((((b0 / 8) * 32 + ((b0 % 8) * 4 + b1 / 64)) * 32 + (b1 / 2) % 32) * 32 + ((b1 % 2) * 16 + b2 / 16)) * 32
                 + ((b2 % 16) * 2 + b3 / 128)) * 32 + (b3 / 4) % 32) * 32 + ((b3 % 4) * 8 + b4 / 32)) * 32 + b4 % 32
            == (((b0 * 256 + b1) * 256 + b2) * 256 + b3) * 256 + b4
  {
    assert b1 == (b1 / 64) * 64 + ((b1 / 2) % 32) * 2 + b1 % 2;
    assert b3 == (b3 / 128) * 128 + ((b3 / 4) % 32) * 4 + b3 % 4;
  }

  /** Five bytes and their eight digits denote the same 40-bit number. */
  lemma GroupValue(b: seq<Byte>)
    requires |b| == 5
    ensures Val(Group(b), 32) == Val(b, 256)
  {
    Val8(Group(b), 32);
    Val5(b, 256);
    GroupArithmetic(b[0], b[1], b[2], b[3], b[4]);
  }

  /** The 26 digits denote the 128-bit number the 16 bytes denote. */
  lemma DigitsValue(b: seq<Byte>)
    requires |b| == 16
    ensures Val(Digits(b), 32) == Val(b, 256)
    ensures Val(Digits(b)[..10], 32) == Val(b[..6], 256)
  {
    var h := [b[0] / 32, b[0] % 32];
    var g1, g2, g3 := Group(b[1..6]), Group(b[6..11]), Group(b[11..]);
    GroupValue(b[1..6]);
    GroupValue(b[6..11]);
    GroupValue(b[11..]);
    assert h[..1][..0] == [];
    assert Val(h[..1], 32) == b[0] / 32;
    assert Val(h, 32) == b[0];
    assert b[..1][..0] == [];
    assert Val(b[..1], 256) == b[0];
    ValConcat(h, g1, 32);
    ValConcat(h + g1, g2, 32);
    ValConcat(h + g1 + g2, g3, 32);
    assert b[..6] == b[..1] + b[1..6];
    assert b[..11] == b[..6] + b[6..11];
    assert b == b[..11] + b[11..];
    ValConcat(b[..1], b[1..6], 256);
    ValConcat(b[..6], b[6..11], 256);
    ValConcat(b[..11], b[11..], 256);
    assert Digits(b)[..10] == h + g1;
  }

  lemma EncodedIsULID(b: seq<Byte>)
    requires |b| == 16
    ensures IsULID(EncodeULID(b))
    ensures DigitsOf(EncodeULID(b)) == Digits(b)
  {
    forall i | 0 <= i < 26
      ensures IndexOf(ALPHABET, EncodeULID(b)[i]) == Digits(b)[i]
    {
      IndexOfAlphabet(Digits(b)[i]);
    }
  }

  /** String order of ULIDs is 128-bit numeric order, and the encoding is injective. */
  lemma EncodeOrder(a: seq<Byte>, b: seq<Byte>)
    requires |a| == 16 && |b| == 16
    ensures StrLess(EncodeULID(a), EncodeULID(b)) <==> Val(a, 256) < Val(b, 256)
    ensures EncodeULID(a) == EncodeULID(b) ==> a == b
  {
    DigitsValue(a);
    DigitsValue(b);
    RenderOrder(Digits(a), Digits(b));
    if EncodeULID(a) == EncodeULID(b) {
      BytesInjective(a, b);
    }
  }

  lemma {:induction false} BytesInjective(a: seq<int>, b: seq<int>)
    requires |a| == |b| && InBase(a, 256) && InBase(b, 256)
    requires Val(a, 256) == Val(b, 256)
    ensures a == b
  {
    if a != [] {
      var p, q := a[..|a| - 1], b[..|b| - 1];
      assert Val(p, 256) == Val(a, 256) / 256 && Val(q, 256) == Val(b, 256) / 256;
      BytesInjective(p, q);
      assert a == p + [a[|a| - 1]] && b == q + [b[|b| - 1]];
    }
  }

  /** Decoding the timestamp half gives back the big-endian 48-bit millisecond count. */
  lemma TimeRoundTrip(b: seq<Byte>)
    requires |b| == 16
    ensures Val(DigitsOf(EncodeULID(b))[..10], 32) == Val(b[..6], 256)
    ensures 0 <= Val(b[..6], 256) < 0x1_0000_0000_0000
  {
    EncodedIsULID(b);
    DigitsValue(b);
    ValBound(b[..6], 256);
    assert Pow(256, 2) == 65536;
    assert Pow(256, 4) == 65536 * 65536;
    assert Pow(256, 6) == 65536 * Pow(256, 4);
  }
}
