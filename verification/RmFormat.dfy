/**
 The .rm formats as they are written, and the parser's inverse: what is written is read back, for
 every page of either version.
 */
module RmFormat {
  import opened Basics
  import opened RmParse

  // ---- numbers ----

  function LittleEndian(x: nat, n: nat): (r: seq<Byte>)
    ensures |r| == n
  {
    if n == 0 then [] else [x % 256] + LittleEndian(x / 256, n - 1)
  }

  function Pow256(n: nat): nat {
    if n == 0 then 1 else 256 * Pow256(n - 1)
  }

  lemma {:induction false} WordOf(x: nat, n: nat, pre: seq<Byte>, post: seq<Byte>)
    requires x < Pow256(n)
    ensures Word(pre + LittleEndian(x, n) + post, |pre|, n) == x
    decreases n
  {
    if n > 0 {
      var low: Byte := x % 256;
      assert x / 256 < Pow256(n - 1);
      WordOf(x / 256, n - 1, pre + [low], post);
      var d := pre + LittleEndian(x, n) + post;
      assert d == (pre + [low]) + LittleEndian(x / 256, n - 1) + post;
      assert d[|pre|] == low;
    }
  }

  /** The words of the format, byte by byte. */
  lemma WordBytes(s: seq<Byte>, at: nat)
    ensures at + 1 <= |s| ==> Word(s, at, 1) == s[at]
    ensures at + 2 <= |s| ==> Word(s, at, 2) == s[at] as int + 0x100 * s[at + 1] as int
    ensures at + 4 <= |s| ==> Word(s, at, 4) == s[at] as int + 0x100 * s[at + 1] as int + 0x1_0000 * s[at + 2] as int + 0x100_0000 * s[at + 3] as int
    ensures at + 8 <= |s| ==> Word(s, at, 8) == Word(s, at, 4) + 0x1_0000_0000 * Word(s, at + 4, 4)
  {
    if at + 4 <= |s| {
      FourBytes(s, at);
    }
    if at + 8 <= |s| {
      FourBytes(s, at + 4);
      assert Word(s, at, 8) == s[at] as int + 256 * Word(s, at + 1, 7);
      assert Word(s, at + 1, 7) == s[at + 1] as int + 256 * Word(s, at + 2, 6);
      assert Word(s, at + 2, 6) == s[at + 2] as int + 256 * Word(s, at + 3, 5);
      assert Word(s, at + 3, 5) == s[at + 3] as int + 256 * Word(s, at + 4, 4);
    }
  }

  lemma FourBytes(s: seq<Byte>, at: nat)
    requires at + 4 <= |s|
    ensures Word(s, at, 4) == s[at] as int + 0x100 * s[at + 1] as int + 0x1_0000 * s[at + 2] as int + 0x100_0000 * s[at + 3] as int
  {
    assert Word(s, at + 1, 3) == s[at + 1] as int + 256 * Word(s, at + 2, 2);
    assert Word(s, at + 2, 2) == s[at + 2] as int + 256 * Word(s, at + 3, 1);
  }

  lemma TakeFront(w: seq<Byte>, rest: seq<Byte>)
    ensures TakeWord(w + rest, |w|) == Read(Word(w + rest, 0, |w|), true, rest)
  {
    assert (w + rest)[|w|..] == rest;
  }

  lemma TakeOf(x: nat, n: nat, rest: seq<Byte>)
    requires x < Pow256(n)
    ensures TakeWord(LittleEndian(x, n) + rest, n) == Read(x, true, rest)
  {
    var w := LittleEndian(x, n);
    WordOf(x, n, [], rest);
    assert [] + w + rest == w + rest;
    TakeFront(w, rest);
  }

  function Varint(n: nat): (r: seq<Byte>)
    ensures r != []
  {
    if n < 128 then [n] else [n % 128 + 128] + Varint(n / 128)
  }

  lemma SplitByte(n: nat, p: nat)
    requires n >= 128 && p > 0
    ensures (n % 128) * p + (n / 128) * (128 * p) == n * p
    ensures 128 * p <= n * p && (n % 128) * p <= n * p
  {
    var q, m := n / 128, n % 128;
    assert n == 128 * q + m;
    assert (128 * q + m) * p == q * (128 * p) + m * p;
  }

  /** One byte of a number; 128 or more says that another follows. */
  lemma VarintStep(b: Byte, bits: nat, tail: seq<Byte>, place: nat, acc: nat, v: nat)
    requires place < WORD64 && bits == b % 128 && v == acc + bits * place && v < WORD64
    ensures VarintFrom([b] + tail, place, acc) == if b < 128 then Read(v, true, tail) else VarintFrom(tail, 128 * place, v)
  {
    var s := [b] + tail;
    assert s[1..] == tail && s[0] == b;
    SmallMod(v, WORD64);
  }

  lemma SmallMod(x: nat, m: nat)
    requires x < m
    ensures x % m == x
  {
  }

  lemma {:induction false} VarintRead(n: nat, place: nat, acc: nat, rest: seq<Byte>)
    requires 0 < place < WORD64 && acc + n * place < WORD64
    ensures VarintFrom(Varint(n) + rest, place, acc) == Read(acc + n * place, true, rest)
    decreases n
  {
    if n < 128 {
      VarintStep(n, n, rest, place, acc, acc + n * place);
    } else {
      var low, high := n % 128, n / 128;
      SplitByte(n, place);
      var tail, v := Varint(high) + rest, acc + low * place;
      assert Varint(n) + rest == [low + 128] + tail;
      VarintStep(low + 128, low, tail, place, acc, v);
      VarintRead(high, 128 * place, v, rest);
    }
  }

  /** Every 64-bit number reads back. */
  lemma VarintRoundTrip(n: nat, rest: seq<Byte>)
    requires n < 0x1_0000_0000_0000_0000
    ensures VarintFrom(Varint(n) + rest, 1, 0) == Read(n, true, rest)
  {
    VarintRead(n, 1, 0, rest);
  }

  function Pow128(n: nat): (p: nat)
    ensures p > 0
  {
    if n == 0 then 1 else 128 * Pow128(n - 1)
  }

  lemma TenBytes()
    ensures Pow128(10) >= 0x1_0000_0000_0000_0000 > Pow128(9)
  {
    assert Pow128(2) == 0x4000;
    assert Pow128(4) == 0x1000_0000;
    assert Pow128(6) == 0x400_0000_0000;
    assert Pow128(8) == 0x100_0000_0000_0000;
  }

  lemma {:induction false} Pow128Rises(m: nat, n: nat)
    requires m <= n
    ensures Pow128(m) <= Pow128(n)
  {
    if m < n {
      Pow128Rises(m, n - 1);
    }
  }

  lemma VarintMore(s: seq<Byte>, place: nat, acc: nat) returns (v: nat)
    requires s != [] && s[0] >= 128 && place < WORD64
    ensures VarintFrom(s, place, acc) == VarintFrom(s[1..], 128 * place, v)
  {
    v := (acc + (s[0] % 128) * place) % WORD64;
  }

  lemma {:induction false} VarintGoesOn(s: seq<Byte>, k: nat, n: nat, acc: nat)
    requires n <= |s| && k + n <= 10 && (k + n == 10 || n == |s|) && forall i :: 0 <= i < n ==> s[i] >= 128
    ensures VarintFrom(s, Pow128(k), acc) == Read(0, false, s[n..])
    decreases n
  {
    TenBytes();
    if n > 0 {
      Pow128Rises(k, 9);
      var v := VarintMore(s, Pow128(k), acc);
      assert s[1..][n - 1..] == s[n..];
      VarintGoesOn(s[1..], k + 1, n - 1, v);
    }
  }

  /** A number is not read when none of ten bytes ends it, or the data runs out before one does. */
  lemma VarintFails(s: seq<Byte>, n: nat)
    requires n <= |s| && forall i :: 0 <= i < n ==> s[i] >= 128
    requires n == 10 || (n < 10 && n == |s|)
    ensures VarintFrom(s, 1, 0) == Read(0, false, s[n..])
  {
    VarintGoesOn(s, 0, n, 0);
  }

  function TagBytes(t: Tag): (r: seq<Byte>)
    requires 0 <= t.index
    requires 0 <= t.typ < 16
    ensures r != []
  {
    Varint(16 * t.index + t.typ)
  }

  predicate TagOk(t: Tag) {
    0 <= t.index < 0x1000_0000_0000_0000 && 0 <= t.typ < 16
  }

  lemma TagSplits(index: nat, typ: nat)
    requires typ < 16
    ensures (16 * index + typ) / 16 == index && (16 * index + typ) % 16 == typ
  {
  }

  lemma TagRoundTrip(t: Tag, rest: seq<Byte>)
    requires TagOk(t)
    ensures TagFrom(TagBytes(t) + rest) == Read(t, true, rest)
  {
    var raw := 16 * t.index + t.typ;
    VarintRoundTrip(raw, rest);
    TagSplits(t.index, t.typ);
  }

  // ---- points ----

  /** Not a number, as IEEE 754 has it: the exponent bits all ones and some fraction bit set. */
  predicate NaN32(bits: nat) {
    (bits / 0x80_0000) % 256 == 255 && bits % 0x80_0000 != 0
  }

  lemma NaN32Iff(bits: nat)
    requires bits < 0x1_0000_0000
    ensures IsNaN(bits) <==> NaN32(bits)
  {
    var e, f := bits / 0x80_0000, bits % 0x80_0000;
    assert bits == 0x80_0000 * e + f && e < 512;
  }

  predicate InFormat(p: Point) {
    && 0 <= p.x < 0x1_0000_0000 && 0 <= p.y < 0x1_0000_0000 && 0 <= p.speed < 0x1_0000 && 0 <= p.width < 0x1_0000
    && 0 <= p.direction < 256 && 0 <= p.pressure < 256
  }

  function PointBytes(p: Point): (r: seq<Byte>)
    requires InFormat(p)
    ensures |r| == 14
  {
    LittleEndian(p.x, 4) + LittleEndian(p.y, 4) + LittleEndian(p.speed, 2) + LittleEndian(p.width, 2)
    + LittleEndian(p.direction, 1) + LittleEndian(p.pressure, 1)
  }

  predicate AllInFormat(ps: seq<Point>) {
    forall i :: 0 <= i < |ps| ==> InFormat(ps[i])
  }

  function PointsBytes(ps: seq<Point>): (r: seq<Byte>)
    requires AllInFormat(ps)
    ensures |r| == 14 * |ps|
  {
    if ps == [] then [] else PointBytes(ps[0]) + PointsBytes(ps[1..])
  }

  function DrawablePoints(ps: seq<Point>): seq<Point> {
    if ps == [] then []
    else (if ps[0].x >= 0 && ps[0].y >= 0 && !NaN32(ps[0].x) && !NaN32(ps[0].y) then [ps[0]] else []) + DrawablePoints(ps[1..])
  }

  lemma WordInside(x: nat, n: nat, pre: seq<Byte>, post: seq<Byte>, d: seq<Byte>)
    requires x < Pow256(n) && d == pre + LittleEndian(x, n) + post
    ensures n <= |d| && Word(d, |pre|, n) == x
  {
    WordOf(x, n, pre, post);
  }

  lemma PointRoundTrip(p: Point, rest: seq<Byte>)
    requires InFormat(p)
    ensures PointAt(PointBytes(p) + rest) == p
  {
    var x, y, s := LittleEndian(p.x, 4), LittleEndian(p.y, 4), LittleEndian(p.speed, 2);
    var w, dir, pr := LittleEndian(p.width, 2), LittleEndian(p.direction, 1), LittleEndian(p.pressure, 1);
    var d := PointBytes(p) + rest;
    assert d == x + y + s + w + dir + pr + rest;
    assert d == [] + x + (y + s + w + dir + pr + rest);
    WordInside(p.x, 4, [], y + s + w + dir + pr + rest, d);
    assert d == x + y + (s + w + dir + pr + rest);
    WordInside(p.y, 4, x, s + w + dir + pr + rest, d);
    assert d == (x + y) + s + (w + dir + pr + rest);
    WordInside(p.speed, 2, x + y, w + dir + pr + rest, d);
    assert d == (x + y + s) + w + (dir + pr + rest);
    WordInside(p.width, 2, x + y + s, dir + pr + rest, d);
    assert d == (x + y + s + w) + dir + (pr + rest);
    WordInside(p.direction, 1, x + y + s + w, pr + rest, d);
    WordInside(p.pressure, 1, x + y + s + w + dir, rest, d);
  }

  /** A block of points gives back the points, in order, except those that are not numbers. */
  lemma {:induction false} PointsRoundTrip(ps: seq<Point>)
    requires AllInFormat(ps)
    ensures Points(PointsBytes(ps)) == DrawablePoints(ps)
  {
    if ps != [] {
      var d := PointsBytes(ps);
      PointRoundTrip(ps[0], PointsBytes(ps[1..]));
      NaN32Iff(ps[0].x);
      NaN32Iff(ps[0].y);
      assert d[14..] == PointsBytes(ps[1..]);
      PointsRoundTrip(ps[1..]);
    }
  }

  // ---- line values ----

  /** What may stand in a line value. The last five kinds carry an index no stroke property uses. */
  datatype Field =
    | Pen(value: nat)
    | Color(value: nat)
    | Scale(value: nat)
    | PointList(points: seq<Point>)
    | Argb(value: nat)
    | Extra1(index: nat, value: nat)
    | Extra4(index: nat, value: nat)
    | Extra8(index: nat, value: nat)
    | ExtraBytes(index: nat, bytes: seq<Byte>)
    | ExtraId(index: nat, part: Byte, clock: nat)

  function TagOf(f: Field): Tag {
    match f
    case Pen(_) => Tag(1, 4)
    case Color(_) => Tag(2, 4)
    case Scale(_) => Tag(3, 8)
    case PointList(_) => Tag(5, 12)
    case Argb(_) => Tag(8, 4)
    case Extra1(i, _) => Tag(i, 1)
    case Extra4(i, _) => Tag(i, 4)
    case Extra8(i, _) => Tag(i, 8)
    case ExtraBytes(i, _) => Tag(i, 12)
    case ExtraId(i, _, _) => Tag(i, 15)
  }

  predicate FieldOk(f: Field) {
    && TagOk(TagOf(f))
    && match f
       case Pen(v) => v < 0x1_0000_0000
       case Color(v) => v < 0x1_0000_0000
       case Scale(v) => v < 0x1_0000_0000_0000_0000
       case PointList(ps) => AllInFormat(ps) && 14 * |ps| < 0x1_0000_0000
       case Argb(v) => v < 0x1_0000_0000
       case Extra1(_, v) => v < 256
       case Extra4(_, v) => v < 0x1_0000_0000
       case Extra8(_, v) => v < 0x1_0000_0000_0000_0000
       case ExtraBytes(_, b) => |b| < 0x1_0000_0000
       case ExtraId(_, _, n) => n < 0x1_0000_0000_0000_0000
  }

  /** Fields the parser must pass over in a line value. */
  predicate Ignorable(f: Field) {
    match f
    case Extra1(_, _) => true
    case Extra4(i, _) => i != 1 && i != 2 && i != 8
    case Extra8(i, _) => i != 3
    case ExtraBytes(i, _) => i != 5
    case ExtraId(_, _, _) => true
    case _ => false
  }

  predicate ValueFieldOk(f: Field) {
    FieldOk(f) && (f.Extra1? || f.Extra4? || f.Extra8? || f.ExtraBytes? || f.ExtraId? ==> Ignorable(f))
  }

  function Payload(f: Field): seq<Byte>
    requires FieldOk(f)
  {
    match f
    case Pen(v) => LittleEndian(v, 4)
    case Color(v) => LittleEndian(v, 4)
    case Scale(v) => LittleEndian(v, 8)
    case PointList(ps) => LittleEndian(14 * |ps|, 4) + PointsBytes(ps)
    case Argb(v) => LittleEndian(v, 4)
    case Extra1(_, v) => LittleEndian(v, 1)
    case Extra4(_, v) => LittleEndian(v, 4)
    case Extra8(_, v) => LittleEndian(v, 8)
    case ExtraBytes(_, b) => LittleEndian(|b|, 4) + b
    case ExtraId(_, part, n) => [part] + Varint(n)
  }

  function FieldBytes(f: Field): (r: seq<Byte>)
    requires FieldOk(f)
    ensures r != []
  {
    TagBytes(TagOf(f)) + Payload(f)
  }

  /** What a field means for the stroke. */
  function Applied(f: Field, st: Stroke): Stroke {
    match f
    case Pen(v) => st.(pen := v)
    case Color(v) => st.(color := v)
    case Scale(v) => st.(scale := v)
    case PointList(ps) => st.(points := DrawablePoints(ps))
    case Argb(v) => st.(argb := Some(v))
    case _ => st
  }

  lemma DropsSized(b: seq<Byte>, rest: seq<Byte>)
    requires |b| < 0x1_0000_0000
    ensures var n := TakeWord(LittleEndian(|b|, 4) + b + rest, 4);
            n.ok && Drop(n.rest, n.value) == rest
  {
    Regroup(LittleEndian(|b|, 4), b, rest);
    TakeOf(|b|, 4, b + rest);
  }

  lemma DropsWord(v: nat, n: nat, rest: seq<Byte>)
    ensures Drop(LittleEndian(v, n) + rest, n) == rest
  {
  }

  lemma DropsId(part: Byte, n: nat, rest: seq<Byte>)
    requires n < WORD64
    ensures DropId([part] + Varint(n) + rest) == rest
  {
    assert ([part] + Varint(n) + rest)[1..] == Varint(n) + rest;
    VarintRoundTrip(n, rest);
  }

  /** A field that carries no property is passed over whole. */
  lemma DropsExtra(f: Field, rest: seq<Byte>)
    requires FieldOk(f) && (f.Extra1? || f.Extra4? || f.Extra8? || f.ExtraBytes? || f.ExtraId?)
    ensures DropValue(Payload(f) + rest, TagOf(f)) == rest
  {
    match f
    case Extra1(_, v) => DropsWord(v, 1, rest);
    case Extra4(_, v) => DropsWord(v, 4, rest);
    case Extra8(_, v) => DropsWord(v, 8, rest);
    case ExtraBytes(_, b) => DropsSized(b, rest);
    case ExtraId(_, part, n) => DropsId(part, n, rest);
  }

  /** Of a tag type the format does not name, the value is one number. */
  lemma DropsOther(t: Tag, n: nat, rest: seq<Byte>)
    requires t.typ !in {1, 4, 8, 12, 15} && n < 0x1_0000_0000_0000_0000
    ensures DropValue(Varint(n) + rest, t) == rest
  {
    VarintRoundTrip(n, rest);
  }

  /** A word that is cut short counts as zero, and what there is of it is read on. */
  lemma ShortWord(index: nat, cut: seq<Byte>, st: Stroke)
    requires (index == 1 || index == 2 || index == 8) && |cut| < 4
    ensures ValueFrom(TagBytes(Tag(index, 4)) + cut, st)
            == ValueFrom(cut, if index == 1 then st.(pen := 0) else if index == 2 then st.(color := 0) else st.(argb := Some(0)))
  {
    TagRoundTrip(Tag(index, 4), cut);
  }

  lemma ReadsBytes(b: seq<Byte>, rest: seq<Byte>, st: Stroke)
    requires |b| < 0x1_0000_0000
    ensures ValueStep(Tag(5, TAG_LENGTH4), LittleEndian(|b|, 4) + (b + rest), st)
            == Some(Read(st.(points := Points(b)), true, rest))
  {
    TakeOf(|b|, 4, b + rest);
    assert (b + rest)[..|b|] == b && (b + rest)[|b|..] == rest;
  }

  lemma ReadsPoints(ps: seq<Point>, rest: seq<Byte>, st: Stroke)
    requires AllInFormat(ps) && 14 * |ps| < 0x1_0000_0000
    ensures ValueStep(Tag(5, TAG_LENGTH4), LittleEndian(14 * |ps|, 4) + PointsBytes(ps) + rest, st)
            == Some(Read(st.(points := DrawablePoints(ps)), true, rest))
  {
    var b := PointsBytes(ps);
    Regroup(LittleEndian(14 * |ps|, 4), b, rest);
    ReadsBytes(b, rest, st);
    PointsRoundTrip(ps);
  }

  lemma StepRoundTrip(f: Field, rest: seq<Byte>, st: Stroke)
    requires ValueFieldOk(f)
    ensures ValueStep(TagOf(f), Payload(f) + rest, st) == Some(Read(Applied(f, st), true, rest))
  {
    match f
    case Pen(v) => TakeOf(v, 4, rest);
    case Color(v) => TakeOf(v, 4, rest);
    case Scale(v) => TakeOf(v, 8, rest);
    case PointList(ps) => ReadsPoints(ps, rest, st);
    case Argb(v) => TakeOf(v, 4, rest);
    case Extra1(_, _) => DropsExtra(f, rest);
    case Extra4(_, _) => DropsExtra(f, rest);
    case Extra8(_, _) => DropsExtra(f, rest);
    case ExtraBytes(_, _) => DropsExtra(f, rest);
    case ExtraId(_, _, _) => DropsExtra(f, rest);
  }

  /** One field off the front of a value. */
  lemma ValueUnfolds(s: seq<Byte>, t: Tag, after: seq<Byte>, st: Stroke, next: Stroke, rest: seq<Byte>)
    requires s != [] && TagFrom(s) == Read(t, true, after) && ValueStep(t, after, st) == Some(Read(next, true, rest))
    ensures ValueFrom(s, st) == ValueFrom(rest, next)
  {
  }

  lemma FieldRoundTrip(f: Field, rest: seq<Byte>, st: Stroke)
    requires ValueFieldOk(f)
    ensures ValueFrom(FieldBytes(f) + rest, st) == ValueFrom(rest, Applied(f, st))
  {
    var head, body := TagBytes(TagOf(f)), Payload(f) + rest;
    var s := FieldBytes(f) + rest;
    assert s == head + body;
    TagRoundTrip(TagOf(f), body);
    StepRoundTrip(f, rest, st);
    ValueUnfolds(s, TagOf(f), body, st, Applied(f, st), rest);
  }

  predicate FieldsOk(fs: seq<Field>) {
    forall i :: 0 <= i < |fs| ==> ValueFieldOk(fs[i])
  }

  function FieldsBytes(fs: seq<Field>): seq<Byte>
    requires FieldsOk(fs)
  {
    if fs == [] then [] else FieldBytes(fs[0]) + FieldsBytes(fs[1..])
  }

  function AllApplied(fs: seq<Field>, st: Stroke): Stroke {
    if fs == [] then st else AllApplied(fs[1..], Applied(fs[0], st))
  }

  /** Fields at the front are applied in order, whatever follows them. */
  lemma {:induction false} FieldsThen(fs: seq<Field>, st: Stroke, tail: seq<Byte>)
    requires FieldsOk(fs)
    ensures ValueFrom(FieldsBytes(fs) + tail, st) == ValueFrom(tail, AllApplied(fs, st))
    decreases |fs|
  {
    if fs == [] {
      assert [] + tail == tail;
    } else {
      var rest := FieldsBytes(fs[1..]) + tail;
      assert FieldsBytes(fs) + tail == FieldBytes(fs[0]) + rest;
      FieldRoundTrip(fs[0], rest, st);
      FieldsThen(fs[1..], Applied(fs[0], st), tail);
    }
  }

  lemma FieldsRoundTrip(fs: seq<Field>, st: Stroke)
    requires FieldsOk(fs)
    ensures ValueFrom(FieldsBytes(fs), st) == (AllApplied(fs, st), true)
  {
    FieldsThen(fs, st, []);
    assert FieldsBytes(fs) + [] == FieldsBytes(fs);
  }

  /** A point list that claims more bytes than the value has left spoils the value. */
  lemma LongPointsFail(fs: seq<Field>, st: Stroke, n: nat, tail: seq<Byte>)
    requires FieldsOk(fs) && |tail| < n < 0x1_0000_0000
    ensures ValueFrom(FieldsBytes(fs) + (TagBytes(Tag(5, 12)) + (LittleEndian(n, 4) + tail)), st) == (AllApplied(fs, st), false)
  {
    var cut := TagBytes(Tag(5, 12)) + (LittleEndian(n, 4) + tail);
    FieldsThen(fs, st, cut);
    TagRoundTrip(Tag(5, 12), LittleEndian(n, 4) + tail);
    TakeOf(n, 4, tail);
  }

  // ---- items and blocks ----

  /** A line item: fields before the value, the deletion mark among them, and the value. */
  datatype Item = Item(before: seq<Field>, fields: seq<Field>)

  /** Fields an item may carry before its value. */
  predicate MarkOk(f: Field) {
    && FieldOk(f)
    && match f
       case Extra1(_, _) => true
       case Extra4(_, _) => true
       case Extra8(_, _) => true
       case ExtraBytes(i, _) => i != 6
       case ExtraId(_, _, _) => true
       case _ => false
  }

  predicate MarksOk(fs: seq<Field>) {
    forall i :: 0 <= i < |fs| ==> MarkOk(fs[i])
  }

  /** The deletion mark after the fields: the last word at index 5. */
  function Mark(fs: seq<Field>, deleted: nat): nat {
    if fs == [] then deleted
    else Mark(fs[1..], match fs[0] case Extra4(i, v) => (if i == 5 then v else deleted) case _ => deleted)
  }

  function MarksBytes(fs: seq<Field>): seq<Byte>
    requires MarksOk(fs)
  {
    if fs == [] then [] else FieldBytes(fs[0]) + MarksBytes(fs[1..])
  }

  predicate ItemOk(it: Item) {
    MarksOk(it.before) && FieldsOk(it.fields) && |FieldsBytes(it.fields)| + 1 < 0x1_0000_0000
  }

  function ValueBytes(fs: seq<Field>): seq<Byte>
    requires FieldsOk(fs)
  {
    [3] + FieldsBytes(fs)
  }

  function SizedValue(value: seq<Byte>): seq<Byte> {
    TagBytes(Tag(6, 12)) + (LittleEndian(|value|, 4) + value)
  }

  function ItemBytes(it: Item): seq<Byte>
    requires ItemOk(it)
  {
    MarksBytes(it.before) + SizedValue(ValueBytes(it.fields))
  }

  lemma MarkStep(f: Field, rest: seq<Byte>, deleted: nat)
    requires MarkOk(f)
    ensures ItemValue(FieldBytes(f) + rest, deleted) == ItemValue(rest, Mark([f], deleted))
  {
    var s := FieldBytes(f) + rest;
    assert s == TagBytes(TagOf(f)) + (Payload(f) + rest);
    TagRoundTrip(TagOf(f), Payload(f) + rest);
    assert [f][1..] == [];
    DropsExtra(f, rest);
    if f.Extra4? && f.index == 5 {
      TakeOf(f.value, 4, rest);
    }
  }

  /** The value of an item: found when it is whole and no deletion mark came before it. */
  lemma SizedStep(n: nat, tail: seq<Byte>, deleted: nat)
    requires n < 0x1_0000_0000
    ensures ItemValue(TagBytes(Tag(6, 12)) + (LittleEndian(n, 4) + tail), deleted)
            == if deleted > 0 || n > |tail| then None else Some(tail[..n])
  {
    TagRoundTrip(Tag(6, 12), LittleEndian(n, 4) + tail);
    TakeOf(n, 4, tail);
  }

  /** Fields before the value are passed over, except for the mark they leave. */
  lemma {:induction false} MarksThen(fs: seq<Field>, tail: seq<Byte>, deleted: nat)
    requires MarksOk(fs)
    ensures ItemValue(MarksBytes(fs) + tail, deleted) == ItemValue(tail, Mark(fs, deleted))
    decreases |fs|
  {
    if fs == [] {
      assert MarksBytes(fs) + tail == tail;
    } else {
      var rest := MarksBytes(fs[1..]) + tail;
      assert MarksBytes(fs) + tail == FieldBytes(fs[0]) + rest;
      MarkStep(fs[0], rest, deleted);
      assert [fs[0]][1..] == [];
      MarksThen(fs[1..], tail, Mark([fs[0]], deleted));
    }
  }

  lemma MarksRoundTrip(fs: seq<Field>, value: seq<Byte>, deleted: nat)
    requires MarksOk(fs) && |value| < 0x1_0000_0000
    ensures ItemValue(MarksBytes(fs) + SizedValue(value), deleted) == if Mark(fs, deleted) > 0 then None else Some(value)
  {
    MarksThen(fs, SizedValue(value), deleted);
    SizedStep(|value|, value, Mark(fs, deleted));
    assert value[..|value|] == value;
  }

  /** An item shows nothing when its value is cut off or is not a line. */
  lemma BadItemHidden(fs: seq<Field>, n: nat, tail: seq<Byte>, typ: int)
    requires MarksOk(fs) && n < 0x1_0000_0000 && (n > |tail| || n == 0 || tail[0] != 3)
    ensures Shown(typ, MarksBytes(fs) + (TagBytes(Tag(6, 12)) + (LittleEndian(n, 4) + tail))) == []
  {
    MarksThen(fs, TagBytes(Tag(6, 12)) + (LittleEndian(n, 4) + tail), 0);
    SizedStep(n, tail, Mark(fs, 0));
  }

  /** The stroke an item stands for: none when it is deleted or has no point to draw. */
  function ItemStrokes(it: Item): seq<Stroke> {
    var st := AllApplied(it.fields, Stroke(0, 0, None, 0x3FF0_0000_0000_0000, []));
    if Mark(it.before, 0) > 0 || st.points == [] then [] else [st]
  }

  lemma ItemRoundTrip(it: Item)
    requires ItemOk(it)
    ensures ItemBytes(it) != [] && Shown(5, ItemBytes(it)) == ItemStrokes(it)
  {
    var value := ValueBytes(it.fields);
    MarksRoundTrip(it.before, value, 0);
    assert value[1..] == FieldsBytes(it.fields);
    FieldsRoundTrip(it.fields, NEW_STROKE);
    assert |SizedValue(value)| > 0;
  }

  /** A block as it lies in the file. */
  datatype Frame = Frame(typ: Byte, body: seq<Byte>)

  function FrameBytes(f: Frame): (r: seq<Byte>)
    ensures |r| == 8 + |f.body|
  {
    LittleEndian(|f.body|, 4) + [0, 1, 1, f.typ] + f.body
  }

  predicate FramesOk(fs: seq<Frame>) {
    forall i :: 0 <= i < |fs| ==> |fs[i].body| < 0x1_0000_0000
  }

  function FramesBytes(fs: seq<Frame>): seq<Byte> {
    if fs == [] then [] else FrameBytes(fs[0]) + FramesBytes(fs[1..])
  }

  function FramesShown(fs: seq<Frame>, done: seq<Stroke>): seq<Stroke> {
    if fs == [] then done else FramesShown(fs[1..], done + Shown(fs[0].typ, fs[0].body))
  }

  lemma FramePieces(n: seq<Byte>, f: Frame, pre: seq<Byte>, post: seq<Byte>, d: seq<Byte>)
    requires |n| == 4 && d == pre + (n + [0, 1, 1, f.typ] + f.body) + post
    ensures d == pre + n + ([0, 1, 1, f.typ] + f.body + post) && |d| == |pre| + 8 + |f.body| + |post|
    ensures d[|pre| + 7] == f.typ && d[|pre| + 8..|pre| + 8 + |f.body|] == f.body
  {
  }

  lemma FrameFound(f: Frame, pre: seq<Byte>, post: seq<Byte>, d: seq<Byte>)
    requires |f.body| < 0x1_0000_0000 && d == pre + FrameBytes(f) + post
    ensures BlockEnd(d, |pre|) == Some(|pre| + 8 + |f.body|)
    ensures ShownAt(d, |pre|, |pre| + 8 + |f.body|) == Shown(f.typ, f.body)
  {
    FramePieces(LittleEndian(|f.body|, 4), f, pre, post, d);
    WordInside(|f.body|, 4, pre, [0, 1, 1, f.typ] + f.body + post, d);
  }

  lemma FrameRead(f: Frame, pre: seq<Byte>, post: seq<Byte>, d: seq<Byte>, done: seq<Stroke>)
    requires |f.body| < 0x1_0000_0000 && d == pre + FrameBytes(f) + post
    ensures Blocks(d, |pre|, done) == Blocks(d, |pre + FrameBytes(f)|, done + Shown(f.typ, f.body))
  {
    FrameFound(f, pre, post, d);
  }

  lemma {:induction false} FramesRead(pre: seq<Byte>, fs: seq<Frame>, tail: seq<Byte>, d: seq<Byte>, done: seq<Stroke>)
    requires FramesOk(fs) && d == (pre + FramesBytes(fs)) + tail
    ensures Blocks(d, |pre|, done) == Blocks(d, |pre + FramesBytes(fs)|, FramesShown(fs, done))
    decreases |fs|
  {
    if fs == [] {
      assert pre + [] == pre;
    } else {
      var head, rest := FrameBytes(fs[0]), FramesBytes(fs[1..]);
      Regroup(pre, head, rest);
      Regroup(pre + head, rest, tail);
      FrameRead(fs[0], pre, rest + tail, d, done);
      FramesRead(pre + head, fs[1..], tail, d, done + Shown(fs[0].typ, fs[0].body));
    }
  }

  /** What is left at the end is no whole block. */
  predicate NoBlock(tail: seq<Byte>) {
    |tail| < 8 || |tail| < 8 + Word(tail, 0, 4)
  }

  lemma TailEnds(pre: seq<Byte>, tail: seq<Byte>, done: seq<Stroke>)
    requires NoBlock(tail)
    ensures Blocks(pre + tail, |pre|, done) == done
  {
    if |tail| >= 8 {
      assert (pre + tail)[|pre|..] == tail;
      WordShift(pre + tail, |pre|, 0, 4);
    }
  }

  /** A block as it is meant: a line item, or something of another type. */
  datatype Block = Line(item: Item) | Foreign(typ: Byte, content: seq<Byte>)

  predicate BlockOk(b: Block) {
    match b
    case Line(it) => ItemOk(it) && |ItemBytes(it)| < 0x1_0000_0000
    case Foreign(typ, content) => typ != 5 && |content| < 0x1_0000_0000
  }

  function FrameOf(b: Block): (f: Frame)
    requires BlockOk(b)
    ensures |f.body| < 0x1_0000_0000
  {
    match b
    case Line(it) => Frame(5, ItemBytes(it))
    case Foreign(typ, content) => Frame(typ, content)
  }

  predicate BlocksOk(bs: seq<Block>) {
    forall i :: 0 <= i < |bs| ==> BlockOk(bs[i])
  }

  function FramesOf(bs: seq<Block>): (fs: seq<Frame>)
    requires BlocksOk(bs)
    ensures FramesOk(fs)
  {
    if bs == [] then [] else [FrameOf(bs[0])] + FramesOf(bs[1..])
  }

  function BlockStrokes(b: Block): seq<Stroke> {
    match b
    case Line(it) => ItemStrokes(it)
    case Foreign(_, _) => []
  }

  /** What a page shows: the strokes of its items, in order. */
  function PageStrokes(bs: seq<Block>, done: seq<Stroke>): seq<Stroke> {
    if bs == [] then done else PageStrokes(bs[1..], done + BlockStrokes(bs[0]))
  }

  lemma BlockShown(b: Block)
    requires BlockOk(b)
    ensures Shown(FrameOf(b).typ, FrameOf(b).body) == BlockStrokes(b)
  {
    if b.Line? {
      ItemRoundTrip(b.item);
    }
  }

  lemma {:induction false} BlocksShown(bs: seq<Block>, done: seq<Stroke>)
    requires BlocksOk(bs)
    ensures FramesShown(FramesOf(bs), done) == PageStrokes(bs, done)
    decreases |bs|
  {
    if bs != [] {
      BlockShown(bs[0]);
      assert FramesOf(bs)[1..] == FramesOf(bs[1..]);
      BlocksShown(bs[1..], done + BlockStrokes(bs[0]));
    }
  }

  /**
   A version 6 page reads back: each item that is not deleted gives its stroke with exactly the
   points that can be drawn, in order, and blocks of other types and fields of other kinds do not show.
   A last block that is cut off is left out and spoils nothing before it.
   */
  lemma V6RoundTrip(header: seq<Byte>, bs: seq<Block>, tail: seq<Byte>)
    requires |header| == 43 && BlocksOk(bs) && NoBlock(tail)
    ensures Blocks(header + FramesBytes(FramesOf(bs)) + tail, 43, []) == PageStrokes(bs, [])
  {
    FramesRead(header, FramesOf(bs), tail, header + FramesBytes(FramesOf(bs)) + tail, []);
    BlocksShown(bs, []);
    TailEnds(header + FramesBytes(FramesOf(bs)), tail, PageStrokes(bs, []));
  }

  // ---- version 5: a sequence of 32-bit words ----

  datatype Sample = Sample(x: nat, y: nat, pressure: nat, a: nat, width: nat, b: nat)

  datatype Line5 = Line5(pen: nat, color: nat, a: nat, width: nat, b: nat, samples: seq<Sample>)

  function SampleWords(p: Sample): seq<nat> {
    [p.x, p.y, p.pressure, p.a, p.width, p.b]
  }

  function SamplesWords(ps: seq<Sample>): (r: seq<nat>)
    ensures |r| == 6 * |ps|
  {
    if ps == [] then [] else SampleWords(ps[0]) + SamplesWords(ps[1..])
  }

  function HeadWords(l: Line5): seq<nat> {
    [l.pen, l.color, l.a, l.width, l.b, |l.samples|]
  }

  function LineWords(l: Line5): seq<nat> {
    HeadWords(l) + SamplesWords(l.samples)
  }

  function LinesWords(ls: seq<Line5>): seq<nat> {
    if ls == [] then [] else LineWords(ls[0]) + LinesWords(ls[1..])
  }

  function LayersWords(layers: seq<seq<Line5>>): seq<nat> {
    if layers == [] then [] else [|layers[0]|] + LinesWords(layers[0]) + LayersWords(layers[1..])
  }

  function FileWords(layers: seq<seq<Line5>>): seq<nat> {
    [|layers|] + LayersWords(layers)
  }

  function WordsBytes(ws: seq<nat>): (r: seq<Byte>)
    ensures |r| == 4 * |ws|
  {
    if ws == [] then [] else LittleEndian(ws[0], 4) + WordsBytes(ws[1..])
  }

  predicate Words32(ws: seq<nat>) {
    forall i :: 0 <= i < |ws| ==> ws[i] < 0x1_0000_0000
  }

  /** The words stand in the file from an offset on. */
  predicate WordsAt(d: seq<Byte>, at: nat, ws: seq<nat>) {
    at + 4 * |ws| <= |d| && forall k :: 0 <= k < |ws| ==> Word(d, at + 4 * k, 4) == ws[k]
  }

  lemma {:induction false} WordsWritten(pre: seq<Byte>, ws: seq<nat>, post: seq<Byte>)
    requires Words32(ws)
    ensures WordsAt(pre + WordsBytes(ws) + post, |pre|, ws)
    decreases |ws|
  {
    var d := pre + WordsBytes(ws) + post;
    if ws != [] {
      var head, rest := LittleEndian(ws[0], 4), WordsBytes(ws[1..]);
      assert d == pre + head + (rest + post);
      WordInside(ws[0], 4, pre, rest + post, d);
      WordsWritten(pre + head, ws[1..], post);
      assert (pre + head) + rest + post == d && |pre + head| == |pre| + 4;
      forall k | 0 <= k < |ws|
        ensures Word(d, |pre| + 4 * k, 4) == ws[k]
      {
        if k > 0 {
          assert ws[1..][k - 1] == ws[k];
          assert |pre + head| + 4 * (k - 1) == |pre| + 4 * k;
        }
      }
    }
  }

  lemma WordsSplit(d: seq<Byte>, at: nat, a: seq<nat>, b: seq<nat>)
    requires WordsAt(d, at, a + b)
    ensures WordsAt(d, at, a) && WordsAt(d, at + 4 * |a|, b)
  {
    forall k | 0 <= k < |a|
      ensures Word(d, at + 4 * k, 4) == a[k]
    {
      assert (a + b)[k] == a[k];
    }
    forall k | 0 <= k < |b|
      ensures Word(d, at + 4 * |a| + 4 * k, 4) == b[k]
    {
      assert (a + b)[|a| + k] == b[k];
      assert at + 4 * (|a| + k) == at + 4 * |a| + 4 * k;
    }
  }

  /** A sample keeps its own width unless that is zero or negative; the line's width stands in for it then. */
  function Read5(p: Sample, width: nat): Point {
    Point(p.x, p.y, 0, if NaN32(p.width) || 0 < p.width < 0x8000_0000 then p.width else width, 0, p.pressure)
  }

  lemma {:induction false} WordBound(s: seq<Byte>, at: nat, n: nat)
    requires at + n <= |s|
    ensures Word(s, at, n) < Pow256(n)
    decreases n
  {
    if n > 0 {
      WordBound(s, at + 1, n - 1);
    }
  }

  lemma SampleRead(d: seq<Byte>, at: nat, p: Sample, width: nat)
    requires WordsAt(d, at, SampleWords(p))
    ensures at + 24 <= |d| && SampleAt(d, at, width) == Read5(p, width)
  {
    var ws := SampleWords(p);
    WordBound(d, at + 16, 4);
    NaN32Iff(Word(d, at + 16, 4));
    assert Word(d, at + 4 * 0, 4) == ws[0] && Word(d, at + 4 * 1, 4) == ws[1];
    assert Word(d, at + 4 * 2, 4) == ws[2] && Word(d, at + 4 * 4, 4) == ws[4];
  }

  lemma {:induction false} SamplesRead(d: seq<Byte>, at: nat, ps: seq<Sample>, width: nat, k: nat)
    requires WordsAt(d, at, SamplesWords(ps)) && k < |ps|
    ensures at + 24 * k + 24 <= |d| && SampleAt(d, at + 24 * k, width) == Read5(ps[k], width)
    decreases k
  {
    WordsSplit(d, at, SampleWords(ps[0]), SamplesWords(ps[1..]));
    if k == 0 {
      SampleRead(d, at, ps[0], width);
    } else {
      SamplesRead(d, at + 24, ps[1..], width, k - 1);
    }
  }

  function Drawn(l: Line5): (st: Stroke) {
    Stroke(l.pen, l.color, None, 0x3FF0_0000_0000_0000, seq(|l.samples|, i requires 0 <= i < |l.samples| => Read5(l.samples[i], l.width)))
  }

  lemma HeadRead(d: seq<Byte>, at: nat, l: Line5)
    requires WordsAt(d, at, HeadWords(l))
    ensures at + 24 <= |d| && Word(d, at, 4) == l.pen && Word(d, at + 4, 4) == l.color
    ensures Word(d, at + 12, 4) == l.width && Word(d, at + 20, 4) == |l.samples|
  {
    var ws := HeadWords(l);
    assert Word(d, at + 4 * 0, 4) == ws[0] && Word(d, at + 4 * 1, 4) == ws[1];
    assert Word(d, at + 4 * 3, 4) == ws[3] && Word(d, at + 4 * 5, 4) == ws[5];
  }

  lemma LineRead(d: seq<Byte>, at: nat, l: Line5)
    requires WordsAt(d, at, LineWords(l))
    ensures StrokeAt(d, at) == At(Drawn(l), true, at + 4 * |LineWords(l)|)
  {
    WordsSplit(d, at, HeadWords(l), SamplesWords(l.samples));
    HeadRead(d, at, l);
    var n := |l.samples|;
    var got := Samples(d, at + 24, n, l.width);
    forall k | 0 <= k < n
      ensures got[k] == Drawn(l).points[k]
    {
      SamplesRead(d, at + 24, l.samples, l.width, k);
    }
    assert got == Drawn(l).points;
  }

  function LinesDrawn(ls: seq<Line5>, done: seq<Stroke>): seq<Stroke> {
    if ls == [] then done else LinesDrawn(ls[1..], done + if ls[0].samples == [] then [] else [Drawn(ls[0])])
  }

  /** The lines stand one after another from an offset to an end. */
  predicate LinesStand(d: seq<Byte>, at: nat, ls: seq<Line5>, end: nat)
    decreases |ls|
  {
    if ls == [] then at == end
    else
      var head := StrokeAt(d, at);
      head.ok && head.value == Drawn(ls[0]) && LinesStand(d, head.next, ls[1..], end)
  }

  lemma LinesHead(d: seq<Byte>, at: nat, ls: seq<Line5>)
    requires ls != [] && WordsAt(d, at, LinesWords(ls))
    ensures var next := at + 4 * |LineWords(ls[0])|;
            && StrokeAt(d, at) == At(Drawn(ls[0]), true, next)
            && WordsAt(d, next, LinesWords(ls[1..])) && at + 4 * |LinesWords(ls)| == next + 4 * |LinesWords(ls[1..])|
  {
    WordsSplit(d, at, LineWords(ls[0]), LinesWords(ls[1..]));
    LineRead(d, at, ls[0]);
  }

  lemma {:induction false} LinesWritten(d: seq<Byte>, at: nat, ls: seq<Line5>, end: nat)
    requires WordsAt(d, at, LinesWords(ls)) && end == at + 4 * |LinesWords(ls)|
    ensures LinesStand(d, at, ls, end)
    decreases |ls|
  {
    if ls != [] {
      LinesHead(d, at, ls);
      LinesWritten(d, StrokeAt(d, at).next, ls[1..], end);
    }
  }

  lemma {:induction false} LinesRead(d: seq<Byte>, at: nat, ls: seq<Line5>, end: nat, count: nat, done: seq<Stroke>)
    requires LinesStand(d, at, ls, end) && |ls| <= count
    ensures StrokesAt(d, at, count, done) == StrokesAt(d, end, count - |ls|, LinesDrawn(ls, done))
    decreases |ls|
  {
    if ls != [] {
      var head := StrokeAt(d, at);
      LinesRead(d, head.next, ls[1..], end, count - 1, done + NonEmpty(head.value));
    }
  }

  function LayersDrawn(layers: seq<seq<Line5>>, done: seq<Stroke>): seq<Stroke> {
    if layers == [] then done else LayersDrawn(layers[1..], LinesDrawn(layers[0], done))
  }

  /** A layer's count stands at an offset and its lines after it, up to `next`. */
  predicate LayerTop(d: seq<Byte>, at: nat, lines: seq<Line5>, next: nat) {
    at + 4 <= |d| && Word(d, at, 4) == |lines| && LinesStand(d, at + 4, lines, next)
  }

  ghost predicate LayersStand(d: seq<Byte>, at: nat, layers: seq<seq<Line5>>, end: nat)
    decreases |layers|
  {
    if layers == [] then at == end
    else exists next :: LayerTop(d, at, layers[0], next) && LayersStand(d, next, layers[1..], end)
  }

  lemma LayersSplit(d: seq<Byte>, at: nat, count: nat, lines: seq<nat>, rest: seq<nat>)
    requires WordsAt(d, at, [count] + lines + rest)
    ensures at + 4 <= |d| && Word(d, at, 4) == count && WordsAt(d, at + 4, lines) && WordsAt(d, at + 4 + 4 * |lines|, rest)
  {
    WordsSplit(d, at, [count] + lines, rest);
    WordsSplit(d, at, [count], lines);
    assert Word(d, at + 4 * 0, 4) == [count][0];
  }

  lemma LayersHead(d: seq<Byte>, at: nat, layers: seq<seq<Line5>>) returns (next: nat)
    requires layers != [] && WordsAt(d, at, LayersWords(layers))
    ensures LayerTop(d, at, layers[0], next) && WordsAt(d, next, LayersWords(layers[1..]))
    ensures at + 4 * |LayersWords(layers)| == next + 4 * |LayersWords(layers[1..])|
  {
    var lines := LinesWords(layers[0]);
    LayersSplit(d, at, |layers[0]|, lines, LayersWords(layers[1..]));
    next := at + 4 + 4 * |lines|;
    LinesWritten(d, at + 4, layers[0], next);
  }

  lemma {:induction false} LayersWritten(d: seq<Byte>, at: nat, layers: seq<seq<Line5>>, end: nat)
    requires WordsAt(d, at, LayersWords(layers)) && end == at + 4 * |LayersWords(layers)|
    ensures LayersStand(d, at, layers, end)
    decreases |layers|
  {
    if layers != [] {
      var next := LayersHead(d, at, layers);
      LayersWritten(d, next, layers[1..], end);
    }
  }

  lemma LayersFirst(d: seq<Byte>, at: nat, layers: seq<seq<Line5>>, end: nat) returns (next: nat)
    requires layers != [] && LayersStand(d, at, layers, end)
    ensures LayerTop(d, at, layers[0], next) && LayersStand(d, next, layers[1..], end)
  {
    next :| LayerTop(d, at, layers[0], next) && LayersStand(d, next, layers[1..], end);
  }

  lemma LayerRead(d: seq<Byte>, at: nat, lines: seq<Line5>, next: nat, count: nat, done: seq<Stroke>)
    requires LayerTop(d, at, lines, next) && count > 0
    ensures LayersAt(d, at, count, done) == LayersAt(d, next, count - 1, LinesDrawn(lines, done))
  {
    LinesRead(d, at + 4, lines, next, |lines|, done);
  }

  lemma {:induction false} LayersRead(d: seq<Byte>, at: nat, layers: seq<seq<Line5>>, end: nat, left: nat, done: seq<Stroke>, rest: At<seq<Stroke>>)
    requires LayersStand(d, at, layers, end) && rest == LayersAt(d, end, left, LayersDrawn(layers, done))
    ensures LayersAt(d, at, |layers| + left, done) == rest
    decreases |layers|
  {
    if layers != [] {
      var next := LayersFirst(d, at, layers, end);
      LayerRead(d, at, layers[0], next, |layers| + left, done);
      LayersRead(d, next, layers[1..], end, left, LinesDrawn(layers[0], done), rest);
    }
  }

  /** The words of a count and of whole layers, read up to where something else follows. */
  lemma LayersThen(header: seq<Byte>, ws: seq<nat>, n: nat, layers: seq<seq<Line5>>, more: seq<nat>, tail: seq<Byte>, d: seq<Byte>) returns (at: nat, rest: At<seq<Stroke>>)
    requires |header| == 43 && |layers| <= n && Words32(ws) && ws == [n] + LayersWords(layers) + more
    requires d == header + WordsBytes(ws) + tail
    ensures at == 43 + 4 + 4 * |LayersWords(layers)| && |d| == at + 4 * |more| + |tail| && WordsAt(d, at, more)
    ensures rest == LayersAt(d, at, n - |layers|, LayersDrawn(layers, [])) && PageAfter(d, rest)
  {
    var front := [n] + LayersWords(layers);
    at := 43 + 4 * |front|;
    WordsWritten(header, ws, tail);
    WordsSplit(d, 43, front, more);
    WordsSplit(d, 43, [n], LayersWords(layers));
    LayersWritten(d, 47, layers, at);
    rest := LayersAt(d, at, n - |layers|, LayersDrawn(layers, []));
    CountRead(d, n, layers, at, rest);
  }

  lemma CountRead(d: seq<Byte>, n: nat, layers: seq<seq<Line5>>, at: nat, rest: At<seq<Stroke>>)
    requires WordsAt(d, 43, [n]) && LayersStand(d, 47, layers, at) && |layers| <= n
    requires rest == LayersAt(d, at, n - |layers|, LayersDrawn(layers, []))
    ensures PageAfter(d, rest)
  {
    assert Word(d, 43 + 4 * 0, 4) == [n][0];
    LayersRead(d, 47, layers, at, n - |layers|, [], rest);
  }

  /** The whole page, when the layers from some place on read so. */
  ghost predicate PageAfter(d: seq<Byte>, rest: At<seq<Stroke>>) {
    PageV5(d, 43) == if rest.ok then Page(rest.value, false) else Truncated(rest.value)
  }

  /** A version 5 page reads back: every line with a sample, layer by layer, and nothing is cut off. */
  lemma V5RoundTrip(header: seq<Byte>, layers: seq<seq<Line5>>, tail: seq<Byte>)
    requires |header| == 43 && Words32(FileWords(layers))
    ensures PageV5(header + WordsBytes(FileWords(layers)) + tail, 43) == Page(LayersDrawn(layers, []), false)
  {
    var ws := FileWords(layers);
    assert ws + [] == ws;
    var at, rest := LayersThen(header, ws, |layers|, layers, [], tail, header + WordsBytes(ws) + tail);
  }

  /** The bytes left at the end do not hold a whole line. */
  predicate NoLine(tail: seq<Byte>) {
    |tail| < 24 || |tail| < 24 + 24 * Word(tail, 20, 4)
  }

  lemma TailStops(pre: seq<Byte>, tail: seq<Byte>, count: nat, done: seq<Stroke>)
    requires NoLine(tail) && count > 0
    ensures StrokesAt(pre + tail, |pre|, count, done) == At(done, false, |pre|)
  {
    if |tail| >= 24 {
      assert (pre + tail)[|pre|..] == tail;
      WordShift(pre + tail, |pre|, 20, 4);
    }
  }

  lemma LayerCut(pre: seq<Byte>, tail: seq<Byte>, at: nat, m: nat, lines: seq<Line5>, count: nat, done: seq<Stroke>, rest: At<seq<Stroke>>)
    requires WordsAt(pre + tail, at, [m] + LinesWords(lines)) && |pre| == at + 4 + 4 * |LinesWords(lines)|
    requires |lines| < m && count > 0 && NoLine(tail) && rest == LayersAt(pre + tail, at, count, done)
    ensures !rest.ok && rest.value == LinesDrawn(lines, done)
  {
    var d := pre + tail;
    WordsSplit(d, at, [m], LinesWords(lines));
    assert Word(d, at + 4 * 0, 4) == [m][0];
    LinesWritten(d, at + 4, lines, |pre|);
    LinesRead(d, at + 4, lines, |pre|, m, done);
    TailStops(pre, tail, m - |lines|, LinesDrawn(lines, done));
  }

  /** What was written of a page: the number of layers, whole layers, and in the next one its number of lines and whole lines. */
  function CutWords(n: nat, layers: seq<seq<Line5>>, m: nat, lines: seq<Line5>): seq<nat> {
    [n] + LayersWords(layers) + ([m] + LinesWords(lines))
  }

  lemma CutRest(header: seq<Byte>, n: nat, layers: seq<seq<Line5>>, m: nat, lines: seq<Line5>, ws: seq<nat>, tail: seq<Byte>)
    returns (rest: At<seq<Stroke>>)
    requires |header| == 43 && |layers| < n && |lines| < m && NoLine(tail)
    requires ws == CutWords(n, layers, m, lines) && Words32(ws)
    ensures !rest.ok && rest.value == LinesDrawn(lines, LayersDrawn(layers, []))
    ensures PageAfter(header + WordsBytes(ws) + tail, rest)
  {
    var pre, more := header + WordsBytes(ws), [m] + LinesWords(lines);
    var at;
    at, rest := LayersThen(header, ws, n, layers, more, tail, pre + tail);
    assert |more| == 1 + |LinesWords(lines)|;
    LayerCut(pre, tail, at, m, lines, n - |layers|, LayersDrawn(layers, []), rest);
  }

  /** A page cut off inside a line is reported so, with every line before the cut. */
  lemma V5CutInLine(header: seq<Byte>, n: nat, layers: seq<seq<Line5>>, m: nat, lines: seq<Line5>, ws: seq<nat>, tail: seq<Byte>)
    requires |header| == 43 && |layers| < n && |lines| < m && NoLine(tail)
    requires ws == CutWords(n, layers, m, lines) && Words32(ws)
    ensures PageV5(header + WordsBytes(ws) + tail, 43) == Truncated(LinesDrawn(lines, LayersDrawn(layers, [])))
  {
    var rest := CutRest(header, n, layers, m, lines, ws, tail);
  }

  /** So is one cut off before the count of a layer. */
  lemma V5CutInLayer(header: seq<Byte>, n: nat, layers: seq<seq<Line5>>, ws: seq<nat>, tail: seq<Byte>)
    requires |header| == 43 && |layers| < n && |tail| < 4 && ws == [n] + LayersWords(layers) && Words32(ws)
    ensures PageV5(header + WordsBytes(ws) + tail, 43) == Truncated(LayersDrawn(layers, []))
  {
    assert ws + [] == ws;
    var at, rest := LayersThen(header, ws, n, layers, [], tail, header + WordsBytes(ws) + tail);
  }
}
