/**
 The reMarkable .rm page parser. Each reading method is proved against a function on the bytes
 that are left, so the parser is total, and what it returns is limited by the file and not by the
 counts it declares. Floats are their bit patterns.
 */
module RmParse {
  import opened Basics

  const HEADER_LEN := 43
  const HEADER_V6 := "reMarkable .lines file, version=6"
  const HEADER_V5 := "reMarkable .lines file, version=5"
  const BLOCK_LINE_ITEM := 5
  const TAG_BYTE1 := 1
  const TAG_BYTE4 := 4
  const TAG_BYTE8 := 8
  const TAG_LENGTH4 := 12
  const TAG_ID := 15
  const ITEM_LINE := 3
  const WORD64 := 0x1_0000_0000_0000_0000
  /** The float64 1.0. */
  const ONE := 0x3FF0_0000_0000_0000

  datatype Point = Point(x: int, y: int, speed: int, width: int, direction: int, pressure: int)

  datatype Stroke = Stroke(pen: int, color: int, argb: Option<int>, scale: int, points: seq<Point>)

  datatype Tag = Tag(index: int, typ: int)

  datatype Result = Unreadable | Truncated(strokes: seq<Stroke>) | Page(strokes: seq<Stroke>, centered: bool)

  const ZERO_STROKE := Stroke(0, 0, None, 0, [])
  const NEW_STROKE := Stroke(0, 0, None, ONE, [])

  /** What a read gives: a value, whether it succeeded, and the bytes that are left. */
  datatype Read<+T> = Read(value: T, ok: bool, rest: seq<Byte>)

  // ---- reads ----

  /** The little-endian number of n bytes from an offset on. */
  function Word(s: seq<Byte>, at: nat, n: nat): (w: nat)
    requires at + n <= |s|
    decreases n
  {
    if n == 0 then 0 else s[at] as int + 256 * Word(s, at + 1, n - 1)
  }

  lemma {:induction false} WordShift(s: seq<Byte>, k: nat, at: nat, n: nat)
    requires k + at + n <= |s|
    ensures Word(s[k..], at, n) == Word(s, k + at, n)
    decreases n
  {
    if n > 0 {
      WordShift(s, k, at + 1, n - 1);
    }
  }

  function TakeWord(s: seq<Byte>, n: nat): (r: Read<nat>)
    ensures |r.rest| == if r.ok then |s| - n else |s|
  {
    if |s| < n then Read(0, false, s) else Read(Word(s, 0, n), true, s[n..])
  }

  function Drop(s: seq<Byte>, n: int): (r: seq<Byte>)
    ensures |r| <= |s|
  {
    if 0 <= n <= |s| then s[n..] else []
  }

  /** A base-128 number of at most ten bytes, on 64 wrapping bits; `place` is what the next byte counts for. */
  function VarintFrom(s: seq<Byte>, place: nat, acc: nat): (r: Read<nat>)
    ensures |r.rest| <= |s| && (s != [] && place < WORD64 ==> |r.rest| < |s|)
    decreases |s|
  {
    if place >= WORD64 || s == [] then Read(0, false, s)
    else
      var v: nat := (acc + (s[0] % 128) * place) % WORD64;
      if s[0] < 128 then Read(v, true, s[1..]) else VarintFrom(s[1..], 128 * place, v)
  }

  function TagFrom(s: seq<Byte>): (r: Read<Tag>)
    ensures |r.rest| <= |s| && (s != [] ==> |r.rest| < |s|)
  {
    var raw := VarintFrom(s, 1, 0);
    Read(Tag(raw.value / 16, raw.value % 16), raw.ok, raw.rest)
  }

  function DropId(s: seq<Byte>): (r: seq<Byte>)
    ensures |r| <= |s|
  {
    if s == [] then [] else VarintFrom(s[1..], 1, 0).rest
  }

  function DropValue(s: seq<Byte>, t: Tag): (r: seq<Byte>)
    ensures |r| <= |s|
  {
    if t.typ == TAG_BYTE1 then Drop(s, 1)
    else if t.typ == TAG_BYTE4 then Drop(s, 4)
    else if t.typ == TAG_BYTE8 then Drop(s, 8)
    else if t.typ == TAG_LENGTH4 then
      var n := TakeWord(s, 4);
      if n.ok then Drop(n.rest, n.value) else n.rest
    else if t.typ == TAG_ID then DropId(s)
    else VarintFrom(s, 1, 0).rest
  }

  class Reader {
    const data: seq<Byte>
    var pos: int

    constructor (data: seq<Byte>)
      ensures this.data == data && pos == 0 && Valid() && Rest() == data
    {
      this.data, pos := data, 0;
    }

    ghost predicate Valid()
      reads this
    {
      0 <= pos <= |data|
    }

    ghost function Rest(): seq<Byte>
      requires Valid()
      reads this
    {
      data[pos..]
    }

    function Remaining(): (n: int)
      reads this
      ensures Valid() ==> n == |Rest()|
    {
      |data| - pos
    }

    /** Move on by n, or to the end when there is less left. */
    method Skip(n: int) returns (ok: bool)
      requires Valid()
      modifies this
      ensures Valid() && ok == (0 <= n <= |data| - old(pos)) && pos == if ok then old(pos) + n else |data|
    {
      if n < 0 || n > Remaining() {
        pos := |data|;
        return false;
      }
      pos := pos + n;
      return true;
    }

    /** Read n bytes as one little-endian number, or nothing. */
    method Take(n: nat) returns (v: nat, ok: bool)
      requires Valid()
      modifies this
      ensures Valid() && ok == (n <= |data| - old(pos))
      ensures if ok then pos == old(pos) + n && v == Word(data, old(pos), n) else pos == old(pos) && v == 0
    {
      if Remaining() < n {
        return 0, false;
      }
      v := Word(data, pos, n);
      pos := pos + n;
      ok := true;
    }

    /** The same read, seen as one on the bytes that are left. */
    method Next(n: nat) returns (v: nat, ok: bool)
      requires Valid()
      modifies this
      ensures Valid() && Read(v, ok, Rest()) == TakeWord(old(Rest()), n)
    {
      if n <= Remaining() {
        WordShift(data, pos, 0, n);
      }
      v, ok := Take(n);
    }

    method Pass(n: int)
      requires Valid()
      modifies this
      ensures Valid() && Rest() == Drop(old(Rest()), n)
    {
      var _ := Skip(n);
    }

    method Varint() returns (v: nat, ok: bool)
      requires Valid()
      modifies this
      ensures Valid() && Read(v, ok, Rest()) == VarintFrom(old(Rest()), 1, 0)
    {
      v := 0;
      var place: nat := 1;
      while place < WORD64
        invariant Valid() && place > 0
        invariant VarintFrom(Rest(), place, v) == VarintFrom(old(Rest()), 1, 0)
        decreases WORD64 - place
      {
        ghost var was := Rest();
        var b, got := Next(1);
        if !got {
          return 0, false;
        }
        assert b == was[0];
        v := (v + (b % 128) * place) % WORD64;
        if b < 128 {
          return v, true;
        }
        place := 128 * place;
      }
      return 0, false;
    }

    method ReadTag() returns (t: Tag, ok: bool)
      requires Valid()
      modifies this
      ensures Valid() && Read(t, ok, Rest()) == TagFrom(old(Rest()))
    {
      var raw;
      raw, ok := Varint();
      t := Tag(raw / 16, raw % 16);
    }

    method SkipId()
      requires Valid()
      modifies this
      ensures Valid() && Rest() == DropId(old(Rest()))
    {
      if Remaining() > 0 {
        Pass(1);
        var _, _ := Varint();
      } else {
        Pass(1);
      }
    }

    method SkipTagValue(t: Tag)
      requires Valid()
      modifies this
      ensures Valid() && Rest() == DropValue(old(Rest()), t)
    {
      if t.typ == TAG_BYTE1 {
        Pass(1);
      } else if t.typ == TAG_BYTE4 {
        Pass(4);
      } else if t.typ == TAG_BYTE8 {
        Pass(8);
      } else if t.typ == TAG_LENGTH4 {
        var n, ok := Next(4);
        if ok {
          Pass(n);
        }
      } else if t.typ == TAG_ID {
        SkipId();
      } else {
        var _, _ := Varint();
      }
    }
  }

  // ---- points ----

  /** A float32 whose exponent is all ones and whose fraction is not zero. */
  predicate IsNaN(bits: int) {
    0x7F80_0000 < bits < 0x8000_0000 || 0xFF80_0000 < bits
  }

  predicate Drawable(p: Point) {
    !IsNaN(p.x) && !IsNaN(p.y)
  }

  function PointAt(s: seq<Byte>): Point
    requires |s| >= 14
  {
    Point(Word(s, 0, 4), Word(s, 4, 4), Word(s, 8, 2), Word(s, 10, 2), Word(s, 12, 1), Word(s, 13, 1))
  }

  function Kept(s: seq<Byte>): seq<Point>
    requires |s| >= 14
  {
    if Drawable(PointAt(s)) then [PointAt(s)] else []
  }

  /** The whole 14-byte frames, without those that are not numbers. */
  function Points(s: seq<Byte>): seq<Point> {
    if |s| < 14 then [] else Kept(s) + Points(s[14..])
  }

  lemma {:induction false} PointsBound(s: seq<Byte>)
    ensures 14 * |Points(s)| <= |s|
  {
    if |s| >= 14 {
      PointsBound(s[14..]);
    }
  }

  /** One frame, field by field. */
  method TakePoint(r: Reader) returns (p: Point)
    requires r.Valid() && r.Remaining() >= 14
    modifies r
    ensures r.Valid() && p == PointAt(old(r.Rest())) && r.Rest() == old(r.Rest())[14..]
  {
    var x, _ := r.Take(4);
    var y, _ := r.Take(4);
    var speed, _ := r.Take(2);
    var width, _ := r.Take(2);
    var direction, _ := r.Take(1);
    var pressure, _ := r.Take(1);
    p := Point(x, y, speed, width, direction, pressure);
  }

  method ParsePoints(d: seq<Byte>) returns (points: seq<Point>)
    ensures points == Points(d)
  {
    var r := new Reader(d);
    points := [];
    while r.Remaining() >= 14
      invariant r.Valid() && fresh(r) && points + Points(r.Rest()) == Points(d)
      decreases r.Remaining()
    {
      ghost var was := r.Rest();
      var p := TakePoint(r);
      Regroup(points, Kept(was), Points(was[14..]));
      if Drawable(p) {
        points := points + [p];
      }
    }
  }

  // ---- version 6 ----

  /** One field of a line value; none when a point block is longer than the value. */
  function ValueStep(t: Tag, s: seq<Byte>, st: Stroke): (r: Option<Read<Stroke>>)
    ensures r.Some? ==> |r.value.rest| <= |s|
  {
    if t == Tag(1, TAG_BYTE4) then var v := TakeWord(s, 4); Some(Read(st.(pen := v.value), true, v.rest))
    else if t == Tag(2, TAG_BYTE4) then var v := TakeWord(s, 4); Some(Read(st.(color := v.value), true, v.rest))
    else if t == Tag(3, TAG_BYTE8) then var v := TakeWord(s, 8); Some(Read(st.(scale := v.value), true, v.rest))
    else if t == Tag(5, TAG_LENGTH4) then
      var n := TakeWord(s, 4);
      if !n.ok || n.value > |n.rest| then None
      else Some(Read(st.(points := Points(n.rest[..n.value])), true, n.rest[n.value..]))
    else if t == Tag(8, TAG_BYTE4) then var v := TakeWord(s, 4); Some(Read(st.(argb := Some(v.value)), true, v.rest))
    else Some(Read(st, true, DropValue(s, t)))
  }

  function ValueFrom(s: seq<Byte>, st: Stroke): (Stroke, bool)
    decreases |s|
  {
    if s == [] || !TagFrom(s).ok then (st, true)
    else
      var t := TagFrom(s);
      match ValueStep(t.value, t.rest, st)
      case None => (st, false)
      case Some(next) => ValueFrom(next.rest, next.value)
  }

  function LineValue(s: seq<Byte>): (Stroke, bool) {
    if s == [] || s[0] != ITEM_LINE then (ZERO_STROKE, false) else ValueFrom(s[1..], NEW_STROKE)
  }

  /** One field, read after its tag. */
  method TakeField(r: Reader, t: Tag, st: Stroke) returns (next: Stroke, ok: bool)
    requires r.Valid()
    modifies r
    ensures r.Valid()
    ensures ValueStep(t, old(r.Rest()), st) == if ok then Some(Read(next, true, r.Rest())) else None
    ensures !ok ==> next == st
  {
    next, ok := st, true;
    if t.index == 1 && t.typ == TAG_BYTE4 {
      var v, _ := r.Next(4);
      next := st.(pen := v);
    } else if t.index == 2 && t.typ == TAG_BYTE4 {
      var v, _ := r.Next(4);
      next := st.(color := v);
    } else if t.index == 3 && t.typ == TAG_BYTE8 {
      var v, _ := r.Next(8);
      next := st.(scale := v);
    } else if t.index == 4 && t.typ == TAG_BYTE4 {
      r.Pass(4);
    } else if t.index == 5 && t.typ == TAG_LENGTH4 {
      var n, sized := r.Next(4);
      if !sized || n > r.Remaining() {
        return st, false;
      }
      assert r.data[r.pos..r.pos + n] == r.Rest()[..n];
      var points := ParsePoints(r.data[r.pos..r.pos + n]);
      next := st.(points := points);
      r.Pass(n);
    } else if t.index == 8 && t.typ == TAG_BYTE4 {
      var v, _ := r.Next(4);
      next := st.(argb := Some(v));
    } else if t.typ == TAG_ID {
      r.SkipId();
    } else {
      r.SkipTagValue(t);
    }
  }

  method ParseLineValue(d: seq<Byte>) returns (st: Stroke, ok: bool)
    ensures (st, ok) == LineValue(d)
  {
    var r := new Reader(d);
    var item, got := r.Next(1);
    assert got ==> item == d[0];
    if !got || item != ITEM_LINE {
      return ZERO_STROKE, false;
    }
    st, ok := NEW_STROKE, true;
    while r.Remaining() > 0
      invariant r.Valid() && fresh(r) && ok && ValueFrom(r.Rest(), st) == LineValue(d)
      decreases r.Remaining()
    {
      var t, more := r.ReadTag();
      if !more {
        break;
      }
      st, ok := TakeField(r, t, st);
      if !ok {
        return;
      }
    }
  }

  datatype ItemStep = Found(value: seq<Byte>) | Nothing | More(rest: seq<Byte>, deleted: nat)

  /** One field of an item: its value, a deletion mark, or something to pass over. */
  function ItemField(t: Tag, s: seq<Byte>, deleted: nat): (r: ItemStep)
    ensures r.More? ==> |r.rest| <= |s|
    ensures r.Found? ==> |r.value| <= |s|
  {
    if t == Tag(5, TAG_BYTE4) then var v := TakeWord(s, 4); More(v.rest, v.value)
    else if t == Tag(6, TAG_LENGTH4) then
      var n := TakeWord(s, 4);
      if !n.ok || n.value > |n.rest| || deleted > 0 then Nothing else Found(n.rest[..n.value])
    else More(DropValue(s, t), deleted)
  }

  /** The bytes of an item's value, unless there is none that is whole or the item is deleted. */
  function ItemValue(s: seq<Byte>, deleted: nat): (r: Option<seq<Byte>>)
    ensures r.Some? ==> |r.value| <= |s|
    decreases |s|
  {
    if s == [] || !TagFrom(s).ok then None
    else
      var t := TagFrom(s);
      match ItemField(t.value, t.rest, deleted)
      case Found(v) => Some(v)
      case Nothing => None
      case More(rest, mark) => ItemValue(rest, mark)
  }

  function LineItem(s: seq<Byte>): (Stroke, bool) {
    match ItemValue(s, 0)
    case None => (ZERO_STROKE, false)
    case Some(v) => LineValue(v)
  }

  method ParseLineItem(d: seq<Byte>) returns (st: Stroke, ok: bool)
    ensures (st, ok) == LineItem(d)
  {
    var value := FindLineValue(d);
    if value == None {
      return ZERO_STROKE, false;
    }
    st, ok := ParseLineValue(value.value);
  }

  method FindLineValue(d: seq<Byte>) returns (value: Option<seq<Byte>>)
    ensures value == ItemValue(d, 0)
  {
    var r := new Reader(d);
    var deleted: nat := 0;
    while r.Remaining() > 0
      invariant r.Valid() && fresh(r) && ItemValue(r.Rest(), deleted) == ItemValue(d, 0)
      decreases r.Remaining()
    {
      var t, more := r.ReadTag();
      if !more {
        return None;
      }
      var step := TakeItemField(r, t, deleted);
      match step
      case Found(v) =>
        return Some(v);
      case Nothing =>
        return None;
      case More(_, mark) =>
        deleted := mark;
    }
    return None;
  }

  method TakeItemField(r: Reader, t: Tag, deleted: nat) returns (step: ItemStep)
    requires r.Valid()
    modifies r
    ensures r.Valid() && step == ItemField(t, old(r.Rest()), deleted) && (step.More? ==> r.Rest() == step.rest)
  {
    var mark := deleted;
    if t.index == 1 && t.typ == TAG_ID {
      r.SkipId();
    } else if 2 <= t.index <= 4 && t.typ == TAG_ID {
      r.SkipId();
    } else if t.index == 5 && t.typ == TAG_BYTE4 {
      var v, _ := r.Next(4);
      mark := v;
    } else if t.index == 6 && t.typ == TAG_LENGTH4 {
      var n, sized := r.Next(4);
      if !sized || n > r.Remaining() || deleted > 0 {
        return Nothing;
      }
      assert r.data[r.pos..r.pos + n] == r.Rest()[..n];
      return Found(r.data[r.pos..r.pos + n]);
    } else {
      r.SkipTagValue(t);
    }
    return More(r.data[r.pos..], mark);
  }

  /** What a block adds to the page: a line item that parses and has points. */
  function Shown(typ: int, body: seq<Byte>): seq<Stroke> {
    var (st, ok) := LineItem(body);
    if typ == BLOCK_LINE_ITEM && body != [] && ok && st.points != [] then [st] else []
  }

  /** A block is its length, three bytes, its type and its content; this is where the one at an offset ends, if it fits. */
  function BlockEnd(d: seq<Byte>, at: nat): (end: Option<nat>)
    ensures end.Some? ==> at + 8 <= end.value <= |d|
  {
    if at + 8 > |d| || at + 8 + Word(d, at, 4) > |d| then None else Some(at + 8 + Word(d, at, 4))
  }

  function ShownAt(d: seq<Byte>, at: nat, end: nat): seq<Stroke>
    requires at + 8 <= end <= |d|
  {
    Shown(d[at + 7], d[at + 8..end])
  }

  /** A block that does not fit ends the page. */
  function Blocks(d: seq<Byte>, at: nat, done: seq<Stroke>): seq<Stroke>
    decreases |d| - at
  {
    match BlockEnd(d, at)
    case None => done
    case Some(end) => Blocks(d, end, done + ShownAt(d, at, end))
  }

  /** The length and the type of the next block. */
  method TakeBlockHead(r: Reader) returns (blockLen: nat, blockType: nat)
    requires r.Valid() && r.Remaining() >= 8
    modifies r
    ensures var at := old(r.pos);
            r.Valid() && r.pos == at + 8 && blockLen == Word(r.data, at, 4) && blockType == r.data[at + 7]
  {
    var n, _ := r.Take(4);
    var _ := r.Skip(3);
    var typ, _ := r.Take(1);
    return n, typ;
  }

  method ParseBlock(blockType: nat, body: seq<Byte>) returns (shown: seq<Stroke>)
    ensures shown == Shown(blockType, body)
  {
    shown := [];
    if blockType == BLOCK_LINE_ITEM && |body| > 0 {
      var st, whole := ParseLineItem(body);
      if whole && |st.points| > 0 {
        shown := [st];
      }
    }
  }

  /** One block: whether the page goes on after it. */
  method TakeBlock(r: Reader, done: seq<Stroke>) returns (strokes: seq<Stroke>, more: bool)
    requires r.Valid() && r.Remaining() >= 8
    modifies r
    ensures r.Valid()
    ensures match BlockEnd(r.data, old(r.pos))
            case None => !more && strokes == done
            case Some(end) => more && r.pos == end && strokes == done + ShownAt(r.data, old(r.pos), end)
  {
    var blockLen, blockType := TakeBlockHead(r);
    var start := r.pos;
    var end := start + blockLen;
    if end < start || end > |r.data| {
      return done, false;
    }
    var shown := ParseBlock(blockType, r.data[start..end]);
    r.pos := end;
    return done + shown, true;
  }

  method ParseV6(d: seq<Byte>) returns (p: Result)
    requires |d| >= HEADER_LEN
    ensures p == Page(Blocks(d, HEADER_LEN, []), true)
  {
    var strokes: seq<Stroke> := [];
    var r := new Reader(d);
    var _ := r.Skip(HEADER_LEN);
    while r.Remaining() >= 8
      invariant r.Valid() && fresh(r) && r.data == d && Blocks(d, r.pos, strokes) == Blocks(d, HEADER_LEN, [])
      decreases r.Remaining()
    {
      var more;
      strokes, more := TakeBlock(r, strokes);
      if !more {
        return Page(strokes, true);
      }
    }
    return Page(strokes, true);
  }

  // ---- version 5 ----

  /** A 24-byte sample: its own width counts unless it is a number that is not positive. */
  function SampleAt(d: seq<Byte>, at: nat, width: int): Point
    requires at + 24 <= |d|
  {
    Point(Word(d, at, 4), Word(d, at + 4, 4), 0, OwnWidth(Word(d, at + 16, 4), width), 0, Word(d, at + 8, 4))
  }

  function OwnWidth(w: int, width: int): int {
    if IsNaN(w) || 0 < w < 0x8000_0000 then w else width
  }

  function Samples(d: seq<Byte>, at: nat, count: nat, width: int): (r: seq<Point>)
    requires at + 24 * count <= |d|
    ensures |r| == count
  {
    seq(count, i requires 0 <= i < count => SampleAt(d, at + 24 * i, width))
  }

  /** What a read at an offset gives, whether it succeeded, and where it ended. */
  datatype At<+T> = At(value: T, ok: bool, next: nat)

  /** A 24-byte head and 24 bytes for each sample. */
  function StrokeAt(d: seq<Byte>, at: nat): (r: At<Stroke>)
    ensures r.ok ==> r.next == at + 24 + 24 * |r.value.points| && r.next <= |d|
  {
    if at + 24 > |d| || at + 24 + 24 * Word(d, at + 20, 4) > |d| then At(ZERO_STROKE, false, at)
    else
      var count := Word(d, at + 20, 4);
      var points := Samples(d, at + 24, count, Word(d, at + 12, 4));
      At(Stroke(Word(d, at, 4), Word(d, at + 4, 4), None, ONE, points), true, at + 24 + 24 * count)
  }

  function NonEmpty(st: Stroke): seq<Stroke> {
    if st.points != [] then [st] else []
  }

  /** What comes before a failure is kept. */
  function StrokesAt(d: seq<Byte>, at: nat, count: nat, done: seq<Stroke>): (r: At<seq<Stroke>>)
    decreases count
  {
    if count == 0 then At(done, true, at)
    else
      var head := StrokeAt(d, at);
      if !head.ok then At(done, false, at) else StrokesAt(d, head.next, count - 1, done + NonEmpty(head.value))
  }

  function LayersAt(d: seq<Byte>, at: nat, count: nat, done: seq<Stroke>): (r: At<seq<Stroke>>)
    decreases count
  {
    if count == 0 then At(done, true, at)
    else if at + 4 > |d| then At(done, false, at)
    else
      var layer := StrokesAt(d, at + 4, Word(d, at, 4), done);
      if !layer.ok then layer else LayersAt(d, layer.next, count - 1, layer.value)
  }

  function PageV5(d: seq<Byte>, at: nat): Result {
    if at + 4 > |d| then Truncated([])
    else
      var layers := LayersAt(d, at + 4, Word(d, at, 4), []);
      if layers.ok then Page(layers.value, false) else Truncated(layers.value)
  }

  method TakeSample(r: Reader, width: int) returns (p: Point, ok: bool)
    requires r.Valid()
    modifies r
    ensures r.Valid() && ok == (old(r.pos) + 24 <= |r.data|)
    ensures ok ==> p == SampleAt(r.data, old(r.pos), width) && r.pos == old(r.pos) + 24
  {
    p := Point(0, 0, 0, 0, 0, 0);
    var x, o1 := r.Take(4);
    if !o1 {
      return p, false;
    }
    var y, o2 := r.Take(4);
    if !o2 {
      return p, false;
    }
    var pressure, o3 := r.Take(4);
    if !o3 {
      return p, false;
    }
    var o4 := r.Skip(4);
    if !o4 {
      return p, false;
    }
    var w, o5 := r.Take(4);
    if !o5 {
      return p, false;
    }
    var o6 := r.Skip(4);
    if !o6 {
      return p, false;
    }
    return Point(x, y, 0, OwnWidth(w, width), 0, pressure), true;
  }

  datatype Head = Head(pen: nat, color: nat, width: nat, segments: nat)

  method TakeHead(r: Reader) returns (h: Head, ok: bool)
    requires r.Valid()
    modifies r
    ensures var at := old(r.pos);
            && r.Valid() && ok == (at + 24 <= |r.data|)
            && (ok ==> r.pos == at + 24
                       && h == Head(Word(r.data, at, 4), Word(r.data, at + 4, 4), Word(r.data, at + 12, 4), Word(r.data, at + 20, 4)))
  {
    h := Head(0, 0, 0, 0);
    var pen, o1 := r.Take(4);
    if !o1 {
      return h, false;
    }
    var color, o2 := r.Take(4);
    if !o2 {
      return h, false;
    }
    var o3 := r.Skip(4);
    if !o3 {
      return h, false;
    }
    var width, o4 := r.Take(4);
    if !o4 {
      return h, false;
    }
    var o5 := r.Skip(4);
    if !o5 {
      return h, false;
    }
    var segments, o6 := r.Take(4);
    if !o6 {
      return h, false;
    }
    return Head(pen, color, width, segments), true;
  }

  method ParseV5Stroke(r: Reader) returns (st: Stroke, ok: bool)
    requires r.Valid()
    modifies r
    ensures r.Valid() && ok == StrokeAt(r.data, old(r.pos)).ok
    ensures ok ==> At(st, true, r.pos) == StrokeAt(r.data, old(r.pos))
  {
    var h, whole := TakeHead(r);
    if !whole {
      return ZERO_STROKE, false;
    }
    ghost var at := r.pos;
    var points: seq<Point> := [];
    for i := 0 to h.segments
      invariant r.Valid() && |points| == i && r.pos == at + 24 * i
      invariant forall k :: 0 <= k < i ==> points[k] == SampleAt(r.data, at + 24 * k, h.width)
    {
      var p, got := TakeSample(r, h.width);
      if !got {
        return ZERO_STROKE, false;
      }
      points := points + [p];
    }
    assert points == Samples(r.data, at, h.segments, h.width);
    return Stroke(h.pen, h.color, None, ONE, points), true;
  }

  method ParseV5Layer(r: Reader, count: nat, done: seq<Stroke>) returns (strokes: seq<Stroke>, ok: bool)
    requires r.Valid()
    modifies r
    ensures var all := StrokesAt(r.data, old(r.pos), count, done);
            r.Valid() && strokes == all.value && ok == all.ok && (ok ==> r.pos == all.next)
  {
    strokes := done;
    for i := 0 to count
      invariant r.Valid() && StrokesAt(r.data, r.pos, count - i, strokes) == StrokesAt(r.data, old(r.pos), count, done)
    {
      var st, whole := ParseV5Stroke(r);
      if !whole {
        return strokes, false;
      }
      strokes := strokes + NonEmpty(st);
    }
    ok := true;
  }

  method ParseV5(d: seq<Byte>) returns (p: Result)
    requires |d| >= HEADER_LEN
    ensures p == PageV5(d, HEADER_LEN)
  {
    var r := new Reader(d);
    var _ := r.Skip(HEADER_LEN);
    var layers, ok := r.Take(4);
    if !ok {
      return Truncated([]);
    }
    var strokes: seq<Stroke> := [];
    for layer := 0 to layers
      invariant r.Valid() && fresh(r) && r.data == d
      invariant LayersAt(d, r.pos, layers - layer, strokes) == LayersAt(d, HEADER_LEN + 4, layers, [])
    {
      var count, counted := r.Take(4);
      if !counted {
        return Truncated(strokes);
      }
      var whole;
      strokes, whole := ParseV5Layer(r, count, strokes);
      if !whole {
        return Truncated(strokes);
      }
    }
    return Page(strokes, false);
  }

  // ---- the file ----

  predicate HasPrefix(d: seq<Byte>, text: string) {
    |text| <= |d| && forall i | 0 <= i < |text| :: d[i] == text[i] as int
  }

  /** The file starts with the characters of a text, as bytes. */
  ghost predicate Begins(d: seq<Byte>, text: string) {
    forall i :: 0 <= i < |text| ==> i < |d| && d[i] == text[i] as int
  }

  method Parse(d: seq<Byte>) returns (p: Result)
    ensures p == if |d| >= 43 && Begins(d, "reMarkable .lines file, version=6") then Page(Blocks(d, 43, []), true)
                 else if |d| >= 43 && Begins(d, "reMarkable .lines file, version=5") then PageV5(d, 43)
                 else Unreadable
  {
    if |d| < HEADER_LEN {
      return Unreadable;
    }
    if HasPrefix(d, HEADER_V6) {
      p := ParseV6(d);
    } else if HasPrefix(d, HEADER_V5) {
      p := ParseV5(d);
    } else {
      p := Unreadable;
    }
  }

  // ---- bounds ----

  function TotalPoints(ss: seq<Stroke>): nat {
    if ss == [] then 0 else |ss[0].points| + TotalPoints(ss[1..])
  }

  lemma {:induction false} TotalConcat(a: seq<Stroke>, b: seq<Stroke>)
    ensures TotalPoints(a + b) == TotalPoints(a) + TotalPoints(b)
  {
    if a == [] {
      assert a + b == b;
    } else {
      assert (a + b)[1..] == a[1..] + b;
      TotalConcat(a[1..], b);
    }
  }

  lemma {:induction false} ValueBound(s: seq<Byte>, st: Stroke, room: nat)
    requires 14 * |st.points| <= room && |s| <= room
    ensures 14 * |ValueFrom(s, st).0.points| <= room
    decreases |s|
  {
    if s != [] && TagFrom(s).ok {
      var t := TagFrom(s);
      var step := ValueStep(t.value, t.rest, st);
      if step.Some? {
        StepBound(t.value, t.rest, st, room);
        ValueBound(step.value.rest, step.value.value, room);
      }
    }
  }

  lemma StepBound(t: Tag, s: seq<Byte>, st: Stroke, room: nat)
    requires 14 * |st.points| <= room && |s| <= room && ValueStep(t, s, st).Some?
    ensures 14 * |ValueStep(t, s, st).value.value.points| <= room
  {
    if t == Tag(5, TAG_LENGTH4) {
      var n := TakeWord(s, 4);
      PointsBound(n.rest[..n.value]);
    }
  }

  lemma ItemBound(s: seq<Byte>)
    ensures 14 * |LineItem(s).0.points| <= |s|
  {
    var value := ItemValue(s, 0);
    if value.Some? && value.value != [] {
      ValueBound(value.value[1..], NEW_STROKE, |value.value|);
    }
  }

  lemma ShownBound(typ: int, body: seq<Byte>)
    ensures 14 * TotalPoints(Shown(typ, body)) <= |body|
  {
    ItemBound(body);
    var one := Shown(typ, body);
    if one != [] {
      assert one[1..] == [];
    }
  }

  lemma {:induction false} BlocksBound(d: seq<Byte>, at: nat, done: seq<Stroke>)
    requires at <= |d|
    ensures 14 * TotalPoints(Blocks(d, at, done)) <= 14 * TotalPoints(done) + |d| - at
    decreases |d| - at
  {
    match BlockEnd(d, at)
    case None =>
    case Some(end) =>
      var one := ShownAt(d, at, end);
      ShownBound(d[at + 7], d[at + 8..end]);
      TotalConcat(done, one);
      BlocksBound(d, end, done + one);
  }

  /** However long its blocks say they are, a page holds no more points than the bytes have room for. */
  lemma PageV6Bound(d: seq<Byte>)
    requires |d| >= HEADER_LEN
    ensures 14 * TotalPoints(Blocks(d, HEADER_LEN, [])) <= |d| - HEADER_LEN
  {
    BlocksBound(d, HEADER_LEN, []);
  }

  lemma {:induction false} StrokesBound(d: seq<Byte>, at: nat, count: nat, done: seq<Stroke>)
    requires at <= |d|
    ensures var r := StrokesAt(d, at, count, done);
            && 24 * TotalPoints(r.value) <= 24 * TotalPoints(done) + |d| - at
            && (r.ok ==> 24 * TotalPoints(r.value) == 24 * TotalPoints(done) + r.next - at - 24 * count && at <= r.next <= |d|)
    decreases count
  {
    var head := StrokeAt(d, at);
    if count > 0 && head.ok {
      TotalConcat(done, NonEmpty(head.value));
      StrokesBound(d, head.next, count - 1, done + NonEmpty(head.value));
    }
  }

  lemma {:induction false} LayersBound(d: seq<Byte>, at: nat, count: nat, done: seq<Stroke>)
    requires at <= |d|
    ensures 24 * TotalPoints(LayersAt(d, at, count, done).value) <= 24 * TotalPoints(done) + |d| - at
    decreases count
  {
    if count > 0 && at + 4 <= |d| {
      var layer := StrokesAt(d, at + 4, Word(d, at, 4), done);
      StrokesBound(d, at + 4, Word(d, at, 4), done);
      if layer.ok {
        LayersBound(d, layer.next, count - 1, layer.value);
      }
    }
  }

  /** The same for version 5: 24 bytes a point, after the header and the layer count. */
  lemma PageV5Bound(d: seq<Byte>)
    requires |d| >= HEADER_LEN
    ensures !PageV5(d, HEADER_LEN).Unreadable? && 24 * TotalPoints(PageV5(d, HEADER_LEN).strokes) <= |d| - HEADER_LEN
  {
    if |d| >= HEADER_LEN + 4 {
      LayersBound(d, HEADER_LEN + 4, Word(d, HEADER_LEN, 4), []);
    }
  }
}
