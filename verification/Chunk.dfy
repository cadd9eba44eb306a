/**
 Splitting page text into embedding-sized chunks. Text is UTF-8 bytes: lengths and cuts are counted
 in bytes, while white space is that of Unicode and may take up to three. A substring is a span of
 the one text, as it is in memory.
 */
module Chunk {
  import opened Basics
  import ICal

  type Text = seq<Byte>

  const CHUNK_MAX := 1500

  datatype Span = Span(lo: nat, hi: nat)

  // ---- white space ----

  /** The bytes a chunk may be cut at: blank, tab, newline, carriage return. */
  predicate IsBreak(b: Byte) {
    b == 0x20 || b == 0x09 || b == 0x0A || b == 0x0D
  }

  predicate Space1(b: Byte) {
    0x09 <= b <= 0x0D || b == 0x20
  }

  /** U+0085 and U+00A0. */
  predicate Space2(a: Byte, b: Byte) {
    a == 0xC2 && (b == 0x85 || b == 0xA0)
  }

  /** U+1680, U+2000 to U+200A, U+2028, U+2029, U+202F, U+205F and U+3000. */
  predicate Space3(a: Byte, b: Byte, c: Byte) {
    || (a == 0xE1 && b == 0x9A && c == 0x80)
    || (a == 0xE2 && b == 0x80 && (0x80 <= c <= 0x8A || c == 0xA8 || c == 0xA9 || c == 0xAF))
    || (a == 0xE2 && b == 0x81 && c == 0x9F)
    || (a == 0xE3 && b == 0x80 && c == 0x80)
  }

  /** How many bytes the white space character at i takes, or 0 if there is none before hi. */
  function SpaceAt(d: Text, i: nat, hi: nat): (n: nat)
    requires i <= hi <= |d|
    ensures i + n <= hi
  {
    if i + 1 <= hi && Space1(d[i]) then 1
    else if i + 2 <= hi && Space2(d[i], d[i + 1]) then 2
    else if i + 3 <= hi && Space3(d[i], d[i + 1], d[i + 2]) then 3
    else 0
  }

  /** The same for the character that ends at j. */
  function SpaceBefore(d: Text, lo: nat, j: nat): (n: nat)
    requires lo <= j <= |d|
    ensures lo + n <= j && (n > 0 ==> SpaceAt(d, j - n, j) == n)
  {
    if lo + 1 <= j && Space1(d[j - 1]) then 1
    else if lo + 2 <= j && Space2(d[j - 2], d[j - 1]) then 2
    else if lo + 3 <= j && Space3(d[j - 3], d[j - 2], d[j - 1]) then 3
    else 0
  }

  /** Nothing but white space from i to j. */
  predicate Gap(d: Text, i: nat, j: nat)
    requires i <= j <= |d|
    decreases j - i
  {
    i == j || (SpaceAt(d, i, j) > 0 && Gap(d, i + SpaceAt(d, i, j), j))
  }

  lemma {:induction false} GapJoin(d: Text, i: nat, j: nat, k: nat)
    requires i <= j <= k <= |d| && Gap(d, i, j) && Gap(d, j, k)
    ensures Gap(d, i, k)
    decreases j - i
  {
    if i < j {
      GapJoin(d, i + SpaceAt(d, i, j), j, k);
    }
  }

  lemma GapOne(d: Text, i: nat, j: nat)
    requires i <= j <= |d| && SpaceAt(d, i, j) == j - i
    ensures Gap(d, i, j)
  {
  }

  function TrimLeft(d: Text, lo: nat, hi: nat): (r: nat)
    requires lo <= hi <= |d|
    ensures lo <= r <= hi && SpaceAt(d, r, hi) == 0
    decreases hi - lo
  {
    if SpaceAt(d, lo, hi) > 0 then TrimLeft(d, lo + SpaceAt(d, lo, hi), hi) else lo
  }

  function TrimRight(d: Text, lo: nat, hi: nat): (r: nat)
    requires lo <= hi <= |d|
    ensures lo <= r <= hi && SpaceBefore(d, lo, r) == 0
    decreases hi - lo
  {
    if SpaceBefore(d, lo, hi) > 0 then TrimRight(d, lo, hi - SpaceBefore(d, lo, hi)) else hi
  }

  function TrimBreaks(d: Text, lo: nat, hi: nat): (r: nat)
    requires lo <= hi <= |d|
    ensures lo <= r <= hi && (r == hi || !IsBreak(d[r])) && (lo < hi && IsBreak(d[lo]) ==> lo < r)
    decreases hi - lo
  {
    if lo < hi && IsBreak(d[lo]) then TrimBreaks(d, lo + 1, hi) else lo
  }

  /** A span without the white space at its ends. */
  function Trimmed(d: Text, lo: nat, hi: nat): (t: Span)
    requires lo <= hi <= |d|
    ensures lo <= t.lo <= t.hi <= hi
  {
    var l := TrimLeft(d, lo, hi);
    Span(l, TrimRight(d, l, hi))
  }

  lemma {:induction false} LeftIsGap(d: Text, lo: nat, hi: nat)
    requires lo <= hi <= |d|
    ensures Gap(d, lo, TrimLeft(d, lo, hi))
    decreases hi - lo
  {
    var n := SpaceAt(d, lo, hi);
    if n > 0 {
      LeftIsGap(d, lo + n, hi);
      assert SpaceAt(d, lo, TrimLeft(d, lo, hi)) == n;
    }
  }

  lemma {:induction false} RightIsGap(d: Text, lo: nat, hi: nat)
    requires lo <= hi <= |d|
    ensures Gap(d, TrimRight(d, lo, hi), hi)
    decreases hi - lo
  {
    var n := SpaceBefore(d, lo, hi);
    if n > 0 {
      RightIsGap(d, lo, hi - n);
      GapOne(d, hi - n, hi);
      GapJoin(d, TrimRight(d, lo, hi), hi - n, hi);
    }
  }

  lemma {:induction false} BreaksAreGap(d: Text, lo: nat, hi: nat)
    requires lo <= hi <= |d|
    ensures Gap(d, lo, TrimBreaks(d, lo, hi))
    decreases hi - lo
  {
    if lo < hi && IsBreak(d[lo]) {
      BreaksAreGap(d, lo + 1, hi);
    }
  }

  /** What a trim takes off either end is white space. */
  lemma TrimGaps(d: Text, lo: nat, hi: nat)
    requires lo <= hi <= |d|
    ensures Gap(d, lo, Trimmed(d, lo, hi).lo) && Gap(d, Trimmed(d, lo, hi).hi, hi)
  {
    LeftIsGap(d, lo, hi);
    RightIsGap(d, TrimLeft(d, lo, hi), hi);
  }

  lemma TrimTwice(d: Text, lo: nat, hi: nat)
    requires lo <= hi <= |d|
    ensures var t := Trimmed(d, lo, hi); Trimmed(d, t.lo, t.hi) == t && (t.lo < t.hi ==> !IsBreak(d[t.lo]))
  {
  }

  lemma {:induction false} GapTrimsAway(d: Text, lo: nat, hi: nat)
    requires lo <= hi <= |d| && Gap(d, lo, hi)
    ensures TrimLeft(d, lo, hi) == hi
    decreases hi - lo
  {
    if lo < hi {
      GapTrimsAway(d, lo + SpaceAt(d, lo, hi), hi);
    }
  }

  // ---- the chunks ----

  /** The last break from lo on, or lo - 1. */
  function LastBreak(d: Text, lo: nat, hi: nat): (i: int)
    requires lo <= hi <= |d|
    ensures lo - 1 <= i < hi
    ensures i >= lo ==> IsBreak(d[i])
    ensures forall k :: lo <= k < hi && i < k ==> !IsBreak(d[k])
    decreases hi - lo
  {
    if lo == hi then lo - 1
    else if IsBreak(d[hi - 1]) then hi - 1
    else LastBreak(d, lo, hi - 1)
  }

  /** Where the head of a long span ends: at the last break in reach, or at the limit. */
  function CutAt(d: Text, lo: nat, hi: nat): (cut: nat)
    requires lo + CHUNK_MAX < hi <= |d|
    ensures lo < cut <= lo + CHUNK_MAX
    ensures IsBreak(d[cut]) || (cut == lo + CHUNK_MAX && forall k :: lo < k <= lo + CHUNK_MAX ==> !IsBreak(d[k]))
    ensures forall k :: cut < k <= lo + CHUNK_MAX ==> !IsBreak(d[k])
  {
    var cut := LastBreak(d, lo, lo + CHUNK_MAX + 1);
    if cut <= lo then lo + CHUNK_MAX else cut
  }

  /** A cut inside a stretch happens only when nothing in reach is a blank, a tab or the end of a line; otherwise at the last of these. */
  lemma CutAtLast(d: Text, lo: nat, hi: nat)
    requires lo + 1500 < hi <= |d|
    ensures var cut := CutAt(d, lo, hi);
            && lo < cut <= lo + 1500
            && (forall k :: cut < k <= lo + 1500 ==> d[k] !in {0x20, 0x09, 0x0A, 0x0D})
            && (d[cut] in {0x20, 0x09, 0x0A, 0x0D} || (cut == lo + 1500 && forall k :: lo < k <= lo + 1500 ==> d[k] !in {0x20, 0x09, 0x0A, 0x0D}))
  {
  }

  /** The trimmed span, unless nothing is left of it. */
  function Piece(d: Text, lo: nat, hi: nat): seq<Span>
    requires lo <= hi <= |d|
  {
    var t := Trimmed(d, lo, hi);
    if t.lo == t.hi then [] else [t]
  }

  function Pieces(d: Text, lo: nat, hi: nat, done: seq<Span>): seq<Span>
    requires lo <= hi <= |d|
    decreases hi - lo
  {
    if hi - lo <= CHUNK_MAX then done + Piece(d, lo, hi)
    else
      var cut := CutAt(d, lo, hi);
      Pieces(d, TrimBreaks(d, cut, hi), hi, done + Piece(d, lo, cut))
  }

  /** The chunks of a text, as spans. */
  function Chunks(d: Text): seq<Span> {
    var t := Trimmed(d, 0, |d|);
    Pieces(d, t.lo, t.hi, [])
  }

  /** No white space character at either end. */
  ghost predicate Tight(d: Text, c: Span) {
    && c.lo < c.hi <= |d| && SpaceAt(d, c.lo, c.hi) == 0
    && forall i :: c.lo <= i < c.hi ==> SpaceAt(d, i, c.hi) != c.hi - i
  }

  lemma TrimmedTight(d: Text, lo: nat, hi: nat)
    requires lo <= hi <= |d| && Trimmed(d, lo, hi).lo < Trimmed(d, lo, hi).hi
    ensures Tight(d, Trimmed(d, lo, hi))
  {
    var l := TrimLeft(d, lo, hi);
    var h := TrimRight(d, l, hi);
    assert SpaceBefore(d, l, h) == 0;
    forall i | l <= i < h
      ensures SpaceAt(d, i, h) != h - i
    {
      NoneEnds(d, l, i, h);
    }
  }

  lemma NoneEnds(d: Text, lo: nat, i: nat, j: nat)
    requires lo <= i < j <= |d| && SpaceBefore(d, lo, j) == 0
    ensures SpaceAt(d, i, j) != j - i
  {
    assert SpaceAt(d, i, j) in {0, 1, 2, 3};
  }

  lemma {:induction false} PiecesTight(d: Text, lo: nat, hi: nat, done: seq<Span>)
    requires lo <= hi <= |d| && forall k :: 0 <= k < |done| ==> Tight(d, done[k])
    ensures forall k :: 0 <= k < |Pieces(d, lo, hi, done)| ==> Tight(d, Pieces(d, lo, hi, done)[k])
    decreases hi - lo
  {
    var end := if hi - lo <= CHUNK_MAX then hi else CutAt(d, lo, hi);
    if Trimmed(d, lo, end).lo < Trimmed(d, lo, end).hi {
      TrimmedTight(d, lo, end);
    }
    if hi - lo > CHUNK_MAX {
      PiecesTight(d, TrimBreaks(d, end, hi), hi, done + Piece(d, lo, end));
    }
  }

  predicate Inside(d: Text, c: Span) {
    c.lo < c.hi <= |d|
  }

  /** A list of byte strings is what a list of spans says. */
  ghost predicate Reads(d: Text, spans: seq<Span>, texts: seq<Text>) {
    |texts| == |spans| && forall k :: 0 <= k < |spans| ==> Inside(d, spans[k]) && texts[k] == d[spans[k].lo..spans[k].hi]
  }

  ghost function ChunkTexts(d: Text): (r: seq<Text>)
    ensures Reads(d, Chunks(d), r)
  {
    ChunksLaid(d);
    var cs := Chunks(d);
    seq(|cs|, k requires 0 <= k < |cs| => assert Inside(d, cs[k]); d[cs[k].lo..cs[k].hi])
  }

  method ChunkText(text: Text) returns (chunks: seq<Text>)
    ensures chunks == ChunkTexts(text) && Reads(text, Chunks(text), chunks)
    ensures forall c :: c in chunks ==> 0 < |c| <= 1500
    ensures var t := Trimmed(text, 0, |text|); t.lo < t.hi <= t.lo + 1500 ==> chunks == [text[t.lo..t.hi]]
    ensures Laid(text, Chunks(text), |text|, ShortWords(text))
    ensures forall k :: 0 <= k < |chunks| ==> Tight(text, Chunks(text)[k])
    ensures chunks == [] <==> Gap(text, 0, |text|)
  {
    var t := Trimmed(text, 0, |text|);
    SmallText(text);
    if t.lo == t.hi {
      chunks := [];
    } else if t.hi - t.lo <= CHUNK_MAX {
      chunks := [text[t.lo..t.hi]];
    } else {
      chunks := CutAll(text, t);
    }
    ChunksLaid(text);
    ChunksTight(text);
    NoChunksIff(text);
    ReadsUnique(text, Chunks(text), chunks, ChunkTexts(text));
    ReadsSized(text, Chunks(text), chunks);
  }

  lemma ChunksTight(d: Text)
    ensures forall k :: 0 <= k < |Chunks(d)| ==> Tight(d, Chunks(d)[k])
  {
    var t := Trimmed(d, 0, |d|);
    PiecesTight(d, t.lo, t.hi, []);
  }

  /** A text that fits is one chunk, or none. */
  lemma SmallText(d: Text)
    ensures var t := Trimmed(d, 0, |d|); t.hi - t.lo <= CHUNK_MAX ==> Chunks(d) == if t.lo == t.hi then [] else [t]
  {
    TrimTwice(d, 0, |d|);
  }

  lemma ReadsSized(d: Text, cs: seq<Span>, texts: seq<Text>)
    requires Reads(d, cs, texts) && Laid(d, cs, |d|, ShortWords(d))
    ensures forall c :: c in texts ==> 0 < |c| <= CHUNK_MAX
  {
  }

  lemma ReadsUnique(d: Text, spans: seq<Span>, a: seq<Text>, b: seq<Text>)
    requires Reads(d, spans, a) && Reads(d, spans, b)
    ensures a == b
  {
  }

  lemma PiecesStep(d: Text, lo: nat, hi: nat, done: seq<Span>)
    requires lo <= hi <= |d|
    ensures hi - lo > CHUNK_MAX ==>
              var cut := CutAt(d, lo, hi);
              Pieces(d, lo, hi, done) == Pieces(d, TrimBreaks(d, cut, hi), hi, done + Piece(d, lo, cut))
    ensures hi - lo <= CHUNK_MAX ==> Pieces(d, lo, hi, done) == done + Piece(d, lo, hi)
  {
  }

  method CutAll(text: Text, t: Span) returns (chunks: seq<Text>)
    requires t.lo <= t.hi <= |text|
    ensures Reads(text, Pieces(text, t.lo, t.hi, []), chunks)
  {
    chunks := [];
    var lo, hi := t.lo, t.hi;
    ghost var spans: seq<Span> := [];
    ghost var all := Pieces(text, lo, hi, []);
    while hi - lo > CHUNK_MAX
      invariant lo <= hi <= |text| && Reads(text, spans, chunks)
      invariant Pieces(text, lo, hi, spans) == all
      decreases hi - lo
    {
      PiecesStep(text, lo, hi, spans);
      var cut := CutAt(text, lo, hi);
      chunks := AddPiece(text, lo, cut, spans, chunks);
      spans := spans + Piece(text, lo, cut);
      lo := TrimBreaks(text, cut, hi);
    }
    PiecesStep(text, lo, hi, spans);
    chunks := AddPiece(text, lo, hi, spans, chunks);
  }

  /** Trim a head and keep it unless nothing is left. */
  method AddPiece(text: Text, lo: nat, hi: nat, ghost spans: seq<Span>, chunks: seq<Text>) returns (more: seq<Text>)
    requires lo <= hi <= |text| && Reads(text, spans, chunks)
    ensures Reads(text, spans + Piece(text, lo, hi), more)
  {
    var c := Trimmed(text, lo, hi);
    if c.lo < c.hi {
      more := chunks + [text[c.lo..c.hi]];
    } else {
      more := chunks;
      assert spans + [] == spans;
    }
  }

  // ---- nothing but white space is dropped, and stretches stay whole ----

  /** A stretch of the text without a break. */
  ghost predicate Unbroken(d: Text, i: int, j: int) {
    0 <= i <= j <= |d| && forall k :: i <= k < j ==> !IsBreak(d[k])
  }

  /** No stretch without a break is longer than a chunk. */
  ghost predicate ShortWords(d: Text) {
    forall i, j :: Unbroken(d, i, j) ==> j - i <= CHUNK_MAX
  }

  function EndOf(cs: seq<Span>): nat {
    if cs == [] then 0 else cs[|cs| - 1].hi
  }

  /** White space from one offset to a later one, with a break in it if they must be apart. */
  ghost predicate Between(d: Text, i: nat, j: nat, apart: bool) {
    i <= j <= |d| && Gap(d, i, j) && (apart ==> !Unbroken(d, i, j))
  }

  /**
   The chunks lie in the text in order, each within the limit, and only white space lies before,
   between and, up to `end`, after them: no other byte is dropped, and none is changed or moved. If
   `apart`, a break lies between any two, so that no stretch without a break reaches into both.
   */
  ghost predicate Laid(d: Text, cs: seq<Span>, end: nat, apart: bool) {
    && (forall k :: 0 <= k < |cs| ==> Inside(d, cs[k]) && cs[k].hi - cs[k].lo <= CHUNK_MAX)
    && (forall k :: 0 <= k < |cs| ==> Between(d, EndOf(cs[..k]), cs[k].lo, apart && k > 0))
    && Between(d, EndOf(cs), end, false)
  }

  lemma LaidSnoc(d: Text, cs: seq<Span>, c: Span, end: nat, apart: bool)
    requires Laid(d, cs, c.lo, apart) && Inside(d, c) && c.hi - c.lo <= CHUNK_MAX
    requires apart && cs != [] ==> !Unbroken(d, EndOf(cs), c.lo)
    requires Between(d, c.hi, end, false)
    ensures Laid(d, cs + [c], end, apart)
  {
    var all := cs + [c];
    assert all[..|cs|] == cs;
    forall k | 0 <= k < |cs|
      ensures Between(d, EndOf(all[..k]), all[k].lo, apart && k > 0)
    {
      assert all[..k] == cs[..k];
    }
  }

  lemma LaidFurther(d: Text, cs: seq<Span>, i: nat, j: nat, apart: bool)
    requires Laid(d, cs, i, apart) && Between(d, i, j, false)
    ensures Laid(d, cs, j, apart)
  {
    GapJoin(d, EndOf(cs), i, j);
  }

  lemma BrokenFurther(d: Text, i: nat, j: nat, k: nat)
    requires i <= j <= k <= |d| && !Unbroken(d, i, j)
    ensures !Unbroken(d, i, k)
  {
  }

  /** One head: its piece is laid, and only white space is left before its end. */
  lemma HeadLaid(d: Text, cs: seq<Span>, lo: nat, cut: nat, apart: bool)
    requires lo <= cut <= |d| && cut - lo <= CHUNK_MAX && Laid(d, cs, lo, apart)
    requires apart && cs != [] ==> !Unbroken(d, EndOf(cs), lo)
    ensures Laid(d, cs + Piece(d, lo, cut), cut, apart)
  {
    var t := Trimmed(d, lo, cut);
    TrimGaps(d, lo, cut);
    LaidFurther(d, cs, lo, t.lo, apart);
    if t.lo == t.hi {
      assert cs + [] == cs;
      LaidFurther(d, cs, t.lo, cut, apart);
    } else {
      if apart && cs != [] {
        BrokenFurther(d, EndOf(cs), lo, t.lo);
      }
      LaidSnoc(d, cs, t, cut, apart);
    }
  }

  /** The hard cut happens only inside a stretch that is too long. */
  lemma HardCutNeedsLongWord(d: Text, lo: nat, hi: nat)
    requires lo + CHUNK_MAX < hi <= |d| && !IsBreak(d[lo]) && !IsBreak(d[CutAt(d, lo, hi)])
    ensures !ShortWords(d)
  {
    assert Unbroken(d, lo, lo + CHUNK_MAX + 1);
  }

  lemma {:induction false} PiecesLaid(d: Text, cs: seq<Span>, lo: nat, hi: nat, apart: bool)
    requires lo <= hi <= |d| && Laid(d, cs, lo, apart) && (lo < hi ==> !IsBreak(d[lo])) && (apart ==> ShortWords(d))
    requires apart && cs != [] ==> !Unbroken(d, EndOf(cs), lo)
    ensures Laid(d, Pieces(d, lo, hi, cs), hi, apart)
    decreases hi - lo
  {
    if hi - lo <= CHUNK_MAX {
      HeadLaid(d, cs, lo, hi, apart);
    } else {
      var cut := CutAt(d, lo, hi);
      var next, cs' := TrimBreaks(d, cut, hi), cs + Piece(d, lo, cut);
      HeadLaid(d, cs, lo, cut, apart);
      BreaksAreGap(d, cut, hi);
      LaidFurther(d, cs', cut, next, apart);
      if apart {
        if !IsBreak(d[cut]) {
          HardCutNeedsLongWord(d, lo, hi);
        }
        assert EndOf(cs') <= cut < next;
      }
      PiecesLaid(d, cs', next, hi, apart);
    }
  }

  /** For every byte string. */
  lemma ChunksLaid(d: Text)
    ensures Laid(d, Chunks(d), |d|, ShortWords(d))
  {
    var t, apart := Trimmed(d, 0, |d|), ShortWords(d);
    TrimGaps(d, 0, |d|);
    TrimTwice(d, 0, |d|);
    PiecesLaid(d, [], t.lo, t.hi, apart);
    LaidFurther(d, Chunks(d), t.hi, |d|, apart);
  }

  lemma NoChunksIff(d: Text)
    ensures Chunks(d) == [] <==> Gap(d, 0, |d|)
  {
    ChunksLaid(d);
    if Gap(d, 0, |d|) {
      GapTrimsAway(d, 0, |d|);
    }
  }

  // ---- characters ----

  predicate IsCont(b: Byte) {
    0x80 <= b < 0xC0
  }

  /** No overlong form and no surrogate. */
  predicate Second3(a: Byte, b: Byte) {
    (a == 0xE0 ==> b >= 0xA0) && (a == 0xED ==> b < 0xA0)
  }

  /** No overlong form and nothing past U+10FFFF. */
  predicate Second4(a: Byte, b: Byte) {
    (a == 0xF0 ==> b >= 0x90) && (a == 0xF4 ==> b < 0x90)
  }

  /** How many bytes the well-formed character at i takes, or 0 if there is none before hi (section 4 of RFC 3629). */
  function RuneAt(d: Text, i: nat, hi: nat): (n: nat)
    requires i <= hi <= |d|
    ensures i + n <= hi && (n > 0 ==> !IsCont(d[i]) && forall k :: i < k < i + n ==> IsCont(d[k]))
  {
    if i == hi then 0
    else if d[i] < 0x80 then 1
    else if 0xC2 <= d[i] < 0xE0 then (if i + 2 <= hi && IsCont(d[i + 1]) then 2 else 0)
    else if 0xE0 <= d[i] < 0xF0 then
      (if i + 3 <= hi && IsCont(d[i + 1]) && IsCont(d[i + 2]) && Second3(d[i], d[i + 1]) then 3 else 0)
    else if 0xF0 <= d[i] < 0xF5 then
      (if i + 4 <= hi && IsCont(d[i + 1]) && IsCont(d[i + 2]) && IsCont(d[i + 3]) && Second4(d[i], d[i + 1]) then 4 else 0)
    else 0
  }

  /** The bytes of a code point below 0x10000 (section 3 of RFC 3629). */
  function Encoding(c: nat): (b: Text)
    requires c < 0x10000
  {
    if c < 0x80 then [c]
    else if c < 0x800 then [0xC0 + c / 64, 0x80 + c % 64]
    else [0xE0 + c / 4096, 0x80 + (c / 64) % 64, 0x80 + c % 64]
  }

  /** The code point c stands at i and takes n bytes. */
  ghost predicate StandsAt(d: Text, i: nat, hi: nat, c: nat, n: nat)
    requires i <= hi <= |d|
  {
    c < 0x10000 && n == |Encoding(c)| && i + n <= hi && d[i..i + n] == Encoding(c)
  }

  /** White space is found exactly where one of the white space characters of Unicode is encoded. */
  lemma SpaceIff(d: Text, i: nat, hi: nat, n: nat)
    requires i <= hi <= |d| && n > 0
    ensures SpaceAt(d, i, hi) == n <==> exists c: nat :: ICal.WhiteSpace(c) && StandsAt(d, i, hi, c, n)
  {
    if SpaceAt(d, i, hi) == n {
      var c := SpaceFound(d, i, hi, n);
    } else if c: nat :| ICal.WhiteSpace(c) && StandsAt(d, i, hi, c, n) {
      FoundSpace(d, i, hi, c, n);
      assert false;
    }
  }

  lemma SpaceFound(d: Text, i: nat, hi: nat, n: nat) returns (c: nat)
    requires i <= hi <= |d| && n > 0 && SpaceAt(d, i, hi) == n
    ensures ICal.WhiteSpace(c) && StandsAt(d, i, hi, c, n)
  {
    if n == 1 {
      c := d[i];
      assert d[i..i + 1] == [d[i]];
    } else if n == 2 {
      c := d[i + 1];
      assert d[i..i + 2] == [d[i], d[i + 1]];
    } else {
      c := (d[i] as int - 0xE0) * 4096 + (d[i + 1] as int - 0x80) * 64 + (d[i + 2] as int - 0x80);
      assert d[i..i + 3] == [d[i], d[i + 1], d[i + 2]];
    }
  }

  lemma FoundSpace(d: Text, i: nat, hi: nat, c: nat, n: nat)
    requires i <= hi <= |d| && ICal.WhiteSpace(c) && StandsAt(d, i, hi, c, n)
    ensures SpaceAt(d, i, hi) == n
  {
    var e := Encoding(c);
    assert d[i..i + n][0] == d[i] == e[0];
    if n > 1 {
      assert d[i..i + n][1] == d[i + 1] == e[1];
    }
    if n > 2 {
      assert d[i..i + n][2] == d[i + 2] == e[2];
    }
  }

  /** Whole characters from i to j. */
  predicate Utf8(d: Text, i: nat, j: nat)
    requires i <= j <= |d|
    decreases j - i
  {
    i == j || (RuneAt(d, i, j) > 0 && Utf8(d, i + RuneAt(d, i, j), j))
  }

  /** Whole characters in front decide nothing. */
  lemma {:induction false} Utf8Join(d: Text, i: nat, j: nat, k: nat)
    requires i <= j <= k <= |d| && Utf8(d, i, j)
    ensures Utf8(d, i, k) <==> Utf8(d, j, k)
    decreases j - i
  {
    if i < j {
      assert RuneAt(d, i, k) == RuneAt(d, i, j);
      Utf8Join(d, i + RuneAt(d, i, j), j, k);
    }
  }

  /** A prefix of whole characters is one of whole characters exactly when it does not end inside one. */
  lemma {:induction false} PrefixUtf8Iff(d: Text, i: nat, j: nat, k: nat)
    requires i <= j <= k <= |d| && Utf8(d, i, k)
    ensures Utf8(d, i, j) <==> j == k || !IsCont(d[j])
    decreases j - i
  {
    if i < j {
      var n := RuneAt(d, i, k);
      if j < i + n {
        assert RuneAt(d, i, j) == 0;
      } else {
        assert RuneAt(d, i, j) == n;
        PrefixUtf8Iff(d, i + n, j, k);
      }
    } else if i < k {
      assert RuneAt(d, i, k) > 0;
    }
  }

  lemma {:induction false} GapIsUtf8(d: Text, i: nat, j: nat)
    requires i <= j <= |d| && Gap(d, i, j)
    ensures Utf8(d, i, j) && (i < j ==> !IsCont(d[i]))
    decreases j - i
  {
    if i < j {
      assert RuneAt(d, i, j) == SpaceAt(d, i, j);
      GapIsUtf8(d, i + SpaceAt(d, i, j), j);
    }
  }

  /** Trimming neither breaks nor mends a character. */
  lemma TrimUtf8Iff(d: Text, lo: nat, hi: nat)
    requires lo <= hi <= |d|
    ensures var t := Trimmed(d, lo, hi); Utf8(d, t.lo, t.hi) <==> Utf8(d, lo, hi)
  {
    var t := Trimmed(d, lo, hi);
    TrimGaps(d, lo, hi);
    GapIsUtf8(d, lo, t.lo);
    GapIsUtf8(d, t.hi, hi);
    Utf8Join(d, lo, t.lo, hi);
    if Utf8(d, t.lo, t.hi) {
      Utf8Join(d, t.lo, t.hi, hi);
    }
    if Utf8(d, t.lo, hi) {
      PrefixUtf8Iff(d, t.lo, t.hi, hi);
    }
  }

  /** Some hard cut of this span falls inside a character. */
  predicate SplitsRune(d: Text, lo: nat, hi: nat)
    requires lo <= hi <= |d|
    decreases hi - lo
  {
    hi - lo > CHUNK_MAX
    && var cut := CutAt(d, lo, hi); IsCont(d[cut]) || SplitsRune(d, TrimBreaks(d, cut, hi), hi)
  }

  ghost predicate AllUtf8(d: Text, cs: seq<Span>) {
    forall k :: 0 <= k < |cs| ==> cs[k].lo <= cs[k].hi <= |d| && Utf8(d, cs[k].lo, cs[k].hi)
  }

  lemma PieceUtf8Iff(d: Text, cs: seq<Span>, lo: nat, hi: nat)
    requires lo <= hi <= |d|
    ensures AllUtf8(d, cs + Piece(d, lo, hi)) <==> AllUtf8(d, cs) && Utf8(d, lo, hi)
  {
    TrimUtf8Iff(d, lo, hi);
    var t, all := Trimmed(d, lo, hi), cs + Piece(d, lo, hi);
    assert forall k :: 0 <= k < |cs| ==> all[k] == cs[k];
    if t.lo < t.hi {
      assert all[|cs|] == t;
    }
  }

  lemma {:induction false} PiecesKeep(d: Text, lo: nat, hi: nat, cs: seq<Span>)
    requires lo <= hi <= |d|
    ensures cs <= Pieces(d, lo, hi, cs)
    decreases hi - lo
  {
    if hi - lo > CHUNK_MAX {
      var cut := CutAt(d, lo, hi);
      PiecesKeep(d, TrimBreaks(d, cut, hi), hi, cs + Piece(d, lo, cut));
    }
  }

  lemma {:induction false} PiecesUtf8Iff(d: Text, cs: seq<Span>, lo: nat, hi: nat)
    requires lo <= hi <= |d| && Utf8(d, lo, hi) && AllUtf8(d, cs)
    ensures AllUtf8(d, Pieces(d, lo, hi, cs)) <==> !SplitsRune(d, lo, hi)
    decreases hi - lo
  {
    if hi - lo <= CHUNK_MAX {
      PieceUtf8Iff(d, cs, lo, hi);
    } else {
      var cut := CutAt(d, lo, hi);
      var next, cs' := TrimBreaks(d, cut, hi), cs + Piece(d, lo, cut);
      PieceUtf8Iff(d, cs, lo, cut);
      PrefixUtf8Iff(d, lo, cut, hi);
      if IsCont(d[cut]) {
        BadHead(d, cs', next, hi);
      } else {
        RestUtf8(d, lo, cut, hi);
        PiecesUtf8Iff(d, cs', next, hi);
      }
    }
  }

  lemma RestUtf8(d: Text, lo: nat, cut: nat, hi: nat)
    requires lo <= cut <= hi <= |d| && Utf8(d, lo, cut) && Utf8(d, lo, hi)
    ensures Utf8(d, TrimBreaks(d, cut, hi), hi)
  {
    var next := TrimBreaks(d, cut, hi);
    Utf8Join(d, lo, cut, hi);
    BreaksAreGap(d, cut, hi);
    GapIsUtf8(d, cut, next);
    Utf8Join(d, cut, next, hi);
  }

  lemma BadHead(d: Text, cs: seq<Span>, lo: nat, hi: nat)
    requires lo <= hi <= |d| && !AllUtf8(d, cs)
    ensures !AllUtf8(d, Pieces(d, lo, hi, cs))
  {
    PiecesKeep(d, lo, hi, cs);
    var all := Pieces(d, lo, hi, cs);
    assert forall k :: 0 <= k < |cs| ==> all[k] == cs[k];
  }

  /** The chunks of well-formed text are well-formed exactly when no hard cut falls on a continuation byte. */
  lemma ChunksUtf8Iff(d: Text)
    requires Utf8(d, 0, |d|)
    ensures var t := Trimmed(d, 0, |d|); AllUtf8(d, Chunks(d)) <==> !SplitsRune(d, t.lo, t.hi)
  {
    TrimUtf8Iff(d, 0, |d|);
    var t := Trimmed(d, 0, |d|);
    PiecesUtf8Iff(d, [], t.lo, t.hi);
  }

  /** With short words there is no hard cut at all. */
  lemma {:induction false} ShortNeverSplits(d: Text, lo: nat, hi: nat)
    requires lo <= hi <= |d| && ShortWords(d) && (lo < hi ==> !IsBreak(d[lo]))
    ensures !SplitsRune(d, lo, hi)
    decreases hi - lo
  {
    if hi - lo > CHUNK_MAX {
      var cut := CutAt(d, lo, hi);
      if !IsBreak(d[cut]) {
        HardCutNeedsLongWord(d, lo, hi);
      }
      ShortNeverSplits(d, TrimBreaks(d, cut, hi), hi);
    }
  }

  /** "a" followed by the three bytes of U+4E2D again and again. */
  predicate IsHan(d: Text) {
    && |d| % 3 == 1 && d[0] == 0x61
    && forall k :: 0 < k < |d| ==> d[k] == if k % 3 == 1 then 0xE4 else if k % 3 == 2 then 0xB8 else 0xAD
  }

  lemma {:induction false} HanUtf8(d: Text, i: nat)
    requires IsHan(d) && 0 < i <= |d| && i % 3 == 1
    ensures Utf8(d, i, |d|)
    decreases |d| - i
  {
    if i < |d| {
      assert RuneAt(d, i, |d|) == 3;
      HanUtf8(d, i + 3);
    }
  }

  /** A word of 601 characters is cut inside one of them. */
  lemma HardCutSplitsRune(d: Text)
    requires IsHan(d) && |d| == 1 + 3 * 600
    ensures Utf8(d, 0, |d|) && !AllUtf8(d, Chunks(d))
  {
    HanUtf8(d, 1);
    assert RuneAt(d, 0, |d|) == 1;
    assert d[1799] == 0xB8 && d[1800] == 0xAD && d[1798] == 0xE4;
    assert Trimmed(d, 0, |d|) == Span(0, |d|);
    assert forall k :: 0 <= k < |d| ==> !IsBreak(d[k]);
    assert CutAt(d, 0, |d|) == 1500 && d[1500] == 0xAD;
    ChunksUtf8Iff(d);
  }
}
