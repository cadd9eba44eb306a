/** The embedding table and the in-memory cache that must always show the same vectors. */
module Embeddings {
  import opened Basics
  import Chunk

  /** A float32 as its bit pattern. */
  type Bits = x: int | 0 <= x < 0x1_0000_0000

  type Vec = seq<Bits>

  // ---- little-endian encoding ----

  function PutUint32(x: Bits): (r: seq<Byte>)
    ensures |r| == 4
  {
    var x1 := x / 256;
    var x2 := x1 / 256;
    [x % 256, x1 % 256, x2 % 256, x2 / 256]
  }

  function Uint32(b: seq<Byte>): Bits
    requires |b| >= 4
  {
    (b[0] as int) + 256 * (b[1] as int) + 65536 * (b[2] as int) + 16777216 * (b[3] as int)
  }

  function Encode(fs: Vec): (r: seq<Byte>)
    ensures |r| == 4 * |fs|
  {
    if fs == [] then [] else Encode(fs[..|fs| - 1]) + PutUint32(fs[|fs| - 1])
  }

  /** Word i of the bytes, lowest byte first. */
  ghost predicate LittleEndian(b: seq<Byte>, i: nat, x: Bits) {
    4 * i + 4 <= |b| && x == (b[4 * i] as int) + 0x100 * (b[4 * i + 1] as int) + 0x1_0000 * (b[4 * i + 2] as int) + 0x100_0000 * (b[4 * i + 3] as int)
  }

  method Decode(b: seq<Byte>) returns (fs: Vec)
    ensures fs == Decoded(b)
    ensures |fs| == |b| / 4 && forall i :: 0 <= i < |fs| ==> LittleEndian(b, i, fs[i])
  {
    fs := [];
    for i := 0 to |b| / 4
      invariant fs == Decoded(b)[..i]
    {
      fs := fs + [Uint32(b[4 * i..])];
    }
    assert Decoded(b)[..|b| / 4] == Decoded(b);
  }

  function Decoded(b: seq<Byte>): (r: Vec)
    ensures |r| == |b| / 4 && forall i :: 0 <= i < |r| ==> r[i] == Uint32(b[4 * i..])
  {
    DecodedTo(b, |b| / 4)
  }

  function DecodedTo(b: seq<Byte>, n: nat): (r: Vec)
    requires 4 * n <= |b|
    ensures |r| == n && forall i :: 0 <= i < n ==> r[i] == Uint32(b[4 * i..])
  {
    if n == 0 then [] else DecodedTo(b, n - 1) + [Uint32(b[4 * (n - 1)..])]
  }

  lemma {:induction false} EncodeAt(fs: Vec, i: int)
    requires 0 <= i < |fs|
    ensures Encode(fs)[4 * i..4 * i + 4] == PutUint32(fs[i])
  {
    var p := fs[..|fs| - 1];
    if i < |fs| - 1 {
      EncodeAt(p, i);
      assert Encode(fs)[4 * i..4 * i + 4] == Encode(p)[4 * i..4 * i + 4];
    }
  }

  /** What is stored decodes to what was saved. */
  lemma RoundTrip(fs: Vec)
    ensures Decoded(Encode(fs)) == fs
  {
    var b := Encode(fs);
    forall i | 0 <= i < |fs|
      ensures Decoded(b)[i] == fs[i]
    {
      EncodeAt(fs, i);
      WordRoundTrip(fs[i]);
    }
  }

  /** The bytes stored for a vector: four for each number, lowest first. */
  lemma StoredBytes(fs: Vec, i: nat)
    requires i < |fs|
    ensures |Encode(fs)| == 4 * |fs| && LittleEndian(Encode(fs), i, fs[i])
  {
    var b := Encode(fs);
    EncodeAt(fs, i);
    WordRoundTrip(fs[i]);
    var w := b[4 * i..4 * i + 4];
    assert w[0] == b[4 * i] && w[1] == b[4 * i + 1] && w[2] == b[4 * i + 2] && w[3] == b[4 * i + 3];
  }

  lemma WordRoundTrip(x: Bits)
    ensures Uint32(PutUint32(x)) == x
  {
    var x1 := x / 256;
    var x2 := x1 / 256;
    assert x == 256 * x1 + x % 256;
    assert x1 == 256 * x2 + x1 % 256;
    assert x2 == 256 * (x2 / 256) + x2 % 256;
  }

  // ---- table and cache ----

  datatype Key = Key(path: string, page: int, chunk: int)

  datatype Record = Record(key: Key, vec: Vec)

  type View = map<Key, Vec>

  function Shown(table: map<Key, seq<Byte>>): View {
    map k | k in table :: Decoded(table[k])
  }

  ghost predicate Distinct(cache: seq<Record>) {
    forall i, j :: 0 <= i < j < |cache| ==> cache[i].key != cache[j].key
  }

  /** The cache lists every entry of the view once, and nothing else. */
  ghost predicate Lists(cache: seq<Record>, view: View) {
    && Distinct(cache)
    && (forall i :: 0 <= i < |cache| ==> cache[i].key in view && view[cache[i].key] == cache[i].vec)
    && (forall k :: k in view ==> exists i :: 0 <= i < |cache| && cache[i].key == k)
  }

  /** What a delete removes. */
  datatype Scope = WholeNote(path: string) | OnePage(path: string, page: int)

  predicate Covers(s: Scope, k: Key) {
    match s
    case WholeNote(path) => k.path == path
    case OnePage(path, page) => k.path == path && k.page == page
  }

  function Without<T>(m: map<Key, T>, s: Scope): map<Key, T> {
    map k | k in m && !Covers(s, k) :: m[k]
  }

  function Filtered(cache: seq<Record>, s: Scope): seq<Record> {
    if cache == [] then []
    else
      var r := cache[|cache| - 1];
      Filtered(cache[..|cache| - 1], s) + if Covers(s, r.key) then [] else [r]
  }

  lemma {:induction false} FilteredMember(cache: seq<Record>, s: Scope, r: Record)
    ensures r in Filtered(cache, s) <==> r in cache && !Covers(s, r.key)
  {
    if cache != [] {
      FilteredMember(cache[..|cache| - 1], s, r);
      assert cache == cache[..|cache| - 1] + [cache[|cache| - 1]];
    }
  }

  lemma {:induction false} FilteredDistinct(cache: seq<Record>, s: Scope)
    requires Distinct(cache)
    ensures Distinct(Filtered(cache, s))
  {
    if cache != [] {
      var p, last := cache[..|cache| - 1], cache[|cache| - 1];
      FilteredDistinct(p, s);
      var f := Filtered(p, s);
      forall r | r in f
        ensures r.key != last.key
      {
        FilteredMember(p, s, r);
        var i :| 0 <= i < |p| && p[i] == r;
        assert cache[i].key != cache[|cache| - 1].key;
      }
      assert f + [] == f;
    }
  }

  lemma FilteredLists(cache: seq<Record>, view: View, s: Scope)
    requires Lists(cache, view)
    ensures Lists(Filtered(cache, s), Without(view, s))
  {
    var f, v := Filtered(cache, s), Without(view, s);
    FilteredDistinct(cache, s);
    forall i | 0 <= i < |f|
      ensures f[i].key in v && v[f[i].key] == f[i].vec
    {
      FilteredMember(cache, s, f[i]);
      var j :| 0 <= j < |cache| && cache[j] == f[i];
    }
    forall k | k in v
      ensures exists i :: 0 <= i < |f| && f[i].key == k
    {
      var j :| 0 <= j < |cache| && cache[j].key == k;
      FilteredMember(cache, s, cache[j]);
      var i :| 0 <= i < |f| && f[i] == cache[j];
    }
  }

  lemma ShownWithout(table: map<Key, seq<Byte>>, s: Scope)
    ensures Shown(Without(table, s)) == Without(Shown(table), s)
  {
  }

  // ---- rename ----

  function Moved(k: Key, from: string, to: string): Key {
    if k.path == from then k.(path := to) else k
  }

  /** The unique key refuses a rename onto a path that already has the same page and chunk. */
  predicate Clash(keys: set<Key>, from: string, to: string) {
    from != to && exists k :: k in keys && k.path == from && k.(path := to) in keys
  }

  /** The key an entry had before the rename. */
  function Back(keys: set<Key>, k: Key, from: string, to: string): Key {
    if k.path == to && k.(path := from) in keys then k.(path := from) else k
  }

  function MovedKeys(keys: set<Key>, from: string, to: string): (r: set<Key>)
    ensures forall k :: k in r ==> Back(keys, k, from, to) in keys
  {
    var r := set k | k in keys :: Moved(k, from, to);
    assert forall k :: k in keys && k.path == from ==> k.(path := to).(path := from) == k;
    r
  }

  function Renamed<T>(m: map<Key, T>, from: string, to: string): map<Key, T> {
    map k | k in MovedKeys(m.Keys, from, to) :: m[Back(m.Keys, k, from, to)]
  }

  lemma RenamedAt<T>(m: map<Key, T>, from: string, to: string, k: Key)
    requires !Clash(m.Keys, from, to) && k in m
    ensures Moved(k, from, to) in Renamed(m, from, to) && Renamed(m, from, to)[Moved(k, from, to)] == m[k]
  {
    assert k.(path := to).(path := from) == k.(path := from);
    if k.path == from {
      assert k.(path := from) == k;
    } else if k.path == to && k.(path := from) in m {
      assert k.(path := from).(path := to) == k;
    }
  }

  function MovedAll(cache: seq<Record>, from: string, to: string): (r: seq<Record>)
    ensures |r| == |cache| && forall i :: 0 <= i < |r| ==> r[i] == cache[i].(key := Moved(cache[i].key, from, to))
  {
    if cache == [] then []
    else
      var last := cache[|cache| - 1];
      MovedAll(cache[..|cache| - 1], from, to) + [last.(key := Moved(last.key, from, to))]
  }

  lemma MovedLists(cache: seq<Record>, view: View, from: string, to: string)
    requires Lists(cache, view) && !Clash(view.Keys, from, to)
    ensures Lists(MovedAll(cache, from, to), Renamed(view, from, to))
  {
    var c, v := MovedAll(cache, from, to), Renamed(view, from, to);
    forall i | 0 <= i < |c|
      ensures c[i].key in v && v[c[i].key] == c[i].vec
    {
      RenamedAt(view, from, to, cache[i].key);
    }
    forall i, j | 0 <= i < j < |c|
      ensures c[i].key != c[j].key
    {
      MovedInjective(view.Keys, from, to, cache[i].key, cache[j].key);
    }
    forall k | k in v
      ensures exists i :: 0 <= i < |c| && c[i].key == k
    {
      var k0 :| k0 in view && Moved(k0, from, to) == k;
      var i :| 0 <= i < |cache| && cache[i].key == k0;
      assert c[i].key == k;
    }
  }

  lemma MovedInjective(keys: set<Key>, from: string, to: string, a: Key, b: Key)
    requires a in keys && b in keys && a != b && !Clash(keys, from, to)
    ensures Moved(a, from, to) != Moved(b, from, to)
  {
    if a.path == from && b.path != from && from != to {
      assert a.(path := to) !in keys;
    }
    if b.path == from && a.path != from && from != to {
      assert b.(path := to) !in keys;
    }
  }

  lemma ShownRenamed(table: map<Key, seq<Byte>>, from: string, to: string)
    ensures Shown(Renamed(table, from, to)) == Renamed(Shown(table), from, to)
  {
    assert Shown(table).Keys == table.Keys;
  }

  // ---- copy ----

  function AddedKeys(keys: set<Key>, src: string, dst: string): (r: set<Key>)
    ensures forall k :: k in r ==> k.(path := src) in keys
  {
    assert forall k: Key :: k in keys && k.path == src ==> k.(path := dst).(path := src) == k;
    set k | k in keys && k.path == src :: k.(path := dst)
  }

  /** Clear the destination, then add the source's entries under it: a copy onto itself empties the path. */
  function Copied<T>(m: map<Key, T>, src: string, dst: string): map<Key, T> {
    WithCopies(Without(m, WholeNote(dst)), src, dst)
  }

  function WithCopies<T>(base: map<Key, T>, src: string, dst: string): map<Key, T> {
    map k | k in base.Keys + AddedKeys(base.Keys, src, dst) :: if k in base then base[k] else base[k.(path := src)]
  }

  /** Copying a path onto itself empties it, and leaves every other path alone. */
  lemma SelfCopyEmpties<T>(m: map<Key, T>, p: string)
    ensures Copied(m, p, p) == Without(m, WholeNote(p))
    ensures forall k :: k in Copied(m, p, p) ==> k.path != p
  {
  }

  /** Every source row arrives under the target with its value if and only if the two differ or there is nothing to copy. */
  lemma CopyArrivesIff<T>(m: map<Key, T>, src: string, dst: string)
    ensures (forall k :: k in m && k.path == src ==> k.(path := dst) in Copied(m, src, dst) && Copied(m, src, dst)[k.(path := dst)] == m[k])
            <==> src != dst || forall k :: k in m ==> k.path != src
  {
    if src == dst {
      SelfCopyEmpties(m, src);
      forall k | k in m && k.path == src
        ensures k.(path := dst) !in Copied(m, src, dst)
      {
      }
    } else {
      forall k | k in m && k.path == src
        ensures k.(path := dst) in Copied(m, src, dst) && Copied(m, src, dst)[k.(path := dst)] == m[k]
      {
        var k' := k.(path := dst);
        assert k'.(path := src) == k;
      }
    }
  }

  function Duplicates(cache: seq<Record>, src: string, dst: string): seq<Record> {
    if cache == [] then []
    else
      var r := cache[|cache| - 1];
      Duplicates(cache[..|cache| - 1], src, dst) + if r.key.path == src then [r.(key := r.key.(path := dst))] else []
  }

  lemma {:induction false} DuplicatesMember(cache: seq<Record>, src: string, dst: string, r: Record)
    ensures r in Duplicates(cache, src, dst) <==> r.key.path == dst && r.(key := r.key.(path := src)) in cache
  {
    if cache != [] {
      var p, last := cache[..|cache| - 1], cache[|cache| - 1];
      DuplicatesMember(p, src, dst, r);
      assert cache == p + [last];
    }
  }

  lemma {:induction false} DuplicatesDistinct(cache: seq<Record>, src: string, dst: string)
    requires Distinct(cache)
    ensures Distinct(Duplicates(cache, src, dst))
  {
    if cache != [] {
      var p, last := cache[..|cache| - 1], cache[|cache| - 1];
      DuplicatesDistinct(p, src, dst);
      var d := Duplicates(p, src, dst);
      assert d + [] == d;
      if last.key.path == src {
        forall r | r in d
          ensures r.key != last.key.(path := dst)
        {
          DuplicatesMember(p, src, dst, r);
          var back := r.(key := r.key.(path := src));
          var i :| 0 <= i < |p| && p[i] == back;
          assert cache[i].key != cache[|cache| - 1].key;
          assert last.key.(path := dst).(path := src) == last.key;
        }
      }
    }
  }

  lemma CopiedLists(cache: seq<Record>, view: View, src: string, dst: string)
    requires Lists(cache, view)
    ensures var kept := Filtered(cache, WholeNote(dst)); Lists(kept + Duplicates(kept, src, dst), Copied(view, src, dst))
  {
    var base := Without(view, WholeNote(dst));
    var kept := Filtered(cache, WholeNote(dst));
    FilteredLists(cache, view, WholeNote(dst));
    CopiesListed(kept, base, src, dst);
  }

  lemma CopiesListed(kept: seq<Record>, base: View, src: string, dst: string)
    requires Lists(kept, base) && forall k :: k in base ==> k.path != dst
    ensures Lists(kept + Duplicates(kept, src, dst), WithCopies(base, src, dst))
  {
    var dup := Duplicates(kept, src, dst);
    var c, v := kept + dup, WithCopies(base, src, dst);
    DuplicatesDistinct(kept, src, dst);
    forall r | r in dup
      ensures r.key.path == dst && r.key in v && v[r.key] == r.vec
    {
      DuplicateShown(kept, base, src, dst, r);
    }
    forall i | 0 <= i < |c|
      ensures c[i].key in v && v[c[i].key] == c[i].vec
    {
      if i >= |kept| {
        assert c[i] in dup;
      }
    }
    forall k | k in v
      ensures exists i :: 0 <= i < |c| && c[i].key == k
    {
      CopiedListed(kept, base, src, dst, k);
    }
  }

  lemma DuplicateShown(kept: seq<Record>, base: View, src: string, dst: string, r: Record)
    requires Lists(kept, base) && r in Duplicates(kept, src, dst) && forall k :: k in base ==> k.path != dst
    ensures r.key.path == dst && r.key in WithCopies(base, src, dst) && WithCopies(base, src, dst)[r.key] == r.vec
  {
    DuplicatesMember(kept, src, dst, r);
    var back := r.(key := r.key.(path := src));
    var i :| 0 <= i < |kept| && kept[i] == back;
    assert back.key in base && back.key.(path := dst) == r.key;
  }

  lemma CopiedListed(kept: seq<Record>, base: View, src: string, dst: string, k: Key)
    requires Lists(kept, base) && k in WithCopies(base, src, dst)
    ensures var c := kept + Duplicates(kept, src, dst); exists i :: 0 <= i < |c| && c[i].key == k
  {
    var dup := Duplicates(kept, src, dst);
    var c := kept + dup;
    if k in base {
      var i :| 0 <= i < |kept| && kept[i].key == k;
      assert c[i].key == k;
    } else {
      var i :| 0 <= i < |kept| && kept[i].key == k.(path := src);
      var r := kept[i].(key := k);
      assert r.(key := r.key.(path := src)) == kept[i];
      DuplicatesMember(kept, src, dst, r);
      var j :| 0 <= j < |dup| && dup[j] == r;
      assert c[|kept| + j].key == k;
    }
  }

  lemma ShownCopied(table: map<Key, seq<Byte>>, src: string, dst: string)
    ensures Shown(Copied(table, src, dst)) == Copied(Shown(table), src, dst)
  {
    ShownWithout(table, WholeNote(dst));
    var b := Without(table, WholeNote(dst));
    assert Shown(b).Keys == b.Keys;
  }

  lemma ShownUpdate(table: map<Key, seq<Byte>>, k: Key, vec: Vec)
    ensures Shown(table[k := Encode(vec)]) == Shown(table)[k := vec]
  {
    RoundTrip(vec);
  }

  /** Update the entry with this key, or append one. */
  method PutRecord(cache: seq<Record>, ghost view: View, k: Key, vec: Vec) returns (c: seq<Record>)
    requires Lists(cache, view)
    ensures Lists(c, view[k := vec])
  {
    for i := 0 to |cache|
      invariant forall j :: 0 <= j < i ==> cache[j].key != k
    {
      if cache[i].key == k {
        ReplaceLists(cache, view, i, vec);
        return cache[i := Record(k, vec)];
      }
    }
    AppendLists(cache, view, k, vec);
    c := cache + [Record(k, vec)];
  }

  method KeepOutside(cache: seq<Record>, s: Scope) returns (kept: seq<Record>)
    ensures kept == Filtered(cache, s)
  {
    kept := [];
    for i := 0 to |cache|
      invariant kept == Filtered(cache[..i], s)
    {
      assert cache[..i + 1][..i] == cache[..i];
      if !Covers(s, cache[i].key) {
        kept := kept + [cache[i]];
      }
    }
    assert cache[..|cache|] == cache;
  }

  method MoveRecords(cache: seq<Record>, from: string, to: string) returns (c: seq<Record>)
    ensures c == MovedAll(cache, from, to)
  {
    c := cache;
    for i := 0 to |cache|
      invariant |c| == |cache| && (forall j :: 0 <= j < i ==> c[j] == MovedAll(cache, from, to)[j])
      invariant forall j :: i <= j < |c| ==> c[j] == cache[j]
    {
      if c[i].key.path == from {
        c := c[i := c[i].(key := c[i].key.(path := to))];
      }
    }
  }

  method CopyRecords(cache: seq<Record>, src: string, dst: string) returns (dup: seq<Record>)
    ensures dup == Duplicates(cache, src, dst)
  {
    dup := [];
    for i := 0 to |cache|
      invariant dup == Duplicates(cache[..i], src, dst)
    {
      assert cache[..i + 1][..i] == cache[..i];
      var r := cache[i];
      if r.key.path == src {
        dup := dup + [Record(Key(dst, r.key.page, r.key.chunk), r.vec)];
      }
    }
    assert cache[..|cache|] == cache;
  }

  // ---- what each operation leaves, key by key ----

  /** Every entry but those of one page, or of one path, is as it was. */
  ghost predicate DropsPage(v: View, v': View, path: string, page: int) {
    forall k :: (k in v' <==> k in v && !(k.path == path && k.page == page)) && (k in v' ==> v'[k] == v[k])
  }

  ghost predicate DropsPath(v: View, v': View, path: string) {
    forall k :: (k in v' <==> k in v && k.path != path) && (k in v' ==> v'[k] == v[k])
  }

  /** The entries of one path are found under the other, page by page and chunk by chunk; all others are as they were. */
  ghost predicate Moves(v: View, v': View, from: string, to: string) {
    && (forall k :: k in v && k.path == from ==> Key(to, k.page, k.chunk) in v' && v'[Key(to, k.page, k.chunk)] == v[k])
    && (forall k :: k in v && k.path != from ==> k in v' && v'[k] == v[k])
    && (forall k :: k in v' ==> (k in v && k.path != from) || (k.path == to && Key(from, k.page, k.chunk) in v))
  }

  /** The target holds what the source holds, and nothing if they are the same; every other path is as it was. */
  ghost predicate Copies(v: View, v': View, src: string, dst: string) {
    && (forall k: Key :: k.path != dst ==> (k in v' <==> k in v) && (k in v ==> v'[k] == v[k]))
    && (forall k: Key :: k.path == dst ==> (k in v' <==> src != dst && Key(src, k.page, k.chunk) in v))
    && (forall k: Key :: k.path == dst && k in v' ==> v'[k] == v[Key(src, k.page, k.chunk)])
  }

  lemma RenamedMoves(v: View, from: string, to: string)
    requires !Clash(v.Keys, from, to)
    ensures Moves(v, Renamed(v, from, to), from, to)
  {
    var v' := Renamed(v, from, to);
    forall k | k in v
      ensures Moved(k, from, to) in v' && v'[Moved(k, from, to)] == v[k]
      ensures k.path == from ==> Moved(k, from, to) == Key(to, k.page, k.chunk)
      ensures k.path != from ==> Moved(k, from, to) == k
    {
      RenamedAt(v, from, to, k);
    }
    forall k | k in v'
      ensures (k in v && k.path != from) || (k.path == to && Key(from, k.page, k.chunk) in v)
    {
      var k0 :| k0 in v && Moved(k0, from, to) == k;
      if k0.path == from {
        assert k0 == Key(from, k.page, k.chunk);
      }
    }
  }

  lemma CopiedCopies(v: View, src: string, dst: string)
    ensures Copies(v, Copied(v, src, dst), src, dst)
  {
    var base := Without(v, WholeNote(dst));
    var v' := Copied(v, src, dst);
    forall k: Key
      ensures k.path == dst ==> (k in v' <==> src != dst && Key(src, k.page, k.chunk) in v)
      ensures k.path == dst && k in v' ==> v'[k] == v[Key(src, k.page, k.chunk)]
      ensures k.path != dst ==> (k in v' <==> k in v) && (k in v ==> v'[k] == v[k])
    {
      var back := Key(src, k.page, k.chunk);
      assert k.(path := src) == back;
      if k.path == dst && back in base {
        assert back.(path := dst) == k;
      }
    }
  }

  lemma ClashIff(v: View, from: string, to: string)
    ensures Clash(v.Keys, from, to) <==> from != to && exists k :: k in v && k.path == from && Key(to, k.page, k.chunk) in v
  {
    assert forall k: Key :: k.(path := to) == Key(to, k.page, k.chunk);
  }

  // ---- the store ----

  class EmbeddingStore {
    var table: map<Key, seq<Byte>>
    var cache: seq<Record>

    /** What the store shows: one vector per key. */
    function Vectors(): View
      reads this
    {
      Shown(table)
    }

    ghost predicate Valid()
      reads this
    {
      Lists(cache, Vectors())
    }

    constructor ()
      ensures Valid() && Vectors() == map[]
    {
      table, cache := map[], [];
    }

    method Save(path: string, page: int, chunk: int, vec: Vec)
      requires Valid()
      modifies this
      ensures Valid() && Vectors() == old(Vectors())[Key(path, page, chunk) := vec]
      ensures table == old(table)[Key(path, page, chunk) := Encode(vec)]
    {
      var k := Key(path, page, chunk);
      ghost var view := Vectors();
      ShownUpdate(table, k, vec);
      table := table[k := Encode(vec)];
      cache := PutRecord(cache, view, k, vec);
    }

    /** The in-place filter: keep what the scope does not cover, in order. */
    method Drop(s: Scope)
      requires Lists(cache, Vectors())
      modifies this
      ensures cache == Filtered(old(cache), s) && table == Without(old(table), s)
      ensures Valid() && Vectors() == Without(old(Vectors()), s)
    {
      ShownWithout(table, s);
      FilteredLists(cache, Vectors(), s);
      table := Without(table, s);
      cache := KeepOutside(cache, s);
    }

    method DeletePage(path: string, page: int)
      requires Valid()
      modifies this
      ensures Valid() && Vectors() == Without(old(Vectors()), OnePage(path, page))
      ensures DropsPage(old(Vectors()), Vectors(), path, page)
    {
      Drop(OnePage(path, page));
    }

    method Delete(path: string)
      requires Valid()
      modifies this
      ensures Valid() && Vectors() == Without(old(Vectors()), WholeNote(path))
      ensures DropsPath(old(Vectors()), Vectors(), path)
    {
      Drop(WholeNote(path));
    }

    /** A rename the unique key refuses changes nothing. */
    method Rename(from: string, to: string) returns (ok: bool)
      requires Valid()
      modifies this
      ensures Valid()
      ensures var v := old(Vectors());
              !ok <==> from != to && exists k :: k in v && k.path == from && Key(to, k.page, k.chunk) in v
      ensures ok ==> Moves(old(Vectors()), Vectors(), from, to)
      ensures Vectors() == if ok then Renamed(old(Vectors()), from, to) else old(Vectors())
    {
      ClashIff(Vectors(), from, to);
      assert table.Keys == Vectors().Keys;
      if Clash(table.Keys, from, to) {
        return false;
      }
      MovedLists(cache, Vectors(), from, to);
      RenamedMoves(Vectors(), from, to);
      ShownRenamed(table, from, to);
      table := Renamed(table, from, to);
      cache := MoveRecords(cache, from, to);
      ok := true;
    }

    method Copy(src: string, dst: string)
      requires Valid()
      modifies this
      ensures Valid() && Vectors() == Copied(old(Vectors()), src, dst)
      ensures Copies(old(Vectors()), Vectors(), src, dst)
    {
      CopiedCopies(Vectors(), src, dst);
      CopiedLists(cache, Vectors(), src, dst);
      ShownCopied(table, src, dst);
      table := WithCopies(Without(table, WholeNote(dst)), src, dst);
      cache := KeepOutside(cache, WholeNote(dst));
      var dup := CopyRecords(cache, src, dst);
      cache := cache + dup;
    }

    /** Rebuild the cache from the table, in whatever order the rows come. */
    method LoadAll() returns (n: int)
      modifies this`cache
      ensures Valid() && Vectors() == old(Vectors()) && n == |table|
    {
      var todo := table.Keys;
      var records: seq<Record> := [];
      while todo != {}
        invariant todo <= table.Keys && |records| + |todo| == |table.Keys|
        invariant Lists(records, map k | k in table && k !in todo :: Decoded(table[k]))
        decreases |todo|
      {
        var k :| k in todo;
        var vec := Decode(table[k]);
        ghost var view := map x | x in table && x !in todo :: Decoded(table[x]);
        AppendLists(records, view, k, vec);
        records := records + [Record(k, vec)];
        todo := todo - {k};
        assert view[k := vec] == map x | x in table && x !in todo :: Decoded(table[x]);
      }
      cache := records;
      assert (map k | k in table && k !in todo :: Decoded(table[k])) == Shown(table);
      n := |records|;
    }
  }

  lemma ReplaceLists(cache: seq<Record>, view: View, i: int, vec: Vec)
    requires Lists(cache, view) && 0 <= i < |cache|
    ensures Lists(cache[i := Record(cache[i].key, vec)], view[cache[i].key := vec])
  {
    var c := cache[i := Record(cache[i].key, vec)];
    assert forall j :: 0 <= j < |c| ==> c[j].key == cache[j].key;
  }

  lemma AppendLists(cache: seq<Record>, view: View, k: Key, vec: Vec)
    requires Lists(cache, view) && forall j :: 0 <= j < |cache| ==> cache[j].key != k
    ensures Lists(cache + [Record(k, vec)], view[k := vec])
  {
    var c := cache + [Record(k, vec)];
    var v := view[k := vec];
    forall x | x in v
      ensures exists i :: 0 <= i < |c| && c[i].key == x
    {
      if x == k {
        assert c[|cache|].key == x;
      } else {
        var i :| 0 <= i < |cache| && cache[i].key == x;
        assert c[i].key == x;
      }
    }
  }

  // ---- re-embedding a page ----

  /** The vectors of a page's chunks that were embedded, laid over a view. */
  function WithChunks(view: View, path: string, page: int, vecs: seq<Option<Vec>>): View {
    if vecs == [] then view
    else
      var v := WithChunks(view, path, page, vecs[..|vecs| - 1]);
      var last := vecs[|vecs| - 1];
      if last.Some? then v[Key(path, page, |vecs| - 1) := last.value] else v
  }

  function CountSome(vecs: seq<Option<Vec>>): nat {
    if vecs == [] then 0 else CountSome(vecs[..|vecs| - 1]) + if vecs[|vecs| - 1].Some? then 1 else 0
  }

  /** What the embedder answers for each chunk in turn; equal chunks may be answered differently. */
  function Answers(embed: (nat, Chunk.Text) -> Option<Vec>, chunks: seq<Chunk.Text>): (r: seq<Option<Vec>>)
    ensures |r| == |chunks| && forall i | 0 <= i < |chunks| :: r[i] == embed(i, chunks[i])
  {
    if chunks == [] then [] else Answers(embed, chunks[..|chunks| - 1]) + [embed(|chunks| - 1, chunks[|chunks| - 1])]
  }

  /** Chunk the text, embed each chunk, and replace the page unless every embed failed. */
  method EmbedAndStorePage(s: EmbeddingStore, path: string, page: int, text: Chunk.Text, embed: (nat, Chunk.Text) -> Option<Vec>) returns (stored: nat)
    requires s.Valid()
    modifies s
    ensures var vecs := Answers(embed, Chunk.ChunkTexts(text));
            && s.Valid() && stored == CountSome(vecs)
            && s.Vectors() ==
               if vecs != [] && stored == 0 then old(s.Vectors())
               else WithChunks(Without(old(s.Vectors()), OnePage(path, page)), path, page, vecs)
  {
    var chunks := Chunk.ChunkText(text);
    stored := StoreAnswers(s, path, page, Answers(embed, chunks));
  }

  method StoreAnswers(s: EmbeddingStore, path: string, page: int, vecs: seq<Option<Vec>>) returns (stored: nat)
    requires s.Valid()
    modifies s
    ensures s.Valid() && stored == CountSome(vecs)
    ensures s.Vectors() ==
            if vecs != [] && stored == 0 then old(s.Vectors())
            else WithChunks(Without(old(s.Vectors()), OnePage(path, page)), path, page, vecs)
  {
    if |vecs| == 0 {
      s.DeletePage(path, page);
      return 0;
    }
    var any := exists i :: 0 <= i < |vecs| && vecs[i].Some?;
    if !any {
      NoneCounted(vecs);
      return 0;
    }
    SomeCounted(vecs);
    s.DeletePage(path, page);
    ghost var base := s.Vectors();
    stored := 0;
    for i := 0 to |vecs|
      invariant s.Valid() && s.Vectors() == WithChunks(base, path, page, vecs[..i]) && stored == CountSome(vecs[..i])
    {
      assert vecs[..i + 1][..i] == vecs[..i];
      if vecs[i].Some? {
        s.Save(path, page, i, vecs[i].value);
        stored := stored + 1;
      }
    }
    assert vecs[..|vecs|] == vecs;
  }

  /** The number stored is the number of chunks that were embedded. */
  lemma {:induction false} CountSomeIs(vecs: seq<Option<Vec>>)
    ensures CountSome(vecs) == |set i | 0 <= i < |vecs| && vecs[i].Some?|
  {
    var places := set i | 0 <= i < |vecs| && vecs[i].Some?;
    if vecs == [] {
      assert places == {};
    } else {
      var p := vecs[..|vecs| - 1];
      CountSomeIs(p);
      assert places == (set i | 0 <= i < |p| && p[i].Some?) + if vecs[|p|].Some? then {|p|} else {};
    }
  }

  lemma {:induction false} NoneCounted(vecs: seq<Option<Vec>>)
    requires forall i :: 0 <= i < |vecs| ==> vecs[i].None?
    ensures CountSome(vecs) == 0
  {
    if vecs != [] {
      NoneCounted(vecs[..|vecs| - 1]);
    }
  }

  lemma {:induction false} SomeCounted(vecs: seq<Option<Vec>>)
    requires exists i :: 0 <= i < |vecs| && vecs[i].Some?
    ensures CountSome(vecs) > 0
  {
    if vecs[|vecs| - 1].None? {
      var i :| 0 <= i < |vecs| && vecs[i].Some?;
      assert vecs[..|vecs| - 1][i].Some?;
      SomeCounted(vecs[..|vecs| - 1]);
    }
  }

  /** A page holds exactly its successful chunks afterwards, and no other page changed. */
  lemma {:induction false} PageExact(view: View, path: string, page: int, vecs: seq<Option<Vec>>, k: Key)
    ensures var after := WithChunks(Without(view, OnePage(path, page)), path, page, vecs);
            if k.path == path && k.page == page
            then (k in after <==> 0 <= k.chunk < |vecs| && vecs[k.chunk].Some?) && (k in after ==> after[k] == vecs[k.chunk].value)
            else (k in after <==> k in view) && (k in after ==> after[k] == view[k])
  {
    if vecs != [] {
      PageExact(view, path, page, vecs[..|vecs| - 1], k);
    }
  }
}
