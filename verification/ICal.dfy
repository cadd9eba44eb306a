/** CATEGORIES in a VTODO: escaping on write, splitting and unescaping on read (section 3.3.11 of RFC 5545). */
module ICal {
  import opened Basics

  // ---- writing ----

  function ReplaceAll(s: string, c: char, repl: string): string {
    if s == [] then [] else (if s[0] == c then repl else [s[0]]) + ReplaceAll(s[1..], c, repl)
  }

  /** Four passes, each over the result of the one before. */
  function EscapeICalText(s: string): string {
    ReplaceAll(ReplaceAll(ReplaceAll(ReplaceAll(s, '\\', "\\\\"), ',', "\\,"), ';', "\\;"), '\n', "\\n")
  }

  function EscapeChar(c: char): (r: string)
    ensures 1 <= |r| <= 2
  {
    if c == '\\' || c == ',' || c == ';' then ['\\', c]
    else if c == '\n' then ['\\', 'n']
    else [c]
  }

  function EscapeAll(s: string): string {
    if s == [] then [] else EscapeChar(s[0]) + EscapeAll(s[1..])
  }

  lemma {:induction false} ReplaceConcat(a: string, b: string, c: char, repl: string)
    ensures ReplaceAll(a + b, c, repl) == ReplaceAll(a, c, repl) + ReplaceAll(b, c, repl)
  {
    if a == [] {
      assert a + b == b;
    } else {
      ReplaceConcat(a[1..], b, c, repl);
      assert (a + b)[1..] == a[1..] + b && (a + b)[0] == a[0];
      Regroup(if a[0] == c then repl else [a[0]], ReplaceAll(a[1..], c, repl), ReplaceAll(b, c, repl));
    }
  }

  /** A text is escaped piece by piece. */
  lemma EscapeConcat(a: string, b: string)
    ensures EscapeICalText(a + b) == EscapeICalText(a) + EscapeICalText(b)
  {
    ReplaceConcat(a, b, '\\', "\\\\");
    var a1, b1 := ReplaceAll(a, '\\', "\\\\"), ReplaceAll(b, '\\', "\\\\");
    ReplaceConcat(a1, b1, ',', "\\,");
    var a2, b2 := ReplaceAll(a1, ',', "\\,"), ReplaceAll(b1, ',', "\\,");
    ReplaceConcat(a2, b2, ';', "\\;");
    ReplaceConcat(ReplaceAll(a2, ';', "\\;"), ReplaceAll(b2, ';', "\\;"), '\n', "\\n");
  }

  lemma Replace1(x: char, c: char, repl: string)
    ensures ReplaceAll([x], c, repl) == if x == c then repl else [x]
  {
    assert [x][1..] == [];
  }

  lemma Replace2(x: char, y: char, c: char, repl: string)
    requires x != c && y != c
    ensures ReplaceAll([x, y], c, repl) == [x, y]
  {
    assert [x, y][1..] == [y];
    Replace1(y, c, repl);
  }

  /** What a character is written as. */
  lemma EscapeOne(x: char)
    ensures EscapeICalText([x]) == EscapeChar(x)
    ensures EscapeICalText([x]) ==
            if x == '\\' then "\\\\" else if x == ',' then "\\," else if x == ';' then "\\;" else if x == '\n' then "\\n" else [x]
  {
    Replace1(x, '\\', "\\\\");
    if x == '\\' {
      Replace2('\\', '\\', ',', "\\,");
      Replace2('\\', '\\', ';', "\\;");
      Replace2('\\', '\\', '\n', "\\n");
    } else {
      Replace1(x, ',', "\\,");
      if x == ',' {
        Replace2('\\', ',', ';', "\\;");
        Replace2('\\', ',', '\n', "\\n");
      } else {
        Replace1(x, ';', "\\;");
        if x == ';' {
          Replace2('\\', ';', '\n', "\\n");
        } else {
          Replace1(x, '\n', "\\n");
        }
      }
    }
  }

  /** The passes do not disturb one another: together they escape each character once. */
  lemma {:induction false} FourPassesAreOne(s: string)
    ensures EscapeICalText(s) == EscapeAll(s)
  {
    if s != [] {
      assert s == [s[0]] + s[1..];
      EscapeConcat([s[0]], s[1..]);
      EscapeOne(s[0]);
      FourPassesAreOne(s[1..]);
    }
  }

  function JoinComma(parts: seq<string>): string {
    if parts == [] then [] else if |parts| == 1 then parts[0] else parts[0] + "," + JoinComma(parts[1..])
  }

  function NonBlank(cats: seq<string>): seq<string> {
    if cats == [] then [] else (if cats[0] == "" then [] else [cats[0]]) + NonBlank(cats[1..])
  }

  function EscapeEach(cats: seq<string>): (r: seq<string>)
    ensures |r| == |cats|
  {
    if cats == [] then [] else [EscapeAll(cats[0])] + EscapeEach(cats[1..])
  }

  lemma EscapeNext(done: seq<string>, cats: seq<string>)
    requires cats != []
    ensures done + EscapeEach(NonBlank(cats))
            == (if cats[0] == "" then done else done + [EscapeAll(cats[0])]) + EscapeEach(NonBlank(cats[1..]))
  {
    var rest := NonBlank(cats[1..]);
    if cats[0] == "" {
      assert NonBlank(cats) == rest;
    } else {
      var all := [cats[0]] + rest;
      assert NonBlank(cats) == all && all[0] == cats[0] && all[1..] == rest;
      assert EscapeEach(all) == [EscapeAll(cats[0])] + EscapeEach(rest);
      Regroup(done, [EscapeAll(cats[0])], EscapeEach(rest));
    }
  }

  /** The property value, or none when nothing is left to write. */
  method SetCategoriesProp(cats: seq<string>) returns (value: Option<string>)
    ensures value == WriteCategories(cats)
  {
    var parts: seq<string> := [];
    assert cats[0..] == cats && parts + EscapeEach(NonBlank(cats)) == EscapeEach(NonBlank(cats));
    for i := 0 to |cats|
      invariant parts + EscapeEach(NonBlank(cats[i..])) == EscapeEach(NonBlank(cats))
    {
      EscapeNext(parts, cats[i..]);
      assert cats[i..][1..] == cats[i + 1..];
      if cats[i] != "" {
        FourPassesAreOne(cats[i]);
        parts := parts + [EscapeICalText(cats[i])];
      }
    }
    assert parts + [] == parts;
    if |parts| == 0 {
      return None;
    }
    return Some(JoinComma(parts));
  }

  // ---- reading ----

  function Prepend(l: seq<string>, r: Option<seq<string>>): Option<seq<string>> {
    if r.Some? then Some(l + r.value) else None
  }

  /** Read on with `cur` as the item so far: a comma ends an item, a backslash escapes one character. */
  function Scan(v: string, cur: string): Option<seq<string>>
    decreases |v|
  {
    if v == [] then Some([cur])
    else if v[0] == '\\' then
      if |v| < 2 then None
      else if v[1] == '\\' || v[1] == ';' || v[1] == ',' then Scan(v[2..], cur + [v[1]])
      else if v[1] == 'n' || v[1] == 'N' then Scan(v[2..], cur + ['\n'])
      else None
    else if v[0] == ',' then Prepend([cur], Scan(v[1..], ""))
    else Scan(v[1..], cur + [v[0]])
  }

  lemma PrependTwice(a: seq<string>, b: seq<string>, r: Option<seq<string>>)
    ensures Prepend(a, Prepend(b, r)) == Prepend(a + b, r) && Prepend([], r) == r
  {
    if r.Some? {
      assert a + (b + r.value) == (a + b) + r.value && [] + r.value == r.value;
    }
  }

  method TextList(v: string) returns (r: Option<seq<string>>)
    ensures r == Scan(v, "")
  {
    var items: seq<string> := [];
    var cur := "";
    var i := 0;
    PrependTwice([], [], Scan(v, ""));
    assert v[0..] == v;
    while i < |v|
      invariant 0 <= i <= |v| && Scan(v, "") == Prepend(items, Scan(v[i..], cur))
    {
      assert v[i..][1..] == v[i + 1..];
      if v[i] == '\\' {
        if i + 1 >= |v| {
          return None;
        }
        assert v[i..][2..] == v[i + 2..];
        var c := v[i + 1];
        if c == '\\' || c == ';' || c == ',' {
          cur := cur + [c];
        } else if c == 'n' || c == 'N' {
          cur := cur + ['\n'];
        } else {
          return None;
        }
        i := i + 2;
      } else if v[i] == ',' {
        PrependTwice(items, [cur], Scan(v[i + 1..], ""));
        items := items + [cur];
        cur := "";
        i := i + 1;
      } else {
        cur := cur + [v[i]];
        i := i + 1;
      }
    }
    return Some(items + [cur]);
  }

  /** An escaped text reads back as itself, whatever it contains and whatever follows. */
  lemma {:induction false} ScanEscaped(s: string, rest: string, cur: string)
    ensures Scan(EscapeAll(s) + rest, cur) == Scan(rest, cur + s)
    decreases |s|
  {
    if s == [] {
      assert EscapeAll(s) + rest == rest && cur + s == cur;
    } else {
      var tail := EscapeAll(s[1..]) + rest;
      Regroup(EscapeChar(s[0]), EscapeAll(s[1..]), rest);
      ScanEscaped(s[1..], rest, cur + [s[0]]);
      assert s == [s[0]] + s[1..];
      Regroup(cur, [s[0]], s[1..]);
    }
  }

  /** Reading undoes writing, for every non-empty list of items. */
  lemma {:induction false} ListRoundTrip(cats: seq<string>)
    requires cats != []
    ensures Scan(JoinComma(EscapeEach(cats)), "") == Some(cats)
  {
    var parts := EscapeEach(cats);
    if |cats| == 1 {
      ScanEscaped(cats[0], [], "");
      assert EscapeAll(cats[0]) + [] == EscapeAll(cats[0]) && "" + cats[0] == cats[0];
      assert [cats[0]] == cats;
    } else {
      var rest := "," + JoinComma(parts[1..]);
      assert parts[1..] == EscapeEach(cats[1..]);
      assert JoinComma(parts) == EscapeAll(cats[0]) + rest;
      ScanEscaped(cats[0], rest, "");
      assert "" + cats[0] == cats[0];
      assert rest[1..] == JoinComma(parts[1..]);
      ListRoundTrip(cats[1..]);
      assert [cats[0]] + cats[1..] == cats;
    }
  }

  // ---- the whole way ----

  /** White space as Unicode has it. */
  predicate IsSpace(c: char) {
    || '\U{0009}' <= c <= '\U{000D}' || c == ' ' || c == '\U{0085}' || c == '\U{00A0}' || c == '\U{1680}'
    || '\U{2000}' <= c <= '\U{200A}' || c == '\U{2028}' || c == '\U{2029}' || c == '\U{202F}' || c == '\U{205F}'
    || c == '\U{3000}'
  }

  function TrimLeft(s: string): string {
    if s != [] && IsSpace(s[0]) then TrimLeft(s[1..]) else s
  }

  function TrimRight(s: string): string {
    if s != [] && IsSpace(s[|s| - 1]) then TrimRight(s[..|s| - 1]) else s
  }

  function Trim(s: string): string {
    TrimRight(TrimLeft(s))
  }

  function SplitComma(v: string, cur: string): seq<string> {
    if v == [] then [cur]
    else if v[0] == ',' then [cur] + SplitComma(v[1..], "")
    else SplitComma(v[1..], cur + [v[0]])
  }

  function TrimEach(items: seq<string>): seq<string> {
    if items == [] then [] else (if Trim(items[0]) == "" then [] else [Trim(items[0])]) + TrimEach(items[1..])
  }

  /** The categories of a value: a malformed value falls back to a plain split. */
  function ReadCategories(value: Option<string>): seq<string> {
    match value
    case None => []
    case Some(v) => TrimEach(match Scan(v, "") case Some(items) => items case None => SplitComma(v, ""))
  }

  /** White space as Unicode has it, by code point. */
  ghost predicate WhiteSpace(c: int) {
    c in {0x09, 0x0A, 0x0B, 0x0C, 0x0D, 0x20, 0x85, 0xA0, 0x1680, 0x2028, 0x2029, 0x202F, 0x205F, 0x3000} || 0x2000 <= c <= 0x200A
  }

  /** What is left of a text when white space is taken off both ends. */
  ghost predicate Stripped(s: string, before: int, after: int, t: string) {
    && 0 <= before <= after <= |s| && t == s[before..after]
    && (forall i :: 0 <= i < before ==> WhiteSpace(s[i] as int)) && (forall i :: after <= i < |s| ==> WhiteSpace(s[i] as int))
    && (t != "" ==> !WhiteSpace(t[0] as int) && !WhiteSpace(t[|t| - 1] as int))
  }

  lemma {:induction false} TrimLeftIs(s: string) returns (n: int)
    ensures 0 <= n <= |s| && TrimLeft(s) == s[n..] && (forall i :: 0 <= i < n ==> IsSpace(s[i])) && (n < |s| ==> !IsSpace(s[n]))
  {
    n := 0;
    if s != [] && IsSpace(s[0]) {
      var k := TrimLeftIs(s[1..]);
      n := k + 1;
      assert s[1..][k..] == s[n..];
      forall i | 0 <= i < n
        ensures IsSpace(s[i])
      {
        assert i > 0 ==> s[1..][i - 1] == s[i];
      }
    }
  }

  lemma {:induction false} TrimRightIs(s: string) returns (n: int)
    ensures 0 <= n <= |s| && TrimRight(s) == s[..n] && (forall i :: n <= i < |s| ==> IsSpace(s[i])) && (n > 0 ==> !IsSpace(s[n - 1]))
  {
    n := |s|;
    if s != [] && IsSpace(s[|s| - 1]) {
      n := TrimRightIs(s[..|s| - 1]);
      assert s[..|s| - 1][..n] == s[..n];
    }
  }

  lemma TrimStrips(s: string) returns (before: int, after: int)
    ensures Stripped(s, before, after, Trim(s))
  {
    before := TrimLeftIs(s);
    var t := s[before..];
    var n := TrimRightIs(t);
    after := before + n;
    assert Trim(s) == t[..n] == s[before..after];
    forall i | after <= i < |s|
      ensures WhiteSpace(s[i] as int)
    {
      assert t[i - before] == s[i];
    }
  }

  lemma {:induction false} SplitCommaPlain(v: string, cur: string)
    requires forall i :: 0 <= i < |cur| ==> cur[i] != ','
    ensures var items := SplitComma(v, cur);
            JoinComma(items) == cur + v && forall k :: 0 <= k < |items| ==> ',' !in items[k]
  {
    if v != [] {
      if v[0] == ',' {
        SplitCommaPlain(v[1..], "");
        var rest := SplitComma(v[1..], "");
        assert ([cur] + rest)[1..] == rest;
        assert v == "," + v[1..] && "" + v[1..] == v[1..];
        Regroup(cur, ",", v[1..]);
      } else {
        SplitCommaPlain(v[1..], cur + [v[0]]);
        assert (cur + [v[0]]) + v[1..] == cur + v;
      }
    } else {
      assert cur + v == cur;
    }
  }

  /** How each form is read: the other escapes, unescaped characters, and what makes a value malformed. */
  lemma ScanForms(c: char, rest: string, cur: string)
    ensures Scan("\\N" + rest, cur) == Scan(rest, cur + "\n")
    ensures c != '\\' && c != ',' ==> Scan([c] + rest, cur) == Scan(rest, cur + [c])
    ensures c !in {'\\', ';', ',', 'n', 'N'} ==> Scan(['\\', c] + rest, cur) == None
    ensures Scan("\\", cur) == None
  {
    assert ("\\N" + rest)[2..] == rest && ([c] + rest)[1..] == rest && (['\\', c] + rest)[2..] == rest;
  }

  /** No property is written exactly when every category is empty. */
  lemma {:induction false} PropertyAbsentIff(cats: seq<string>)
    ensures WriteCategories(cats).None? <==> forall i :: 0 <= i < |cats| ==> cats[i] == ""
  {
    if cats != [] {
      PropertyAbsentIff(cats[1..]);
      assert forall i :: 0 < i < |cats| ==> cats[i] == cats[1..][i - 1];
    }
  }

  lemma {:induction false} NonBlankConcat(a: seq<string>, b: seq<string>)
    ensures NonBlank(a + b) == NonBlank(a) + NonBlank(b)
  {
    if a == [] {
      assert a + b == b;
    } else {
      NonBlankConcat(a[1..], b);
      assert (a + b)[1..] == a[1..] + b && (a + b)[0] == a[0];
      Regroup(if a[0] == "" then [] else [a[0]], NonBlank(a[1..]), NonBlank(b));
    }
  }

  /** The categories that are not empty, in order. */
  lemma {:induction false} NonBlankPicked(cats: seq<string>)
    ensures Picks(cats, (c: string) => c != "", NonBlank(cats))
  {
    var test := (c: string) => c != "";
    if cats == [] {
      PicksNone(test);
    } else {
      var p, c := cats[..|cats| - 1], cats[|cats| - 1];
      NonBlankPicked(p);
      NonBlankConcat(p, [c]);
      assert [c][1..] == [] && NonBlank([c]) == if c == "" then [] else [c];
      PicksNext(p, test, NonBlank(p), c);
      assert cats == p + [c];
    }
  }

  /** What is written reads back as exactly the categories that are not empty. */
  lemma WrittenItems(cats: seq<string>)
    ensures WriteCategories(cats).Some? ==>
              var items := Scan(WriteCategories(cats).value, ""); items.Some? && Picks(cats, (c: string) => c != "", items.value)
  {
    NonBlankPicked(cats);
    if NonBlank(cats) != [] {
      ListRoundTrip(NonBlank(cats));
    }
  }

  function WriteCategories(cats: seq<string>): Option<string> {
    if NonBlank(cats) == [] then None else Some(JoinComma(EscapeEach(NonBlank(cats))))
  }

  lemma {:induction false} TrimNonBlank(cats: seq<string>)
    ensures TrimEach(NonBlank(cats)) == TrimEach(cats)
  {
    if cats != [] {
      TrimNonBlank(cats[1..]);
      if cats[0] == "" {
        assert NonBlank(cats) == NonBlank(cats[1..]) && Trim(cats[0]) == "";
      } else {
        var all := [cats[0]] + NonBlank(cats[1..]);
        assert NonBlank(cats) == all && all[1..] == NonBlank(cats[1..]);
      }
    }
  }

  /** Write then parse trims each category and drops the blank ones, and loses nothing else. */
  lemma CategoriesRoundTrip(cats: seq<string>)
    ensures ReadCategories(WriteCategories(cats)) == TrimEach(cats)
  {
    TrimNonBlank(cats);
    if NonBlank(cats) != [] {
      ListRoundTrip(NonBlank(cats));
    }
  }

  lemma {:induction false} TrimEachFixed(cats: seq<string>)
    ensures (forall i :: 0 <= i < |cats| ==> Trim(cats[i]) == cats[i] && cats[i] != "") ==> TrimEach(cats) == cats
    ensures TrimEach(cats) == cats ==> forall i :: 0 <= i < |cats| ==> Trim(cats[i]) == cats[i] && cats[i] != ""
  {
    if cats != [] {
      TrimEachFixed(cats[1..]);
      TrimEachShrinks(cats[1..]);
      assert cats == [cats[0]] + cats[1..];
      if TrimEach(cats) == cats {
        assert |TrimEach(cats)| == |cats|;
        assert Trim(cats[0]) != "";
        assert TrimEach(cats)[0] == Trim(cats[0]) && TrimEach(cats)[1..] == TrimEach(cats[1..]);
        forall i | 0 <= i < |cats|
          ensures Trim(cats[i]) == cats[i] && cats[i] != ""
        {
          if i > 0 {
            assert cats[1..][i - 1] == cats[i];
          }
        }
      }
    }
  }

  lemma {:induction false} TrimEachShrinks(cats: seq<string>)
    ensures |TrimEach(cats)| <= |cats|
  {
    if cats != [] {
      TrimEachShrinks(cats[1..]);
    }
  }

  /** A list survives unchanged exactly when every category is trimmed and not blank; commas, semicolons, backslashes and newlines are no obstacle. */
  lemma CategoriesSurviveIff(cats: seq<string>)
    ensures ReadCategories(WriteCategories(cats)) == cats
            <==> forall i :: 0 <= i < |cats| ==> Trim(cats[i]) == cats[i] && cats[i] != ""
  {
    CategoriesRoundTrip(cats);
    TrimEachFixed(cats);
  }
}
