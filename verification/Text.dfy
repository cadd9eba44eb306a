/** Byte-lexicographic order on strings: the order in which site ids break ties. */
module Text {

  predicate StrLess(a: string, b: string) {
    if b == [] then false
    else if a == [] then true
    else if a[0] != b[0] then a[0] < b[0]
    else StrLess(a[1..], b[1..])
  }

  /** The first character in which two strings differ. */
  ghost predicate DifferAt(a: string, b: string, i: int) {
    0 <= i < |a| && i < |b| && a[..i] == b[..i] && a[i] != b[i]
  }

  /** A proper prefix comes first; otherwise the first difference decides. */
  lemma {:induction false} StrLessIff(a: string, b: string)
    ensures StrLess(a, b) <==> (|a| < |b| && a == b[..|a|]) || exists i :: DifferAt(a, b, i) && a[i] < b[i]
  {
    if a != [] && b != [] && a[0] == b[0] {
      var x, y := a[1..], b[1..];
      StrLessIff(x, y);
      assert a == [a[0]] + x && b == [b[0]] + y;
      forall i | DifferAt(x, y, i)
        ensures DifferAt(a, b, i + 1)
      {
        assert a[..i + 1] == [a[0]] + x[..i] && b[..i + 1] == [b[0]] + y[..i];
      }
      forall i | DifferAt(a, b, i)
        ensures i > 0 && DifferAt(x, y, i - 1)
      {
        assert x[..i - 1] == a[..i][1..] && y[..i - 1] == b[..i][1..];
      }
    } else if a != [] && b != [] {
      assert DifferAt(a, b, 0);
    }
  }

  lemma {:induction false} StrLessIrreflexive(a: string)
    ensures !StrLess(a, a)
  {
    if a != [] {
      StrLessIrreflexive(a[1..]);
    }
  }

  /** The order is total: two different strings are always ordered one way. */
  lemma {:induction false} StrLessConnected(a: string, b: string)
    ensures a == b || StrLess(a, b) || StrLess(b, a)
  {
    if a != [] && b != [] && a[0] == b[0] {
      StrLessConnected(a[1..], b[1..]);
      assert a == [a[0]] + a[1..] && b == [b[0]] + b[1..];
    }
  }

  lemma {:induction false} StrLessTransitive(a: string, b: string, c: string)
    requires StrLess(a, b) && StrLess(b, c)
    ensures StrLess(a, c)
  {
    if a != [] && a[0] == b[0] == c[0] {
      StrLessTransitive(a[1..], b[1..], c[1..]);
    }
  }

  /** Reversed non-strict order composes. */
  lemma StrNotLessTransitive(a: string, b: string, c: string)
    requires !StrLess(b, a) && !StrLess(c, b)
    ensures !StrLess(c, a)
  {
    if StrLess(c, a) {
      StrLessConnected(a, b);
      StrLessConnected(b, c);
      if a == b || b == c {
        assert false;
      }
      StrLessTransitive(c, a, b);
      StrLessTransitive(c, b, c);
      StrLessIrreflexive(c);
    }
  }

  // ---- sorting ----

  ghost predicate Ordered(xs: seq<string>) {
    forall i, j :: 0 <= i < j < |xs| ==> StrLess(xs[i], xs[j])
  }

  ghost function Elements(xs: seq<string>): set<string> {
    set x | x in xs
  }

  /** Put a new string in its place. */
  method Insert(xs: seq<string>, x: string) returns (ys: seq<string>)
    requires Ordered(xs) && x !in xs
    ensures Ordered(ys) && Elements(ys) == Elements(xs) + {x}
  {
    var i := 0;
    while i < |xs| && StrLess(xs[i], x)
      invariant 0 <= i <= |xs| && forall j :: 0 <= j < i ==> StrLess(xs[j], x)
    {
      i := i + 1;
    }
    ys := xs[..i] + [x] + xs[i..];
    InsertOrdered(xs, x, i);
    assert xs == xs[..i] + xs[i..];
  }

  lemma InsertOrdered(xs: seq<string>, x: string, i: int)
    requires Ordered(xs) && x !in xs && 0 <= i <= |xs| && (forall j :: 0 <= j < i ==> StrLess(xs[j], x))
    requires i < |xs| ==> !StrLess(xs[i], x)
    ensures Ordered(xs[..i] + [x] + xs[i..])
  {
    var ys := xs[..i] + [x] + xs[i..];
    forall j | i <= j < |xs|
      ensures StrLess(x, xs[j])
    {
      StrLessConnected(x, xs[i]);
      if i < j {
        StrLessTransitive(x, xs[i], xs[j]);
      }
    }
    forall a, b | 0 <= a < b < |ys|
      ensures StrLess(ys[a], ys[b])
    {
      assert ys[a] == if a < i then xs[a] else if a == i then x else xs[a - 1];
      assert ys[b] == if b < i then xs[b] else if b == i then x else xs[b - 1];
    }
  }

  /** All strings of a set, in order. */
  method Sort(todo: set<string>) returns (xs: seq<string>)
    ensures Ordered(xs) && Elements(xs) == todo
  {
    xs := [];
    var rest := todo;
    while rest != {}
      invariant rest <= todo && Ordered(xs) && Elements(xs) == todo - rest
      decreases |rest|
    {
      var x :| x in rest;
      assert x !in Elements(xs);
      xs := Insert(xs, x);
      rest := rest - {x};
    }
  }
}
