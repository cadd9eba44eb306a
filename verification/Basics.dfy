/** What every component uses. */
module Basics {

  datatype Option<+T> = None | Some(value: T)

  type Byte = b: int | 0 <= b < 256

  const MAX_INT64 := 0x7fff_ffff_ffff_ffff
  const MIN_INT64 := -0x8000_0000_0000_0000

  /** Concatenation associates. */
  lemma Regroup<T>(a: seq<T>, b: seq<T>, c: seq<T>)
    ensures a + (b + c) == (a + b) + c && a + [] == a
  {
  }

  /** How many of the first n values are true. */
  ghost function Count(bs: seq<bool>, n: int): (r: nat)
    requires 0 <= n <= |bs|
  {
    if n == 0 then 0 else Count(bs, n - 1) + if bs[n - 1] then 1 else 0
  }

  /** It is the number of places that hold true. */
  lemma {:induction false} CountPlaces(bs: seq<bool>, n: nat)
    requires n <= |bs|
    ensures Count(bs, n) == |set i | 0 <= i < n && bs[i]|
  {
    var places := set i | 0 <= i < n && bs[i];
    if n == 0 {
      assert places == {};
    } else {
      CountPlaces(bs, n - 1);
      assert places == (set i | 0 <= i < n - 1 && bs[i]) + if bs[n - 1] then {n - 1} else {};
    }
  }

  /** What stands at the given places of a table, in table order, and these are all the places that pass the test. */
  ghost predicate PickedAt<T(!new)>(table: seq<T>, test: T -> bool, out: seq<T>, places: seq<int>) {
    && |places| == |out|
    && (forall k :: 0 <= k < |places| ==> 0 <= places[k] < |table| && table[places[k]] == out[k] && test(out[k]))
    && (forall j, k :: 0 <= j < k < |places| ==> places[j] < places[k])
    && (forall i :: 0 <= i < |table| && test(table[i]) ==> i in places)
  }

  /** Exactly the elements that pass a test, in table order. */
  ghost predicate Picks<T(!new)>(table: seq<T>, test: T -> bool, out: seq<T>) {
    exists places :: PickedAt(table, test, out, places)
  }

  lemma PicksNone<T(!new)>(test: T -> bool)
    ensures Picks([], test, [])
  {
    assert PickedAt([], test, [], []);
  }

  lemma PicksNext<T(!new)>(table: seq<T>, test: T -> bool, out: seq<T>, x: T)
    requires Picks(table, test, out)
    ensures Picks(table + [x], test, out + if test(x) then [x] else [])
  {
    var places :| PickedAt(table, test, out, places);
    if test(x) {
      PickedOne(table, test, out, places, x);
    } else {
      assert PickedAt(table + [x], test, out + [], places);
    }
  }

  lemma PickedOne<T(!new)>(table: seq<T>, test: T -> bool, out: seq<T>, places: seq<int>, x: T)
    requires PickedAt(table, test, out, places) && test(x)
    ensures PickedAt(table + [x], test, out + [x], places + [|table|])
  {
    var more := places + [|table|];
    forall i | 0 <= i < |table + [x]| && test((table + [x])[i])
      ensures i in more
    {
      if i == |table| {
        assert more[|places|] == i;
      } else {
        assert i in places;
      }
    }
  }

  lemma {:induction false} SubsetSize<T>(a: set<T>, b: set<T>)
    requires a <= b
    ensures |a| <= |b|
  {
    if a != {} {
      var x :| x in a;
      SubsetSize(a - {x}, b - {x});
    }
  }
}
