/** The batch merge: the winning op per row, and why arrival order cannot matter. */
module Reconcile {
  import opened Ops

  type Table = map<Row, Op>

  predicate Beats(m: Table, op: Op) {
    RowOf(op) !in m || Less(m[RowOf(op)], op)
  }

  function MergeInto(reg: Registry, m: Table, op: Op): Table {
    if Beats(m, op) then m[RowOf(op) := Normalize(reg, op)] else m
  }

  /** Merging a sequence of ops one at a time, in order. */
  function MergeAll(reg: Registry, ops: seq<Op>): Table {
    if ops == [] then map[] else MergeInto(reg, MergeAll(reg, ops[..|ops| - 1]), ops[|ops| - 1])
  }

  method Merge(reg: Registry, ops: seq<Op>) returns (winners: Table)
    ensures winners == MergeAll(reg, ops)
    ensures WinnersOf(reg, winners, ops)
  {
    winners := map[];
    for i := 0 to |ops|
      invariant winners == MergeAll(reg, ops[..i])
    {
      assert ops[..i + 1][..i] == ops[..i];
      var n := Normalize(reg, ops[i]);
      if RowOf(n) !in winners || Less(winners[RowOf(n)], n) {
        winners := winners[RowOf(n) := n];
      }
    }
    assert ops[..|ops|] == ops;
    MergeWinners(reg, ops);
  }

  /** What a merge result means, without naming an order of arrival: each row holds a greatest op. */
  ghost predicate WinnersOf(reg: Registry, m: Table, ops: seq<Op>) {
    && (forall op :: op in ops ==> RowOf(op) in m && !Less(m[RowOf(op)], op))
    && (forall r :: r in m ==> FromOps(reg, m[r], r, ops))
  }

  ghost predicate FromOps(reg: Registry, w: Op, r: Row, ops: seq<Op>) {
    exists op :: op in ops && RowOf(op) == r && Normalize(reg, op) == w
  }

  /** Identity determines the op: the hypothesis every replica's op log satisfies. */
  ghost predicate OneOpPerId(ops: seq<Op>) {
    forall a, b :: a in ops && b in ops && SameId(a, b) ==> a == b
  }

  lemma MergeIntoWinners(reg: Registry, m: Table, ops: seq<Op>, op: Op)
    requires WinnersOf(reg, m, ops)
    ensures WinnersOf(reg, MergeInto(reg, m, op), ops + [op])
  {
    var m' := MergeInto(reg, m, op);
    var all := ops + [op];
    forall o | o in all
      ensures RowOf(o) in m' && !Less(m'[RowOf(o)], o)
    {
      if o in ops && RowOf(o) == RowOf(op) && Beats(m, op) {
        LessAsymmetric(m[RowOf(o)], op);
        LeqTransitive(o, m[RowOf(o)], op);
      } else if o == op {
        LessIrreflexive(op, op);
      }
    }
    forall r | r in m'
      ensures FromOps(reg, m'[r], r, all)
    {
      if r == RowOf(op) && Beats(m, op) {
        assert op in all;
      } else {
        var o :| o in ops && RowOf(o) == r && Normalize(reg, o) == m[r];
        assert o in all;
      }
    }
  }

  lemma {:induction false} MergeWinners(reg: Registry, ops: seq<Op>)
    ensures WinnersOf(reg, MergeAll(reg, ops), ops)
  {
    if ops != [] {
      var p := ops[..|ops| - 1];
      MergeWinners(reg, p);
      MergeIntoWinners(reg, MergeAll(reg, p), p, ops[|ops| - 1]);
      assert ops == p + [ops[|ops| - 1]];
    }
  }

  /** Convergence: two merges of the same set of ops agree, whatever the order or duplication. */
  lemma WinnersUnique(reg: Registry, m1: Table, s1: seq<Op>, m2: Table, s2: seq<Op>)
    requires WinnersOf(reg, m1, s1) && WinnersOf(reg, m2, s2)
    requires forall op :: op in s1 <==> op in s2
    requires OneOpPerId(s1)
    ensures m1 == m2
  {
    forall r | r in m1
      ensures r in m2 && m1[r] == m2[r]
    {
      var a :| a in s1 && RowOf(a) == r && Normalize(reg, a) == m1[r];
      var b :| b in s2 && RowOf(b) == r && Normalize(reg, b) == m2[r];
      LessConnected(a, b);
      assert a == b;
    }
    forall r | r in m2
      ensures r in m1
    {
      var b :| b in s2 && RowOf(b) == r && Normalize(reg, b) == m2[r];
    }
  }

  lemma MergeOrderIrrelevant(reg: Registry, s1: seq<Op>, s2: seq<Op>)
    requires forall op :: op in s1 <==> op in s2
    requires OneOpPerId(s1)
    ensures MergeAll(reg, s1) == MergeAll(reg, s2)
  {
    MergeWinners(reg, s1);
    MergeWinners(reg, s2);
    WinnersUnique(reg, MergeAll(reg, s1), s1, MergeAll(reg, s2), s2);
  }

  /** Without the identity hypothesis the first arrival wins a tie, so order does matter. */
  lemma OrderMattersOnKeyCollision(reg: Registry)
    requires reg.tables == map[FolderT := map[SortOrder := IntCol]]
    ensures exists a, b :: MergeAll(reg, [a, b]) != MergeAll(reg, [b, a])
  {
    var a := Op(FolderT, "p", "s", 1, 1, map[SortOrder := Num(1)]);
    var b := Op(FolderT, "p", "s", 1, 1, map[SortOrder := Num(2)]);
    assert SortOrder in Columns(reg, FolderT);
    LessIrreflexive(a, b);
    LessIrreflexive(b, a);
    assert [a, b][..1] == [a] && [b, a][..1] == [b] && [a][..0] == [] && [b][..0] == [];
    var r := RowOf(a);
    assert MergeAll(reg, [a]) == map[r := Normalize(reg, a)];
    assert MergeAll(reg, [b]) == map[r := Normalize(reg, b)];
    assert MergeAll(reg, [a, b]) == MergeAll(reg, [a]);
    assert MergeAll(reg, [b, a]) == MergeAll(reg, [b]);
    assert Normalize(reg, a).cols[SortOrder] == Num(1) && Normalize(reg, b).cols[SortOrder] == Num(2);
  }

}
