/** What one compaction pass preserves of the changelog. */
module Compaction {
  import opened Ops
  import opened Reconcile
  import opened SyncState

  function OpsOf(log: seq<Entry>): (r: seq<Op>)
    ensures |r| == |log| && forall i | 0 <= i < |log| :: r[i] == log[i].op
  {
    if log == [] then [] else OpsOf(log[..|log| - 1]) + [log[|log| - 1].op]
  }

  /** What a fresh replica holds after replaying a changelog from cursor 0. */
  function Replay(reg: Registry, log: seq<Entry>): Table {
    MergeAll(reg, OpsOf(log))
  }

  function LiveRows(reg: Registry, m: Table): Table {
    map r | r in m && !Tombstone(reg, m[r]) :: m[r]
  }

  /** The row's winner is a tombstone the watermark allows to be reclaimed. */
  ghost predicate Purged(reg: Registry, log: seq<Entry>, wm: int, r: Row) {
    exists i :: 0 <= i < |log| && RowOf(log[i].op) == r && LogWinner(log, i) && Tombstone(reg, log[i].op) && log[i].at <= wm
  }

  /** The replayed content of a row is the op of that row's winning entry. */
  lemma ReplayWinner(reg: Registry, db: Db, r: Row) returns (i: int)
    requires LogOk(db) && r in Replay(reg, db.log)
    ensures 0 <= i < |db.log| && RowOf(db.log[i].op) == r && LogWinner(db.log, i)
    ensures Replay(reg, db.log)[r] == Normalize(reg, db.log[i].op)
  {
    var ops := OpsOf(db.log);
    MergeWinners(reg, ops);
    var op :| op in ops && RowOf(op) == r && Normalize(reg, op) == Replay(reg, db.log)[r];
    i :| 0 <= i < |ops| && ops[i] == op;
    forall j | 0 <= j < |db.log| && RowOf(db.log[j].op) == r
      ensures !Less(db.log[i].op, db.log[j].op)
      ensures j < i ==> Less(db.log[j].op, db.log[i].op)
    {
      assert ops[j] in ops;
      if j < i && !Less(db.log[j].op, db.log[i].op) {
        LessConnected(db.log[i].op, db.log[j].op);
      }
    }
  }

  /** A row has at most one winning entry. */
  lemma WinnerUnique(log: seq<Entry>, i: int, j: int)
    requires 0 <= i < |log| && 0 <= j < |log| && RowOf(log[i].op) == RowOf(log[j].op)
    requires LogWinner(log, i) && LogWinner(log, j)
    ensures i == j
  {
  }

  lemma KeptNotPurged(reg: Registry, log: seq<Entry>, wm: int, i: int)
    requires 0 <= i < |log| && Keeps(reg, log, wm, i)
    ensures !Purged(reg, log, wm, RowOf(log[i].op))
  {
    forall j | 0 <= j < |log| && RowOf(log[j].op) == RowOf(log[i].op) && LogWinner(log, j)
      ensures j == i
    {
      WinnerUnique(log, i, j);
    }
  }

  lemma SurvivorsSound(reg: Registry, db: Db, wm: int, part: Table)
    requires LogOk(db)
    requires forall r :: r in part <==> r in Replay(reg, db.log) && !Purged(reg, db.log, wm, r)
    requires forall r :: r in part ==> part[r] == Replay(reg, db.log)[r]
    ensures WinnersOf(reg, part, OpsOf(Sweep(reg, db.log, wm)))
  {
    var kept := Sweep(reg, db.log, wm);
    var ops, all := OpsOf(kept), OpsOf(db.log);
    MergeWinners(reg, all);
    forall o | o in ops
      ensures RowOf(o) in part && !Less(part[RowOf(o)], o)
    {
      var k :| 0 <= k < |kept| && ops[k] == o;
      SweepMember(reg, db.log, wm, |db.log|, kept[k]);
      var i :| 0 <= i < |db.log| && db.log[i] == kept[k] && Keeps(reg, db.log, wm, i);
      assert all[i] == o && o in all;
      KeptNotPurged(reg, db.log, wm, i);
    }
    forall r | r in part
      ensures FromOps(reg, part[r], r, ops)
    {
      var i := ReplayWinner(reg, db, r);
      assert Keeps(reg, db.log, wm, i);
      SweepMember(reg, db.log, wm, |db.log|, db.log[i]);
      var k :| 0 <= k < |kept| && kept[k] == db.log[i];
      assert ops[k] in ops;
    }
  }

  /**
   Replaying the survivors from cursor 0 rebuilds exactly the rows the full changelog rebuilds,
   except the rows whose winner is a tombstone at or below the watermark.
   */
  lemma ReplayAfterCompact(reg: Registry, db: Db, wm: int, r: Row)
    requires LogOk(db)
    ensures var full, part := Replay(reg, db.log), Replay(reg, Compact(reg, db, wm).log);
            && (r in part <==> r in full && !Purged(reg, db.log, wm, r))
            && (r in part ==> part[r] == full[r])
  {
    var full := Replay(reg, db.log);
    var part := map x | x in full && !Purged(reg, db.log, wm, x) :: full[x];
    var kept := Sweep(reg, db.log, wm);
    SurvivorsSound(reg, db, wm, part);
    CompactKeepsLogOk(reg, db, wm);
    MergeWinners(reg, OpsOf(kept));
    WinnersUnique(reg, part, OpsOf(kept), Replay(reg, kept), OpsOf(kept));
  }

  /** The live rows a fresh replica rebuilds do not change at all. */
  lemma LiveRowsSurvive(reg: Registry, db: Db, wm: int)
    requires LogOk(db) && RegistryOk(reg)
    ensures LiveRows(reg, Replay(reg, Compact(reg, db, wm).log)) == LiveRows(reg, Replay(reg, db.log))
  {
    var full, part := Replay(reg, db.log), Replay(reg, Compact(reg, db, wm).log);
    forall r
      ensures r in LiveRows(reg, part) <==> r in LiveRows(reg, full)
      ensures r in LiveRows(reg, full) ==> r in part && part[r] == full[r]
    {
      ReplayAfterCompact(reg, db, wm, r);
      if r in full && Purged(reg, db.log, wm, r) {
        var i := ReplayWinner(reg, db, r);
        var j :| 0 <= j < |db.log| && RowOf(db.log[j].op) == r && LogWinner(db.log, j)
                 && Tombstone(reg, db.log[j].op) && db.log[j].at <= wm;
        WinnerUnique(db.log, i, j);
        NormalizeTombstone(reg, db.log[i].op);
      }
    }
    assert LiveRows(reg, part).Keys == LiveRows(reg, full).Keys;
  }

  /** Survivors win their rows among the survivors too, so a second pass keeps all of them. */
  lemma SurvivorStillWins(reg: Registry, db: Db, wm: int, k: int)
    requires LogOk(db) && 0 <= k < |Sweep(reg, db.log, wm)|
    ensures Keeps(reg, Sweep(reg, db.log, wm), wm, k)
  {
    var kept := Sweep(reg, db.log, wm);
    SweepMember(reg, db.log, wm, |db.log|, kept[k]);
    var i :| 0 <= i < |db.log| && db.log[i] == kept[k] && Keeps(reg, db.log, wm, i);
    forall j | 0 <= j < |kept| && RowOf(kept[j].op) == RowOf(kept[k].op)
      ensures j == k
    {
      SweepMember(reg, db.log, wm, |db.log|, kept[j]);
      var m :| 0 <= m < |db.log| && db.log[m] == kept[j] && Keeps(reg, db.log, wm, m);
      WinnerUnique(db.log, i, m);
      SweepSorted(reg, db, wm, |db.log|);
    }
    LessIrreflexive(kept[k].op, kept[k].op);
  }

  /** Compaction is idempotent. */
  lemma SweepIdempotent(reg: Registry, db: Db, wm: int)
    requires LogOk(db)
    ensures Compact(reg, Compact(reg, db, wm), wm) == Compact(reg, db, wm)
  {
    var kept := Sweep(reg, db.log, wm);
    forall k | 0 <= k < |kept|
      ensures Keeps(reg, kept, wm, k)
    {
      SurvivorStillWins(reg, db, wm, k);
    }
    SweepAll(reg, kept, wm, |kept|);
  }

  lemma {:induction false} SweepAll(reg: Registry, log: seq<Entry>, wm: int, n: int)
    requires 0 <= n <= |log| && forall k :: 0 <= k < |log| ==> Keeps(reg, log, wm, k)
    ensures SweepTo(reg, log, wm, n) == log[..n]
  {
    if n > 0 {
      SweepAll(reg, log, wm, n - 1);
    }
  }
}
