/**
 What a device that pulls from cursor 0 rebuilds, over whole runs with compaction. Deduplication
 looks only at the changelog, so an op that was reclaimed may be delivered and appended again.
 */
module FreshReplay {
  import opened Basics
  import opened Ops
  import opened Reconcile
  import opened SyncState
  import opened SyncRuns
  import opened Compaction
  import opened Clock
  import opened Acknowledge
  import Convergence

  /** A fresh replica rebuilds exactly the live rows of the mirror. */
  ghost predicate FreshOk(reg: Registry, db: Db) {
    LiveRows(reg, Replay(reg, db.log)) == LiveRows(reg, db.mirror)
  }

  ghost predicate InLog(reg: Registry, log: seq<Entry>, w: Op) {
    exists e :: e in log && Normalize(reg, e.op) == w
  }

  /** A live op wins its row in the changelog, but not in the mirror. */
  ghost predicate Stray(reg: Registry, db: Db, i: int) {
    && 0 <= i < |db.log| && LogWinner(db.log, i) && !Tombstone(reg, db.log[i].op)
    && (RowOf(db.log[i].op) in db.mirror ==> db.mirror[RowOf(db.log[i].op)] != Normalize(reg, db.log[i].op))
  }

  // ---- live winners never leave the changelog ----

  ghost predicate LiveLogged(reg: Registry, db: Db) {
    forall r :: r in db.mirror && !Tombstone(reg, db.mirror[r]) ==> InLog(reg, db.log, db.mirror[r])
  }

  lemma AppendLive(reg: Registry, db: Db, op: Op, db': Db)
    requires LiveLogged(reg, db) && db'.mirror == MergeInto(reg, db.mirror, op) && db'.log == db.log + [Entry(db.lastSeq + 1, op)]
    ensures LiveLogged(reg, db')
  {
    forall r | r in db'.mirror && !Tombstone(reg, db'.mirror[r])
      ensures InLog(reg, db'.log, db'.mirror[r])
    {
      InLogGrows(reg, db.log, db'.log, db'.mirror[r]);
      if r == RowOf(op) && Beats(db.mirror, op) {
        assert Entry(db.lastSeq + 1, op) in db'.log;
      }
    }
  }

  lemma InLogGrows(reg: Registry, log: seq<Entry>, log': seq<Entry>, w: Op)
    requires log <= log'
    ensures InLog(reg, log, w) ==> InLog(reg, log', w)
  {
    if InLog(reg, log, w) {
      var e :| e in log && Normalize(reg, e.op) == w;
      assert e in log';
    }
  }

  lemma {:induction false} AdmitAllLive(reg: Registry, db: Db, ops: seq<Op>)
    requires LiveLogged(reg, db)
    ensures LiveLogged(reg, AdmitAll(reg, db, ops))
  {
    if ops != [] {
      var d := AdmitAll(reg, db, ops[..|ops| - 1]);
      AdmitAllLive(reg, db, ops[..|ops| - 1]);
      Convergence.AdmitShape(reg, d, ops[|ops| - 1]);
      var op := Complete(reg, ops[|ops| - 1]);
      if Judge(reg, d, op).Lost? || Judge(reg, d, op).Won? {
        AppendLive(reg, d, op, Admit(reg, d, ops[|ops| - 1]));
      }
    }
  }

  lemma {:induction false} AuthorAllLive(reg: Registry, db: Db, ops: seq<Op>, now: int)
    requires LiveLogged(reg, db) && AuthorAll(reg, db, ops, now).Some?
    ensures LiveLogged(reg, AuthorAll(reg, db, ops, now).value)
  {
    if ops != [] {
      var d := AuthorAll(reg, db, ops[..|ops| - 1], now).value;
      AuthorAllLive(reg, db, ops[..|ops| - 1], now);
      AppendLive(reg, d, Stamp(reg, d, ops[|ops| - 1], now), AuthorOne(reg, d, ops[|ops| - 1], now).value);
    }
  }

  lemma MirrorRow(reg: Registry, db: Db, hist: seq<Op>, e: Entry)
    requires Sound(reg, db, hist) && e in db.log
    ensures RowOf(e.op) in db.mirror && RowOf(db.mirror[RowOf(e.op)]) == RowOf(e.op)
  {
    MergeWinners(reg, hist);
    Convergence.MirrorRows(reg, db, hist);
    assert e.op in hist;
  }

  lemma SweepLive(reg: Registry, db: Db, hist: seq<Op>, wm: int)
    requires Sound(reg, db, hist) && LiveLogged(reg, db) && RegistryOk(reg)
    ensures LiveLogged(reg, Compact(reg, db, wm))
  {
    Convergence.MirrorRows(reg, db, hist);
    forall r | r in db.mirror && !Tombstone(reg, db.mirror[r])
      ensures InLog(reg, Compact(reg, db, wm).log, db.mirror[r])
    {
      var e :| e in db.log && Normalize(reg, e.op) == db.mirror[r];
      NormalizeTombstone(reg, e.op);
      assert RowOf(Normalize(reg, e.op)) == RowOf(e.op);
      Convergence.WinnerKept(reg, db, hist, wm, e);
    }
  }

  lemma NextLive(reg: Registry, s: Srv, step: Step)
    requires Sound(reg, s.db, s.hist) && LiveLogged(reg, s.db) && RegistryOk(reg)
    ensures LiveLogged(reg, Next(reg, s, step).db)
  {
    match step
    case Push(_, ops, _) => AdmitAllLive(reg, s.db, ops);
    case Author(ops, now) =>
      if AuthorAll(reg, s.db, ops, now).Some? {
        AuthorAllLive(reg, s.db, ops, now);
      }
    case Sweeping(wm) => SweepLive(reg, s.db, s.hist, wm);
    case _ =>
  }

  /** In every run the winner of every live row is in the changelog: only deletes are ever reclaimed for good. */
  lemma {:induction false} LiveWinnersStay(reg: Registry, site: string, steps: seq<Step>)
    requires RegistryOk(reg)
    ensures LiveLogged(reg, Run(reg, Start(site), steps).db)
  {
    if steps == [] {
      assert Run(reg, Start(site), steps) == Start(site);
    } else {
      var p := steps[..|steps| - 1];
      LiveWinnersStay(reg, site, p);
      MirrorIsMergeOfHistory(reg, site, p);
      NextLive(reg, Run(reg, Start(site), p), steps[|steps| - 1]);
    }
  }

  // ---- when a fresh replica is right ----

  /** The winning entry of a row is what the replay shows. */
  lemma ReplayShows(reg: Registry, db: Db, i: int)
    requires LogOk(db) && 0 <= i < |db.log| && LogWinner(db.log, i)
    ensures RowOf(db.log[i].op) in Replay(reg, db.log) && Replay(reg, db.log)[RowOf(db.log[i].op)] == Normalize(reg, db.log[i].op)
  {
    var ops := OpsOf(db.log);
    MergeWinners(reg, ops);
    assert ops[i] in ops;
    var j := ReplayWinner(reg, db, RowOf(db.log[i].op));
    WinnerUnique(db.log, i, j);
  }

  /** A mirror winner that is in the changelog is what the replay shows. */
  lemma LoggedShows(reg: Registry, db: Db, hist: seq<Op>, r: Row)
    requires Sound(reg, db, hist) && r in db.mirror && InLog(reg, db.log, db.mirror[r])
    ensures r in Replay(reg, db.log) && Replay(reg, db.log)[r] == db.mirror[r]
  {
    Convergence.MirrorRows(reg, db, hist);
    var e :| e in db.log && Normalize(reg, e.op) == db.mirror[r];
    var i :| 0 <= i < |db.log| && db.log[i] == e;
    assert RowOf(Normalize(reg, e.op)) == RowOf(e.op);
    Convergence.WinnerEntryWins(reg, db, hist, i);
    ReplayShows(reg, db, i);
  }

  lemma StrayBreaks(reg: Registry, db: Db, i: int)
    requires LogOk(db) && RegistryOk(reg) && Stray(reg, db, i)
    ensures !FreshOk(reg, db)
  {
    var r := RowOf(db.log[i].op);
    ReplayShows(reg, db, i);
    NormalizeTombstone(reg, db.log[i].op);
    assert r in LiveRows(reg, Replay(reg, db.log)) && LiveRows(reg, Replay(reg, db.log))[r] == Normalize(reg, db.log[i].op);
    if r in LiveRows(reg, db.mirror) {
      assert LiveRows(reg, db.mirror)[r] == db.mirror[r];
    }
  }

  /** Without strays the replay shows no live row that the mirror does not. */
  lemma ReplayedIsLive(reg: Registry, db: Db, hist: seq<Op>, r: Row)
    requires Sound(reg, db, hist) && RegistryOk(reg) && (forall i :: !Stray(reg, db, i))
    requires r in Replay(reg, db.log) && !Tombstone(reg, Replay(reg, db.log)[r])
    ensures r in db.mirror && db.mirror[r] == Replay(reg, db.log)[r]
  {
    var i := ReplayWinner(reg, db, r);
    NormalizeTombstone(reg, db.log[i].op);
    MirrorRow(reg, db, hist, db.log[i]);
    assert !Stray(reg, db, i);
  }

  lemma NoStrayFresh(reg: Registry, db: Db, hist: seq<Op>)
    requires Sound(reg, db, hist) && LiveLogged(reg, db) && RegistryOk(reg) && (forall i :: !Stray(reg, db, i))
    ensures FreshOk(reg, db)
  {
    var full := Replay(reg, db.log);
    forall r | r in full && !Tombstone(reg, full[r])
      ensures r in db.mirror && db.mirror[r] == full[r]
    {
      ReplayedIsLive(reg, db, hist, r);
    }
    forall r | r in db.mirror && !Tombstone(reg, db.mirror[r])
      ensures r in full && full[r] == db.mirror[r]
    {
      LoggedShows(reg, db, hist, r);
    }
    SameLive(reg, full, db.mirror);
  }

  lemma SameLive(reg: Registry, a: Table, b: Table)
    requires forall r :: r in a && !Tombstone(reg, a[r]) ==> r in b && b[r] == a[r]
    requires forall r :: r in b && !Tombstone(reg, b[r]) ==> r in a && a[r] == b[r]
    ensures LiveRows(reg, a) == LiveRows(reg, b)
  {
  }

  /** In every reachable state a fresh replica is right if and only if no live entry wins a row it does not win in the mirror. */
  lemma FreshIff(reg: Registry, db: Db, hist: seq<Op>)
    requires Sound(reg, db, hist) && LiveLogged(reg, db) && RegistryOk(reg)
    ensures FreshOk(reg, db) <==> forall i :: !Stray(reg, db, i)
  {
    if i :| Stray(reg, db, i) {
      StrayBreaks(reg, db, i);
    } else {
      NoStrayFresh(reg, db, hist);
    }
  }

  /** A pass changes nothing about it: in particular it never reclaims a stray. */
  lemma SweepKeepsFresh(reg: Registry, db: Db, wm: int)
    requires LogOk(db) && RegistryOk(reg)
    ensures FreshOk(reg, Compact(reg, db, wm)) <==> FreshOk(reg, db)
  {
    LiveRowsSurvive(reg, db, wm);
  }

  // ---- late ops ----

  /** Every row with an entry has its winner in the changelog: what was reclaimed is gone whole. */
  ghost predicate Clean(reg: Registry, db: Db) {
    forall e :: e in db.log ==> RowOf(e.op) in db.mirror && InLog(reg, db.log, db.mirror[RowOf(e.op)])
  }

  /** An op that is appended although it loses to a winner which was reclaimed. */
  ghost predicate Late(reg: Registry, db: Db, op: Op) {
    && !Beats(db.mirror, op) && RowOf(op) in db.mirror
    && !InLog(reg, db.log, db.mirror[RowOf(op)]) && Normalize(reg, op) != db.mirror[RowOf(op)]
  }

  lemma CleanIsFresh(reg: Registry, db: Db, hist: seq<Op>)
    requires Sound(reg, db, hist) && LiveLogged(reg, db) && Clean(reg, db) && RegistryOk(reg)
    ensures FreshOk(reg, db)
  {
    forall i
      ensures !Stray(reg, db, i)
    {
      if Stray(reg, db, i) {
        assert db.log[i] in db.log;
        LoggedShows(reg, db, hist, RowOf(db.log[i].op));
        ReplayShows(reg, db, i);
      }
    }
    FreshIff(reg, db, hist);
  }

  /** One op was merged and appended. */
  ghost predicate Appended(reg: Registry, db: Db, op: Op, db': Db) {
    db'.mirror == MergeInto(reg, db.mirror, op) && db'.log == db.log + [Entry(db.lastSeq + 1, op)]
  }

  /** The winner of the op's own row is in the changelog afterwards, unless the op is late. */
  lemma OwnRowIff(reg: Registry, db: Db, op: Op, db': Db)
    requires Appended(reg, db, op, db')
    ensures RowOf(op) in db'.mirror
    ensures InLog(reg, db'.log, db'.mirror[RowOf(op)]) <==> !Late(reg, db, op)
  {
    InLogSnoc(reg, db.log, Entry(db.lastSeq + 1, op), db'.mirror[RowOf(op)]);
  }

  lemma OtherRow(reg: Registry, db: Db, op: Op, db': Db, e: Entry)
    requires Clean(reg, db) && Appended(reg, db, op, db') && e in db.log && RowOf(e.op) != RowOf(op)
    ensures RowOf(e.op) in db'.mirror && InLog(reg, db'.log, db'.mirror[RowOf(e.op)])
  {
    InLogGrows(reg, db.log, db'.log, db.mirror[RowOf(e.op)]);
  }

  /** Appending keeps the changelog clean if and only if the op is not late. */
  lemma AppendCleanIff(reg: Registry, db: Db, op: Op, db': Db)
    requires Clean(reg, db) && Appended(reg, db, op, db')
    ensures Clean(reg, db') <==> !Late(reg, db, op)
  {
    OwnRowIff(reg, db, op, db');
    assert Entry(db.lastSeq + 1, op) in db'.log;
    if !Late(reg, db, op) {
      forall e | e in db'.log
        ensures RowOf(e.op) in db'.mirror && InLog(reg, db'.log, db'.mirror[RowOf(e.op)])
      {
        if RowOf(e.op) != RowOf(op) {
          OtherRow(reg, db, op, db', e);
        }
      }
    }
  }

  lemma InLogSnoc(reg: Registry, log: seq<Entry>, e: Entry, w: Op)
    ensures InLog(reg, log + [e], w) <==> InLog(reg, log, w) || Normalize(reg, e.op) == w
  {
    InLogGrows(reg, log, log + [e], w);
    assert e in log + [e];
  }

  /** No op of the batch is late where it arrives. */
  ghost predicate NoneLate(reg: Registry, db: Db, ops: seq<Op>) {
    forall j :: 0 <= j < |ops| ==>
      var d := AdmitAll(reg, db, ops[..j]);
      var op := Complete(reg, ops[j]);
      Judge(reg, d, op).Lost? ==> !Late(reg, d, op)
  }

  lemma {:induction false} AdmitAllClean(reg: Registry, db: Db, ops: seq<Op>)
    requires Clean(reg, db) && NoneLate(reg, db, ops)
    ensures Clean(reg, AdmitAll(reg, db, ops))
  {
    if ops != [] {
      var p, last := ops[..|ops| - 1], ops[|ops| - 1];
      assert forall j :: 0 <= j < |p| ==> p[..j] == ops[..j] && p[j] == ops[j];
      AdmitAllClean(reg, db, p);
      var d, op := AdmitAll(reg, db, p), Complete(reg, last);
      Convergence.AdmitShape(reg, d, last);
      assert Judge(reg, d, op).Lost? ==> !Late(reg, d, op);
      if Judge(reg, d, op).Lost? || Judge(reg, d, op).Won? {
        AppendCleanIff(reg, d, op, Admit(reg, d, last));
      }
    }
  }

  /** An authored op wins its row, so it is never late. */
  lemma {:induction false} AuthorAllClean(reg: Registry, db: Db, ops: seq<Op>, now: int)
    requires Clean(reg, db) && MirrorBounded(db) && Max(now, db.lastHlc) + |ops| <= MAX_INT64 && AuthorAll(reg, db, ops, now).Some?
    ensures Clean(reg, AuthorAll(reg, db, ops, now).value)
  {
    if ops != [] {
      var p, op := ops[..|ops| - 1], ops[|ops| - 1];
      AuthorAllClean(reg, db, p, now);
      AuthorKeepsBounds(reg, db, p, now);
      var d := AuthorAll(reg, db, p, now).value;
      AuthorOneClean(reg, d, op, now);
    }
  }

  lemma AuthorOneClean(reg: Registry, db: Db, op: Op, now: int)
    requires Clean(reg, db) && MirrorBounded(db) && Max(now, db.lastHlc) < MAX_INT64 && AuthorOne(reg, db, op, now).Some?
    ensures Clean(reg, AuthorOne(reg, db, op, now).value)
  {
    var o := Stamp(reg, db, op, now);
    assert Beats(db.mirror, o);
    AppendCleanIff(reg, db, o, AuthorOne(reg, db, op, now).value);
  }

  lemma SweepClean(reg: Registry, db: Db, hist: seq<Op>, wm: int)
    requires Sound(reg, db, hist) && Clean(reg, db)
    ensures Clean(reg, Compact(reg, db, wm))
  {
    forall e | e in Compact(reg, db, wm).log
      ensures RowOf(e.op) in db.mirror && InLog(reg, Compact(reg, db, wm).log, db.mirror[RowOf(e.op)])
    {
      SweepMember(reg, db.log, wm, |db.log|, e);
      var i :| 0 <= i < |db.log| && db.log[i] == e && Keeps(reg, db.log, wm, i);
      assert db.log[i] in db.log;
      LoggedShows(reg, db, hist, RowOf(e.op));
      ReplayShows(reg, db, i);
      assert Normalize(reg, e.op) == db.mirror[RowOf(e.op)];
    }
  }

  ghost predicate StepNotLate(reg: Registry, db: Db, step: Step) {
    step.Push? ==> NoneLate(reg, db, step.ops)
  }

  lemma NextClean(reg: Registry, s: Srv, step: Step)
    requires Sound(reg, s.db, s.hist) && Clean(reg, s.db) && MirrorBounded(s.db) && InRange(s.db, step) && StepNotLate(reg, s.db, step)
    ensures Clean(reg, Next(reg, s, step).db)
  {
    match step
    case Push(_, ops, _) => AdmitAllClean(reg, s.db, ops);
    case Author(ops, now) =>
      if AuthorAll(reg, s.db, ops, now).Some? {
        AuthorAllClean(reg, s.db, ops, now);
      }
    case Sweeping(wm) => SweepClean(reg, s.db, s.hist, wm);
    case _ =>
  }

  /**
   Over every run of pushes, authoring, cursors, prunes and compactions in which no op arrives after
   the winner it loses to was reclaimed, a fresh replica rebuilds exactly the live rows.
   */
  lemma {:induction false} FreshEveryRun(reg: Registry, site: string, steps: seq<Step>)
    requires RegistryOk(reg) && RunInRange(reg, Start(site), steps)
    requires forall i :: 0 <= i < |steps| ==> StepNotLate(reg, Run(reg, Start(site), steps[..i]).db, steps[i])
    ensures Clean(reg, Run(reg, Start(site), steps).db) && FreshOk(reg, Run(reg, Start(site), steps).db)
  {
    if steps == [] {
      assert Run(reg, Start(site), steps) == Start(site);
    } else {
      var p := steps[..|steps| - 1];
      assert forall i :: 0 <= i < |p| ==> p[..i] == steps[..i] && p[i] == steps[i];
      FreshEveryRun(reg, site, p);
      MirrorIsMergeOfHistory(reg, site, p);
      ClockBoundsEveryRun(reg, site, p);
      var s := Run(reg, Start(site), p);
      assert InRange(s.db, steps[|steps| - 1]) && StepNotLate(reg, s.db, steps[|steps| - 1]);
      NextClean(reg, s, steps[|steps| - 1]);
    }
    MirrorIsMergeOfHistory(reg, site, steps);
    LiveWinnersStay(reg, site, steps);
    CleanIsFresh(reg, Run(reg, Start(site), steps).db, Run(reg, Start(site), steps).hist);
  }

  /** The first late op leaves a fresh replica right if and only if it is itself a delete. */
  lemma LateOpIff(reg: Registry, db: Db, hist: seq<Op>, op: Op, db': Db)
    requires Sound(reg, db, hist) && LiveLogged(reg, db) && Clean(reg, db) && RegistryOk(reg) && Late(reg, db, op)
    requires db'.mirror == MergeInto(reg, db.mirror, op) && db'.log == db.log + [Entry(db.lastSeq + 1, op)]
    requires Sound(reg, db', hist + [op])
    ensures FreshOk(reg, db') <==> Tombstone(reg, op)
  {
    AppendLive(reg, db, op, db');
    FreshIff(reg, db', hist + [op]);
    var n := |db.log|;
    assert db'.log[n] == Entry(db.lastSeq + 1, op);
    LateStands(reg, db, op, db');
    assert Stray(reg, db', n) <==> !Tombstone(reg, op);
    forall i | 0 <= i < n
      ensures !Stray(reg, db', i)
    {
      OldNotStray(reg, db, hist, op, db', i);
    }
  }

  /** The row of a late op has no other entry. */
  lemma LateStands(reg: Registry, db: Db, op: Op, db': Db)
    requires Clean(reg, db) && Late(reg, db, op) && db'.log == db.log + [Entry(db.lastSeq + 1, op)]
    ensures (forall i :: 0 <= i < |db.log| ==> RowOf(db.log[i].op) != RowOf(op)) && LogWinner(db'.log, |db.log|)
  {
    forall i | 0 <= i < |db.log|
      ensures RowOf(db.log[i].op) != RowOf(op)
    {
      assert db.log[i] in db.log;
    }
    LessIrreflexive(op, op);
  }

  lemma OldNotStray(reg: Registry, db: Db, hist: seq<Op>, op: Op, db': Db, i: int)
    requires Sound(reg, db, hist) && Clean(reg, db) && 0 <= i < |db.log| && Late(reg, db, op)
    requires db'.mirror == MergeInto(reg, db.mirror, op) && db'.log == db.log + [Entry(db.lastSeq + 1, op)]
    ensures !Stray(reg, db', i)
  {
    if Stray(reg, db', i) {
      WinnerBefore(db.log, Entry(db.lastSeq + 1, op), i);
      assert db.log[i] in db.log;
      LoggedShows(reg, db, hist, RowOf(db.log[i].op));
      ReplayShows(reg, db, i);
    }
  }

  lemma WinnerBefore(log: seq<Entry>, e: Entry, i: int)
    requires 0 <= i < |log| && LogWinner(log + [e], i)
    ensures LogWinner(log, i)
  {
    var all := log + [e];
    assert forall j :: 0 <= j < |log| ==> all[j] == log[j];
  }

  // ---- such a run ----

  lemma PushOne(reg: Registry, s: Srv, d: string, op: Op, now: int)
    ensures var t, a := Next(reg, s, Push(d, [op], now)), Admit(reg, s.db, op);
            t.db.log == a.log && t.db.lastSeq == a.lastSeq && t.db.mirror == a.mirror
  {
    OneOp(reg, s.db, op);
  }

  lemma SweptAway(reg: Registry, e1: Entry, e2: Entry, wm: int)
    requires RowOf(e1.op) == RowOf(e2.op) && Less(e1.op, e2.op) && Tombstone(reg, e2.op) && e2.at <= wm
    ensures Sweep(reg, [e1, e2], wm) == []
  {
    var log := [e1, e2];
    assert RowOf(log[1].op) == RowOf(log[0].op) && Less(log[0].op, log[1].op);
    assert !Keeps(reg, log, wm, 0) && !Keeps(reg, log, wm, 1);
    assert SweepTo(reg, log, wm, 0) == [] && SweepTo(reg, log, wm, 1) == [];
  }

  /** The mirror has this one row. */
  predicate OnlyRow(m: Table, w: Op) {
    m.Keys == {RowOf(w)} && m[RowOf(w)] == w
  }

  lemma CreatedRow(reg: Registry, site: string, d: string, create: Op, now: int) returns (s: Srv)
    requires Acceptable(reg, Complete(reg, create))
    ensures s == Next(reg, Start(site), Push(d, [create], now)) && s.db.lastSeq == 1
    ensures s.db.log == [Entry(1, Complete(reg, create))] && OnlyRow(s.db.mirror, Normalize(reg, Complete(reg, create)))
  {
    s := Next(reg, Start(site), Push(d, [create], now));
    PushWins(reg, Start(site), d, create, now);
    assert [] + [Entry(1, Complete(reg, create))] == [Entry(1, Complete(reg, create))];
  }

  lemma RowReplaced(reg: Registry, m: Table, c: Op, x: Op)
    requires OnlyRow(m, Normalize(reg, c)) && RowOf(x) == RowOf(c) && c.ts < x.ts
    ensures Beats(m, x) && OnlyRow(m[RowOf(x) := Normalize(reg, x)], Normalize(reg, x))
  {
  }

  lemma DeletedRow(reg: Registry, s: Srv, d: string, c: Op, delete: Op, now: int) returns (t: Srv)
    requires s.db.log == [Entry(1, c)] && s.db.lastSeq == 1 && OnlyRow(s.db.mirror, Normalize(reg, c))
    requires Acceptable(reg, Complete(reg, delete)) && RowOf(delete) == RowOf(c) && c.ts < delete.ts && c.opSeq == 1 && delete.opSeq == 2
    ensures t == Next(reg, s, Push(d, [delete], now)) && t.db.lastSeq == 2
    ensures t.db.log == [Entry(1, c)] + [Entry(2, Complete(reg, delete))] && OnlyRow(t.db.mirror, Normalize(reg, Complete(reg, delete)))
  {
    t := Next(reg, s, Push(d, [delete], now));
    RowReplaced(reg, s.db.mirror, c, Complete(reg, delete));
    PushWins(reg, s, d, delete, now);
  }

  /** A row is created and deleted by one device, and the delete is reclaimed. */
  lemma CreatedAndPurged(reg: Registry, site: string, d: string, create: Op, delete: Op, now: int) returns (s: Srv)
    requires Acceptable(reg, Complete(reg, create)) && Acceptable(reg, Complete(reg, delete)) && RowOf(create) == RowOf(delete)
    requires create.ts < delete.ts && create.site == delete.site == d && create.opSeq == 1 && delete.opSeq == 2
    requires Tombstone(reg, Complete(reg, delete))
    ensures s == Next(reg, Next(reg, Next(reg, Start(site), Push(d, [create], now)), Push(d, [delete], now)), Sweeping(2))
    ensures s.db.log == [] && s.db.lastSeq == 2 && OnlyRow(s.db.mirror, Normalize(reg, Complete(reg, delete)))
  {
    var s1 := CreatedRow(reg, site, d, create, now);
    var s2 := DeletedRow(reg, s1, d, Complete(reg, create), delete, now);
    s := SweptEmpty(reg, s2, Entry(1, Complete(reg, create)), Entry(2, Complete(reg, delete)));
  }

  lemma SweptEmpty(reg: Registry, s: Srv, e1: Entry, e2: Entry) returns (t: Srv)
    requires s.db.log == [e1] + [e2] && RowOf(e1.op) == RowOf(e2.op) && Less(e1.op, e2.op) && Tombstone(reg, e2.op) && e2.at <= 2
    ensures t == Next(reg, s, Sweeping(2)) && t.db == s.db.(log := [])
  {
    t := Next(reg, s, Sweeping(2));
    assert s.db.log == [e1, e2];
    SweptAway(reg, e1, e2, 2);
  }

  /** A new acceptable op that beats its row is appended and becomes the row. */
  lemma PushWins(reg: Registry, s: Srv, d: string, op: Op, now: int)
    requires Acceptable(reg, Complete(reg, op)) && !Logged(s.db.log, op.site, op.opSeq) && Beats(s.db.mirror, Complete(reg, op))
    ensures var t, o := Next(reg, s, Push(d, [op], now)), Complete(reg, op);
            && t.db.log == s.db.log + [Entry(s.db.lastSeq + 1, o)] && t.db.lastSeq == s.db.lastSeq + 1
            && t.db.mirror == s.db.mirror[RowOf(o) := Normalize(reg, o)]
  {
    PushOne(reg, s, d, op, now);
    AdmitNew(reg, s.db, op);
  }

  /**
   For every row: create and delete it, compact, and deliver the create again. It is appended at a new
   sequence number, a fresh replica shows the row live although the mirror has it deleted, and no
   number of later passes, at whatever watermark, changes that.
   */
  lemma RedeliveryRun(reg: Registry, site: string, d: string, create: Op, delete: Op, now: int, wm: int) returns (s: Srv)
    requires Acceptable(reg, Complete(reg, create)) && Acceptable(reg, Complete(reg, delete)) && RowOf(create) == RowOf(delete)
    requires create.ts < delete.ts && create.site == delete.site == d && create.opSeq == 1 && delete.opSeq == 2
    requires Tombstone(reg, Complete(reg, delete)) && !Tombstone(reg, Complete(reg, create)) && RegistryOk(reg)
    ensures s == Run(reg, Start(site), [Push(d, [create], now), Push(d, [delete], now), Sweeping(2), Push(d, [create], now)])
    ensures s.db.log == [Entry(3, Complete(reg, create))] && OnlyRow(s.db.mirror, Normalize(reg, Complete(reg, delete)))
    ensures !FreshOk(reg, s.db) && !FreshOk(reg, Compact(reg, s.db, wm)) && Compact(reg, s.db, wm) == s.db
  {
    var purged := CreatedAndPurged(reg, site, d, create, delete, now);
    s := Next(reg, purged, Push(d, [create], now));
    Unrolled(reg, site, Push(d, [create], now), Push(d, [delete], now), Sweeping(2), Push(d, [create], now));
    PushOne(reg, purged, d, create, now);
    AdmitNew(reg, purged.db, create);
    Reappended(reg, purged.db, create, Complete(reg, delete));
    NormalizeTombstone(reg, Complete(reg, delete));
    MirrorIsMergeOfHistory(reg, site, [Push(d, [create], now), Push(d, [delete], now), Sweeping(2), Push(d, [create], now)]);
    StrayStays(reg, s.db, wm);
  }

  lemma Unrolled(reg: Registry, site: string, a: Step, b: Step, c: Step, d: Step)
    ensures Run(reg, Start(site), [a, b, c, d]) == Next(reg, Next(reg, Next(reg, Next(reg, Start(site), a), b), c), d)
  {
    assert [a, b, c, d][..3] == [a, b, c] && [a, b, c][..2] == [a, b] && [a, b][..1] == [a] && [a][..0] == [];
    assert Run(reg, Start(site), []) == Start(site);
    assert Run(reg, Start(site), [a]) == Next(reg, Start(site), a);
    assert Run(reg, Start(site), [a, b]) == Next(reg, Run(reg, Start(site), [a]), b);
    assert Run(reg, Start(site), [a, b, c]) == Next(reg, Run(reg, Start(site), [a, b]), c);
  }

  lemma Reappended(reg: Registry, db: Db, create: Op, x: Op)
    requires db.log == [] && OnlyRow(db.mirror, Normalize(reg, x)) && RowOf(create) == RowOf(x) && create.ts < x.ts
    requires Acceptable(reg, Complete(reg, create))
    ensures Admit(reg, db, create).mirror == db.mirror
  {
  }

  /** One live entry alone: no pass removes it. */
  lemma StrayStays(reg: Registry, db: Db, wm: int)
    requires LogOk(db) && RegistryOk(reg) && |db.log| == 1 && !Tombstone(reg, db.log[0].op)
    requires RowOf(db.log[0].op) in db.mirror && Tombstone(reg, db.mirror[RowOf(db.log[0].op)])
    ensures !FreshOk(reg, db) && !FreshOk(reg, Compact(reg, db, wm)) && Compact(reg, db, wm) == db
  {
    var e := db.log[0];
    LessIrreflexive(e.op, e.op);
    assert LogWinner(db.log, 0);
    ReplayShows(reg, db, 0);
    NormalizeTombstone(reg, e.op);
    assert RowOf(e.op) in LiveRows(reg, Replay(reg, db.log));
    assert RowOf(e.op) !in LiveRows(reg, db.mirror);
    SweepKeepsFresh(reg, db, wm);
    assert SweepTo(reg, db.log, wm, 0) == [];
    assert Sweep(reg, db.log, wm) == db.log;
  }
}
