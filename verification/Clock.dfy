/** The durable hybrid clock bounds everything observed, so what the server authors wins. */
module Clock {
  import opened Basics
  import opened Ops
  import opened Reconcile
  import opened SyncState
  import opened SyncRuns
  import opened Text

  lemma {:induction false} MaxTsBounds(ops: seq<Op>)
    ensures 0 <= MaxTs(ops)
    ensures forall op :: op in ops ==> op.ts <= MaxTs(ops)
    ensures MaxTs(ops) == 0 || exists op :: op in ops && op.ts == MaxTs(ops)
  {
    if ops != [] {
      var p := ops[..|ops| - 1];
      MaxTsBounds(p);
      assert ops == p + [ops[|ops| - 1]];
      assert ops[|ops| - 1] in ops;
    }
  }

  /** One push raises the clock past every op it carried exactly when none carries the last int64. */
  lemma ReceivePassesEveryOp(last: int, now: int, ops: seq<Op>)
    requires last <= MAX_INT64 && now <= MAX_INT64 && forall op :: op in ops ==> op.ts <= MAX_INT64
    ensures (forall op :: op in ops ==> op.ts < ReceiveEvent(last, now, MaxTs(ops)))
            <==> (forall op :: op in ops ==> op.ts < MAX_INT64)
  {
    MaxTsBounds(ops);
  }

  /** After a push the clock is the least time at or past the wall clock and past zero, its old value and every op of the batch. */
  lemma PushClockExact(reg: Registry, db: Db, site: string, ops: seq<Op>, now: int)
    requires db.lastHlc < MAX_INT64 && now <= MAX_INT64 && forall op :: op in ops ==> op.ts < MAX_INT64
    ensures var c := ApplyBatch(reg, db, site, ops, now).lastHlc;
            && now <= c && 0 < c && db.lastHlc < c && (forall op :: op in ops ==> op.ts < c)
            && (c == now || c == 1 || c == db.lastHlc + 1 || exists op :: op in ops && c == op.ts + 1)
  {
    MaxTsBounds(ops);
  }

  /** An authored timestamp is the least at or past the wall clock and past the clock; it passes the clock unless that is exhausted. */
  lemma LocalPassesClock(last: int, now: int)
    requires MIN_INT64 <= last <= MAX_INT64 && MIN_INT64 <= now <= MAX_INT64
    ensures last < LocalEvent(last, now) <==> last < MAX_INT64
    ensures now <= LocalEvent(last, now) <= MAX_INT64
    ensures last < MAX_INT64 ==> LocalEvent(last, now) == now || LocalEvent(last, now) == last + 1
  {
  }

  /** No clock arithmetic in this step leaves the 64-bit range. */
  predicate InRange(db: Db, step: Step) {
    match step
    case Push(_, ops, now) =>
      db.lastHlc < MAX_INT64 && now <= MAX_INT64 && forall op :: op in ops ==> op.ts < MAX_INT64
    case Author(ops, now) => Max(now, db.lastHlc) + |ops| <= MAX_INT64
    case _ => true
  }

  ghost predicate RunInRange(reg: Registry, s: Srv, steps: seq<Step>) {
    forall i :: 0 <= i < |steps| ==> InRange(Run(reg, s, steps[..i]).db, steps[i])
  }

  ghost predicate ClockBounds(s: Srv) {
    && (forall op :: op in s.received ==> op.ts <= s.db.lastHlc)
    && (forall op :: op in s.hist ==> op in s.received)
  }

  ghost predicate MirrorBounded(db: Db) {
    forall r :: r in db.mirror ==> db.mirror[r].ts <= db.lastHlc
  }

  /** Laying rows over a table: every one of them becomes its row's content. */
  function Overlay(reg: Registry, m: Table, ops: seq<Op>): Table {
    if ops == [] then m
    else Overlay(reg, m, ops[..|ops| - 1])[RowOf(ops[|ops| - 1]) := Normalize(reg, ops[|ops| - 1])]
  }

  /** What an authoring transaction wrote: own identity, consecutive op_seqs, rising timestamps, given rows. */
  ghost predicate StampedFrom(reg: Registry, db: Db, ops: seq<Op>, os: seq<Op>) {
    && |os| == |ops|
    && (forall i :: 0 <= i < |os| ==> os[i].site == db.site && os[i].opSeq == db.siteOpSeq + 1 + i)
    && (forall i :: 0 <= i < |os| ==> db.lastHlc < os[i].ts)
    && (forall i, j :: 0 <= i < j < |os| ==> os[i].ts < os[j].ts)
    && (forall i :: 0 <= i < |os| ==> RowOf(os[i]) == RowOf(ops[i]) && os[i].cols == Complete(reg, ops[i]).cols)
  }

  lemma AuthorOneWins(reg: Registry, db: Db, op: Op, now: int)
    requires MirrorBounded(db) && Max(now, db.lastHlc) < MAX_INT64
    requires AuthorOne(reg, db, op, now).Some?
    ensures var o := Stamp(reg, db, op, now);
            var d := AuthorOne(reg, db, op, now).value;
            && o.ts == d.lastHlc == (if now > db.lastHlc then now else db.lastHlc + 1)
            && d.mirror == db.mirror[RowOf(o) := Normalize(reg, o)]
            && WellTyped(reg, o)
            && MirrorBounded(d)
            && d.log == db.log + [Entry(db.lastSeq + 1, o)] && d.lastSeq == db.lastSeq + 1
            && d.siteOpSeq == db.siteOpSeq + 1 && d.site == db.site && d.cursors == db.cursors
  {
  }

  function EntriesFrom(ops: seq<Op>, base: int): (r: seq<Entry>)
    ensures |r| == |ops| && forall i | 0 <= i < |ops| :: r[i] == Entry(base + 1 + i, ops[i])
  {
    if ops == [] then []
    else EntriesFrom(ops[..|ops| - 1], base) + [Entry(base + |ops|, ops[|ops| - 1])]
  }

  /** The rows and counters an authoring transaction leaves. */
  ghost predicate AuthoredTables(reg: Registry, db: Db, os: seq<Op>, d: Db) {
    && d.mirror == Overlay(reg, db.mirror, os)
    && d.log == db.log + EntriesFrom(os, db.lastSeq) && d.lastSeq == db.lastSeq + |os|
    && d.siteOpSeq == db.siteOpSeq + |os| && d.site == db.site && d.cursors == db.cursors
  }

  /** The stamps and the clock it leaves: from the wall clock up, or from one past the clock where that is ahead. */
  ghost predicate AuthoredClock(reg: Registry, db: Db, now: int, os: seq<Op>, d: Db) {
    && MirrorBounded(d)
    && (forall i :: 0 <= i < |os| ==> WellTyped(reg, os[i]))
    && (forall i :: 0 <= i < |os| ==> os[i].ts == (if now > db.lastHlc then now else db.lastHlc + 1) + i)
    && d.lastHlc == if os == [] then db.lastHlc else os[|os| - 1].ts
  }

  /** Everything an authoring transaction changes. */
  ghost predicate AuthorOutcome(reg: Registry, db: Db, ops: seq<Op>, now: int, os: seq<Op>, d: Db) {
    StampedFrom(reg, db, ops, os) && AuthoredTables(reg, db, os, d) && AuthoredClock(reg, db, now, os, d)
  }

  lemma StampedSnoc(reg: Registry, db: Db, ops: seq<Op>, os: seq<Op>, op: Op, o: Op)
    requires StampedFrom(reg, db, ops, os)
    requires o.site == db.site && o.opSeq == db.siteOpSeq + 1 + |os| && db.lastHlc < o.ts
    requires forall i :: 0 <= i < |os| ==> os[i].ts < o.ts
    requires RowOf(o) == RowOf(op) && o.cols == Complete(reg, op).cols
    ensures StampedFrom(reg, db, ops + [op], os + [o])
  {
  }

  lemma TablesSnoc(reg: Registry, db: Db, os: seq<Op>, o: Op, d: Db, d': Db)
    requires AuthoredTables(reg, db, os, d)
    requires d'.mirror == d.mirror[RowOf(o) := Normalize(reg, o)]
    requires d'.log == d.log + [Entry(d.lastSeq + 1, o)] && d'.lastSeq == d.lastSeq + 1
    requires d'.siteOpSeq == d.siteOpSeq + 1 && d'.site == d.site && d'.cursors == d.cursors
    ensures AuthoredTables(reg, db, os + [o], d')
  {
    Regroup(db.log, EntriesFrom(os, db.lastSeq), [Entry(d.lastSeq + 1, o)]);
  }

  lemma ClockSnoc(reg: Registry, db: Db, now: int, os: seq<Op>, o: Op, d: Db, d': Db)
    requires AuthoredClock(reg, db, now, os, d)
    requires o.ts == d'.lastHlc == (if now > d.lastHlc then now else d.lastHlc + 1)
    requires WellTyped(reg, o) && MirrorBounded(d')
    ensures AuthoredClock(reg, db, now, os + [o], d')
  {
  }

  lemma AuthorOutcomeSnoc(reg: Registry, db: Db, ops: seq<Op>, now: int, os: seq<Op>, d: Db, op: Op)
    requires AuthorOutcome(reg, db, ops, now, os, d) && Max(now, db.lastHlc) + |ops| < MAX_INT64
    requires AuthorOne(reg, d, op, now).Some?
    ensures AuthorOutcome(reg, db, ops + [op], now, os + [Stamp(reg, d, op, now)], AuthorOne(reg, d, op, now).value)
  {
    var o, d' := Stamp(reg, d, op, now), AuthorOne(reg, d, op, now).value;
    AuthorOneWins(reg, d, op, now);
    StampedSnoc(reg, db, ops, os, op, o);
    TablesSnoc(reg, db, os, o, d, d');
    ClockSnoc(reg, db, now, os, o, d, d');
  }

  /**
   Whatever the clock skew of the devices whose ops the clock has observed, every op of an
   authoring transaction becomes the winner of its row, under consecutive op_seqs of the server.
   */
  lemma {:induction false} AuthorAllWins(reg: Registry, db: Db, ops: seq<Op>, now: int)
    requires MirrorBounded(db) && Max(now, db.lastHlc) + |ops| <= MAX_INT64
    requires AuthorAll(reg, db, ops, now).Some?
    ensures AuthorOutcome(reg, db, ops, now, AuthoredOps(reg, db, ops, now), AuthorAll(reg, db, ops, now).value)
  {
    if ops == [] {
      assert db.log + [] == db.log;
    } else {
      var p, op := ops[..|ops| - 1], ops[|ops| - 1];
      AuthorAllWins(reg, db, p, now);
      var os, d := AuthoredOps(reg, db, p, now), AuthorAll(reg, db, p, now).value;
      AuthorOutcomeSnoc(reg, db, p, now, os, d, op);
      assert ops == p + [op];
      assert AuthoredOps(reg, db, ops, now) == os + [Stamp(reg, d, op, now)];
      assert AuthorAll(reg, db, ops, now) == AuthorOne(reg, d, op, now);
    }
  }

  lemma AuthorKeepsBounds(reg: Registry, db: Db, ops: seq<Op>, now: int)
    requires MirrorBounded(db) && Max(now, db.lastHlc) + |ops| <= MAX_INT64
    requires AuthorAll(reg, db, ops, now).Some?
    ensures var d := AuthorAll(reg, db, ops, now).value;
            d.site == db.site && MirrorBounded(d) && db.lastHlc <= d.lastHlc <= Max(now, db.lastHlc) + |ops|
    ensures forall op :: op in AuthoredOps(reg, db, ops, now) ==> op.ts <= AuthorAll(reg, db, ops, now).value.lastHlc
  {
    AuthorAllWins(reg, db, ops, now);
  }

  lemma PushClock(reg: Registry, s: Srv, site: string, ops: seq<Op>, now: int)
    requires ClockBounds(s) && InRange(s.db, Push(site, ops, now))
    ensures ClockBounds(Next(reg, s, Push(site, ops, now)))
    ensures s.db.lastHlc <= Next(reg, s, Push(site, ops, now)).db.lastHlc
  {
    MaxTsBounds(ops);
    HistFrom(reg, s.db, s.hist, ops);
    var cs := CompleteAll(reg, ops);
    forall op | op in cs
      ensures op.ts <= MaxTs(ops)
    {
      var i :| 0 <= i < |cs| && cs[i] == op;
      assert ops[i] in ops;
    }
  }

  lemma AuthorClock(reg: Registry, s: Srv, ops: seq<Op>, now: int)
    requires Sound(reg, s.db, s.hist) && ClockBounds(s) && InRange(s.db, Author(ops, now))
    ensures ClockBounds(Next(reg, s, Author(ops, now)))
    ensures s.db.lastHlc <= Next(reg, s, Author(ops, now)).db.lastHlc
  {
    if AuthorAll(reg, s.db, ops, now).Some? {
      MirrorFromReceived(reg, s);
      AuthorKeepsBounds(reg, s.db, ops, now);
    }
  }

  lemma NextClock(reg: Registry, s: Srv, step: Step)
    requires Sound(reg, s.db, s.hist) && ClockBounds(s) && InRange(s.db, step)
    ensures ClockBounds(Next(reg, s, step))
    ensures s.db.lastHlc <= Next(reg, s, step).db.lastHlc
  {
    match step
    case Push(site, ops, now) => PushClock(reg, s, site, ops, now);
    case Author(ops, now) => AuthorClock(reg, s, ops, now);
    case Record(_, _, _, _) =>
    case Prune(_) =>
    case Sweeping(_) =>
  }

  lemma {:induction false} HistFrom(reg: Registry, db: Db, hist: seq<Op>, ops: seq<Op>)
    ensures forall op :: op in HistAll(reg, db, hist, ops) ==> op in hist || op in CompleteAll(reg, ops)
  {
    if ops != [] {
      HistFrom(reg, db, hist, ops[..|ops| - 1]);
      assert CompleteAll(reg, ops) == CompleteAll(reg, ops[..|ops| - 1]) + [Complete(reg, ops[|ops| - 1])];
    }
  }

  lemma MirrorFromReceived(reg: Registry, s: Srv)
    requires Sound(reg, s.db, s.hist) && ClockBounds(s)
    ensures MirrorBounded(s.db)
  {
    MergeWinners(reg, s.hist);
    forall r | r in s.db.mirror
      ensures s.db.mirror[r].ts <= s.db.lastHlc
    {
      assert FromOps(reg, s.db.mirror[r], r, s.hist);
    }
  }

  /** In every run the clock bounds every op ever handed to the server, refused ones included, and every mirror row. */
  lemma {:induction false} ClockBoundsEveryRun(reg: Registry, site: string, steps: seq<Step>)
    requires RunInRange(reg, Start(site), steps)
    ensures ClockBounds(Run(reg, Start(site), steps))
    ensures MirrorBounded(Run(reg, Start(site), steps).db)
  {
    MirrorIsMergeOfHistory(reg, site, steps);
    if steps == [] {
      assert Run(reg, Start(site), steps) == Start(site);
    } else {
      var p := steps[..|steps| - 1];
      assert forall i :: 0 <= i < |p| ==> p[..i] == steps[..i];
      ClockBoundsEveryRun(reg, site, p);
      MirrorIsMergeOfHistory(reg, site, p);
      NextClock(reg, Run(reg, Start(site), p), steps[|steps| - 1]);
    }
    MirrorFromReceived(reg, Run(reg, Start(site), steps));
  }

  // ---- an authoring transaction succeeds exactly when every op is acceptable ----

  predicate Authorable(reg: Registry, site: string, op: Op) {
    Acceptable(reg, Complete(reg, op).(site := site, opSeq := 1))
  }

  /** The server's own identities in the changelog are at most the counter. */
  ghost predicate OwnIdsBelow(db: Db) {
    0 <= db.siteOpSeq && forall e :: e in db.log && e.op.site == db.site ==> e.op.opSeq <= db.siteOpSeq
  }

  lemma AuthorOneSucceeds(reg: Registry, db: Db, op: Op, now: int)
    requires MirrorBounded(db) && Max(now, db.lastHlc) < MAX_INT64 && OwnIdsBelow(db)
    ensures AuthorOne(reg, db, op, now).Some? <==> Authorable(reg, db.site, op)
    ensures AuthorOne(reg, db, op, now).Some? ==> OwnIdsBelow(AuthorOne(reg, db, op, now).value)
  {
    var o := Stamp(reg, db, op, now);
    var a := Complete(reg, op).(site := db.site, opSeq := 1);
    assert Validate(reg, o).None? <==> Validate(reg, a).None?;
    assert WellTyped(reg, o) <==> WellTyped(reg, a);
  }

  lemma {:induction false} AuthorAllSucceeds(reg: Registry, db: Db, ops: seq<Op>, now: int)
    requires MirrorBounded(db) && Max(now, db.lastHlc) + |ops| <= MAX_INT64 && OwnIdsBelow(db)
    ensures AuthorAll(reg, db, ops, now).Some? <==> forall i :: 0 <= i < |ops| ==> Authorable(reg, db.site, ops[i])
    ensures AuthorAll(reg, db, ops, now).Some? ==> OwnIdsBelow(AuthorAll(reg, db, ops, now).value)
  {
    if ops != [] {
      var p := ops[..|ops| - 1];
      AuthorAllSucceeds(reg, db, p, now);
      if AuthorAll(reg, db, p, now).Some? {
        AuthorKeepsBounds(reg, db, p, now);
        var d := AuthorAll(reg, db, p, now).value;
        AuthorOneSucceeds(reg, d, ops[|ops| - 1], now);
      }
      assert forall i :: 0 <= i < |p| ==> p[i] == ops[i];
    }
  }

  // ---- the exhausted clock ----

  /**
   An authored op wins its row exactly when its stamp passes the row's or wins the tie. The stamp is the
   wall clock, or one past the clock where that is later; past the last 64-bit integer it wraps.
   */
  lemma AuthoredWinsIff(reg: Registry, db: Db, op: Op, now: int)
    requires RowOf(op) in db.mirror && AuthorOne(reg, db, op, now).Some?
    ensures var w := db.mirror[RowOf(op)];
            var plus := if db.lastHlc == MAX_INT64 then MIN_INT64 else db.lastHlc + 1;
            var ts := if now > plus then now else plus;
            var o := Complete(reg, op).(site := db.site, opSeq := db.siteOpSeq + 1, ts := ts);
            var wins := ts > w.ts || (ts == w.ts && (w.opSeq <= db.siteOpSeq || (w.opSeq == db.siteOpSeq + 1 && StrLess(w.site, db.site))));
            var d := AuthorOne(reg, db, op, now).value;
            d.mirror == (if wins then db.mirror[RowOf(op) := Normalize(reg, o)] else db.mirror) && d.lastHlc == ts
  {
  }

  /**
   One op with the last 64-bit timestamp is enough: the clock wraps instead of passing it. An edit the
   server then authors on the row succeeds, but has no effect before the wall clock reaches that
   timestamp, and from then on only if it wins the tie.
   */
  lemma ExhaustedClockRun(reg: Registry, site: string, d: string, op: Op, now: int, edit: Op, later: int)
    requires Acceptable(reg, Complete(reg, op)) && op.ts == MAX_INT64 && now < MAX_INT64 - 1 && later <= MAX_INT64
    requires op.site != site && Authorable(reg, site, edit) && RowOf(edit) == RowOf(op)
    ensures var s := Run(reg, Start(site), [Push(d, [op], now)]);
            var t := Run(reg, Start(site), [Push(d, [op], now), Author([edit], later)]);
            var o := Complete(reg, edit).(site := site, opSeq := 1, ts := MAX_INT64);
            && s.db.mirror == map[RowOf(op) := Normalize(reg, Complete(reg, op))] && s.db.lastHlc < op.ts
            && |t.db.log| == |s.db.log| + 1
            && t.db.mirror == if later == MAX_INT64 && op.opSeq == 1 && StrLess(op.site, site)
                              then s.db.mirror[RowOf(op) := Normalize(reg, o)] else s.db.mirror
  {
    var s := PushedMax(reg, site, d, op, now);
    var steps := [Push(d, [op], now), Author([edit], later)];
    assert steps[..1] == [Push(d, [op], now)];
    assert [edit][..0] == [] && AuthorAll(reg, s.db, [edit], later) == AuthorOne(reg, s.db, edit, later);
    StampAcceptable(reg, s.db, edit, later);
    AuthoredWinsIff(reg, s.db, edit, later);
  }

  lemma StampAcceptable(reg: Registry, db: Db, op: Op, now: int)
    requires Authorable(reg, db.site, op) && 0 <= db.siteOpSeq
    ensures Validate(reg, Stamp(reg, db, op, now)).None? && WellTyped(reg, Stamp(reg, db, op, now))
  {
    var a := Complete(reg, op).(site := db.site, opSeq := 1);
    assert Validate(reg, a).None? && WellTyped(reg, a);
  }

  lemma PushedMax(reg: Registry, site: string, d: string, op: Op, now: int) returns (s: Srv)
    requires Acceptable(reg, Complete(reg, op)) && op.ts == MAX_INT64 && now < MAX_INT64 - 1
    ensures s == Run(reg, Start(site), [Push(d, [op], now)])
    ensures s.db.log == [Entry(1, Complete(reg, op))] && s.db.siteOpSeq == 0 && s.db.site == site
    ensures s.db.mirror == map[RowOf(op) := Normalize(reg, Complete(reg, op))] && s.db.lastHlc == Max(now, 1)
  {
    s := Run(reg, Start(site), [Push(d, [op], now)]);
    assert [Push(d, [op], now)][..0] == [] && [op][..0] == [];
    assert Run(reg, Start(site), []) == Start(site);
    assert AdmitAll(reg, Fresh(site), [op]) == Admit(reg, Fresh(site), op);
    assert MaxTs([op]) == MAX_INT64;
  }

  // ---- the server's own numbering, over whole runs ----

  /** The ops of one site, in order. */
  function OpsFrom(hist: seq<Op>, site: string): seq<Op> {
    if hist == [] then []
    else OpsFrom(hist[..|hist| - 1], site) + if hist[|hist| - 1].site == site then [hist[|hist| - 1]] else []
  }

  lemma {:induction false} OpsFromConcat(a: seq<Op>, b: seq<Op>, site: string)
    ensures OpsFrom(a + b, site) == OpsFrom(a, site) + OpsFrom(b, site)
  {
    if b == [] {
      assert a + b == a;
    } else {
      var p := b[..|b| - 1];
      OpsFromConcat(a, p, site);
      assert (a + b)[..|a + b| - 1] == a + p;
    }
  }

  /** They carry 1, 2, 3, ... up to n, each once. */
  ghost predicate CountsTo(ops: seq<Op>, n: int) {
    |ops| == n && forall i :: 0 <= i < |ops| ==> ops[i].opSeq == i + 1
  }

  lemma {:induction false} HistAllFrom(reg: Registry, db: Db, hist: seq<Op>, ops: seq<Op>, site: string)
    requires forall op :: op in ops ==> op.site != site
    ensures OpsFrom(HistAll(reg, db, hist, ops), site) == OpsFrom(hist, site)
  {
    if ops != [] {
      var p, op := ops[..|ops| - 1], Complete(reg, ops[|ops| - 1]);
      assert forall x :: x in p ==> x in ops;
      assert ops[|ops| - 1] in ops;
      HistAllFrom(reg, db, hist, p, site);
      var h := HistAll(reg, db, hist, p);
      assert (h + [op])[..|h|] == h && h + [] == h;
    }
  }

  lemma {:induction false} AuthoredCount(reg: Registry, db: Db, ops: seq<Op>, now: int)
    requires AuthorAll(reg, db, ops, now).Some?
    ensures var os := AuthoredOps(reg, db, ops, now);
            |os| == |ops| && forall i :: 0 <= i < |os| ==> os[i].site == db.site && os[i].opSeq == db.siteOpSeq + 1 + i
  {
    if ops != [] {
      var p := ops[..|ops| - 1];
      AuthoredCount(reg, db, p, now);
      AuthorAllFrame(reg, db, p, now);
    }
  }

  lemma {:induction false} OpsFromAll(ops: seq<Op>, site: string)
    requires forall i :: 0 <= i < |ops| ==> ops[i].site == site
    ensures OpsFrom(ops, site) == ops
  {
    if ops != [] {
      OpsFromAll(ops[..|ops| - 1], site);
    }
  }

  lemma AuthorCounts(reg: Registry, db: Db, hist: seq<Op>, ops: seq<Op>, now: int)
    requires AuthorAll(reg, db, ops, now).Some? && CountsTo(OpsFrom(hist, db.site), db.siteOpSeq)
    ensures CountsTo(OpsFrom(hist + AuthoredOps(reg, db, ops, now), db.site), db.siteOpSeq + |ops|)
  {
    var os := AuthoredOps(reg, db, ops, now);
    AuthoredCount(reg, db, ops, now);
    OpsFromConcat(hist, os, db.site);
    OpsFromAll(os, db.site);
  }

  lemma NextCounts(reg: Registry, s: Srv, step: Step)
    requires CountsTo(OpsFrom(s.hist, s.db.site), s.db.siteOpSeq)
    requires step.Push? ==> forall op :: op in step.ops ==> op.site != s.db.site
    ensures var t := Next(reg, s, step); t.db.site == s.db.site && CountsTo(OpsFrom(t.hist, t.db.site), t.db.siteOpSeq)
  {
    match step
    case Push(_, ops, _) =>
      HistAllFrom(reg, s.db, s.hist, ops, s.db.site);
      AdmitAllFrame(reg, s.db, ops);
    case Author(ops, now) =>
      if AuthorAll(reg, s.db, ops, now).Some? {
        AuthorCounts(reg, s.db, s.hist, ops, now);
        AuthorAllFrame(reg, s.db, ops, now);
      }
    case _ =>
  }

  /** Over every run the server's ops carry op_seqs 1 to its counter, in order, without gap or repeat. */
  lemma {:induction false} ServerCountsEveryRun(reg: Registry, site: string, steps: seq<Step>)
    requires forall i :: 0 <= i < |steps| && steps[i].Push? ==> forall op :: op in steps[i].ops ==> op.site != site
    ensures var s := Run(reg, Start(site), steps); s.db.site == site && CountsTo(OpsFrom(s.hist, site), s.db.siteOpSeq)
  {
    if steps == [] {
      assert Run(reg, Start(site), steps) == Start(site);
    } else {
      var p := steps[..|steps| - 1];
      ServerCountsEveryRun(reg, site, p);
      NextCounts(reg, Run(reg, Start(site), p), steps[|steps| - 1]);
    }
  }
}
