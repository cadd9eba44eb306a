/** The contiguous acknowledged high-water: safe, monotone, and as high as the changelog allows. */
module Acknowledge {
  import opened Ops
  import opened Reconcile
  import opened SyncState
  import opened SyncRuns

  /** A device pushes only ops of its own, and the server is not a device. */
  predicate OwnBatch(site: string, step: Step) {
    step.Push? ==> step.site != site && forall op :: op in step.ops ==> op.site == step.site
  }

  /** Every op_seq of a site up to the greatest in the changelog was appended or permanently refused. */
  ghost predicate NoGap(s: Srv, site: string) {
    forall n :: 1 <= n <= MaxOpSeq(s.db.log, site) ==> (site, n) in s.settled
  }

  /** A device is pruned only when its ops have no gap. */
  ghost predicate PruneOk(s: Srv, step: Step) {
    step.Prune? ==> NoGap(s, step.site)
  }

  ghost predicate PrunesOk(reg: Registry, s: Srv, steps: seq<Step>) {
    forall i :: 0 <= i < |steps| ==> PruneOk(Run(reg, s, steps[..i]), steps[i])
  }

  /** Every acknowledged op_seq was appended or permanently refused; a device without a cursor row has no gap. */
  ghost predicate AckInv(s: Srv) {
    && (forall c :: c in s.db.cursors ==> 0 <= s.db.cursors[c].acked)
    && (forall c, n :: c in s.db.cursors && 1 <= n <= s.db.cursors[c].acked ==> (c, n) in s.settled)
    && (forall e :: e in s.db.log ==> (e.op.site, e.op.opSeq) in s.settled)
    && (forall c :: c != s.db.site && c !in s.db.cursors ==> NoGap(s, c))
  }

  /** The greatest op_seq of a site is one of its op_seqs, or 0 without any. */
  lemma {:induction false} MaxOpSeqBounds(log: seq<Entry>, site: string)
    ensures MaxOpSeq(log, site) >= 0
    ensures forall e :: e in log && e.op.site == site ==> e.op.opSeq <= MaxOpSeq(log, site)
    ensures MaxOpSeq(log, site) == 0 || exists e :: e in log && e.op.site == site && e.op.opSeq == MaxOpSeq(log, site)
  {
    if log != [] {
      var p := log[..|log| - 1];
      MaxOpSeqBounds(p, site);
      assert log == p + [log[|log| - 1]];
    }
  }

  /** Without new entries of the site the greatest op_seq does not grow. */
  lemma MaxOpSeqShrinks(log: seq<Entry>, log': seq<Entry>, site: string)
    requires forall e :: e in log' && e.op.site == site ==> e in log
    ensures MaxOpSeq(log', site) <= MaxOpSeq(log, site)
  {
    MaxOpSeqBounds(log, site);
    MaxOpSeqBounds(log', site);
  }

  lemma NoGapStays(s: Srv, t: Srv, site: string)
    requires NoGap(s, site) && s.settled <= t.settled
    requires forall e :: e in t.db.log && e.op.site == site ==> e in s.db.log
    ensures NoGap(t, site)
  {
    MaxOpSeqShrinks(s.db.log, t.db.log, site);
  }

  /** A push settles everything it acknowledges if and only if its walk starts on settled ground. */
  lemma PushCoversIff(reg: Registry, s: Srv, site: string, ops: seq<Op>, now: int)
    ensures var t := Next(reg, s, Push(site, ops, now));
            (forall n :: 1 <= n <= Accepted(reg, s.db, site, ops) ==> (site, n) in t.settled)
            <==> (forall n :: 1 <= n <= WalkStart(s.db, site) ==> (site, n) in t.settled)
  {
    var d := AdmitAll(reg, s.db, ops);
    var refused := RefusedSeqs(RejectAll(reg, s.db, ops), site);
    forall n | WalkStart(s.db, site) < n <= Accepted(reg, s.db, site, ops)
      ensures (site, n) in SettledBy(d.log, site, refused)
    {
      assert n in refused + LoggedSeqs(d.log, site);
      if n in LoggedSeqs(d.log, site) {
        var e :| e in d.log && e.op.site == site && e.op.opSeq == n;
        assert (e.op.site, e.op.opSeq) in SettledBy(d.log, site, refused);
      }
    }
  }

  /** The batch carries this op_seq of the site. */
  ghost predicate Sends(ops: seq<Op>, site: string, n: int) {
    exists op :: op in ops && op.site == site && op.opSeq == n
  }

  /** Every op_seq a device sends is settled by the push that carries it: appended, there already, or refused. */
  lemma {:induction false} BatchSettles(reg: Registry, db: Db, site: string, ops: seq<Op>)
    ensures forall op :: op in ops && op.site == site ==> op.opSeq in SettledNow(reg, db, site, ops)
  {
    if ops != [] {
      var p, last := ops[..|ops| - 1], ops[|ops| - 1];
      BatchSettles(reg, db, site, p);
      var d := AdmitAll(reg, db, p);
      assert ops == p + [last];
      StillSettled(reg, db, site, ops);
      if last.site == site {
        LastSettles(reg, d, last);
        assert RejectionOf(reg, d, last) <= RejectAll(reg, db, ops)[|RejectAll(reg, db, p)|..];
        if RejectionOf(reg, d, last) != [] {
          var x := RejectionOf(reg, d, last)[0];
          assert x in RejectAll(reg, db, ops);
        }
      }
    }
  }

  lemma LastSettles(reg: Registry, db: Db, op: Op)
    ensures op.opSeq in LoggedSeqs(Admit(reg, db, op).log, op.site)
            || (RejectionOf(reg, db, op) != [] && RejectionOf(reg, db, op)[0].site == op.site && RejectionOf(reg, db, op)[0].opSeq == op.opSeq)
  {
    var o := Complete(reg, op);
    var v := Judge(reg, db, o);
    if v.Lost? || v.Won? {
      var log := Admit(reg, db, op).log;
      assert Entry(db.lastSeq + 1, o) in log;
    }
  }

  lemma StillSettled(reg: Registry, db: Db, site: string, ops: seq<Op>)
    requires ops != []
    ensures SettledNow(reg, db, site, ops[..|ops| - 1]) <= SettledNow(reg, db, site, ops)
  {
    var p := ops[..|ops| - 1];
    assert forall x :: x in RejectAll(reg, db, p) ==> x in RejectAll(reg, db, ops);
    assert forall e :: e in AdmitAll(reg, db, p).log ==> e in AdmitAll(reg, db, ops).log;
  }

  /**
   It never wedges: a device that sends every op_seq from the start of the walk up to n in one batch
   is acknowledged at least to n, whether the ops are appended, duplicates or refused.
   */
  lemma SentIsAcknowledged(reg: Registry, db: Db, site: string, ops: seq<Op>, n: int)
    requires forall k :: WalkStart(db, site) < k <= n ==> Sends(ops, site, k)
    ensures Accepted(reg, db, site, ops) >= n
  {
    BatchSettles(reg, db, site, ops);
    var a := Accepted(reg, db, site, ops);
    if a < n {
      assert Sends(ops, site, a + 1);
      AckIsGreatest(reg, db, site, ops, a);
    }
  }

  lemma {:induction false} RefusedFrom(reg: Registry, db: Db, ops: seq<Op>)
    ensures forall x :: x in RejectAll(reg, db, ops) ==> exists op :: op in ops && op.site == x.site && op.opSeq == x.opSeq
  {
    if ops != [] {
      var p := ops[..|ops| - 1];
      RefusedFrom(reg, db, p);
      assert ops == p + [ops[|ops| - 1]];
      assert ops[|ops| - 1] in ops;
    }
  }

  /** What a push adds to the settled op_seqs of its site is exactly what it carries. */
  lemma SettledByPushIff(reg: Registry, s: Srv, site: string, ops: seq<Op>, now: int, n: int)
    requires forall e :: e in s.db.log ==> (e.op.site, e.op.opSeq) in s.settled
    ensures (site, n) in Next(reg, s, Push(site, ops, now)).settled <==> (site, n) in s.settled || Sends(ops, site, n)
  {
    var d := AdmitAll(reg, s.db, ops);
    var refused := RefusedSeqs(RejectAll(reg, s.db, ops), site);
    var added := SettledBy(d.log, site, refused);
    BatchSettles(reg, s.db, site, ops);
    AdmitAllFrame(reg, s.db, ops);
    RefusedFrom(reg, s.db, ops);
    if Sends(ops, site, n) {
      assert n in SettledNow(reg, s.db, site, ops);
      if n in LoggedSeqs(d.log, site) {
        var e :| e in d.log && e.op.site == site && e.op.opSeq == n;
        assert (e.op.site, e.op.opSeq) in added;
      }
    }
    if (site, n) in added && n !in refused {
      var e :| e in d.log && (e.op.site, e.op.opSeq) == (site, n);
    }
  }

  lemma PushAck(reg: Registry, s: Srv, site: string, ops: seq<Op>, now: int)
    requires AckInv(s) && OwnBatch(s.db.site, Push(site, ops, now))
    ensures AckInv(Next(reg, s, Push(site, ops, now)))
    ensures site in s.db.cursors ==> s.db.cursors[site].acked <= Accepted(reg, s.db, site, ops)
  {
    var t := Next(reg, s, Push(site, ops, now));
    AdmitAllFrame(reg, s.db, ops);
    MaxOpSeqBounds(s.db.log, site);
    PushCoversIff(reg, s, site, ops, now);
    forall c | c != s.db.site && c !in t.db.cursors
      ensures NoGap(t, c)
    {
      NoGapStays(s, t, c);
    }
  }

  /** A prune keeps the invariant if and only if the device's ops have no gap. */
  lemma PruneKeepsIff(reg: Registry, s: Srv, site: string)
    requires AckInv(s) && site != s.db.site
    ensures AckInv(Next(reg, s, Prune(site))) <==> NoGap(s, site)
  {
    var t := Next(reg, s, Prune(site));
    forall c
      ensures NoGap(t, c) <==> NoGap(s, c)
    {
    }
    if NoGap(s, site) {
      forall c | c != s.db.site && c !in t.db.cursors
        ensures NoGap(t, c)
      {
        assert c == site || NoGap(s, c);
      }
    }
  }

  /** What an operator can check: with everything up to the greatest op_seq acknowledged there is no gap. */
  lemma AckedHasNoGap(s: Srv, site: string)
    requires AckInv(s) && site in s.db.cursors && MaxOpSeq(s.db.log, site) <= s.db.cursors[site].acked
    ensures NoGap(s, site)
  {
  }

  /**
   A device without a cursor row is answered safely if and only if every op_seq up to its greatest
   in the changelog was settled before or is in the batch.
   */
  lemma ReseedSafeIff(reg: Registry, s: Srv, site: string, ops: seq<Op>, now: int)
    requires site !in s.db.cursors && forall e :: e in s.db.log ==> (e.op.site, e.op.opSeq) in s.settled
    ensures var t := Next(reg, s, Push(site, ops, now));
            (forall n :: 1 <= n <= t.db.cursors[site].acked ==> (site, n) in t.settled)
            <==> (forall n :: 1 <= n <= MaxOpSeq(s.db.log, site) ==> (site, n) in s.settled || Sends(ops, site, n))
  {
    PushCoversIff(reg, s, site, ops, now);
    forall n
      ensures (site, n) in Next(reg, s, Push(site, ops, now)).settled <==> (site, n) in s.settled || Sends(ops, site, n)
    {
      SettledByPushIff(reg, s, site, ops, now, n);
    }
  }

  /**
   Prune a device and let it push: the answer is safe if and only if every op_seq between its
   acknowledged high-water and its greatest in the changelog was settled before or is in the batch.
   */
  lemma PruneThenPushSafeIff(reg: Registry, s: Srv, site: string, ops: seq<Op>, now: int)
    requires AckInv(s) && site in s.db.cursors
    ensures var t := Next(reg, Next(reg, s, Prune(site)), Push(site, ops, now));
            (forall n :: 1 <= n <= t.db.cursors[site].acked ==> (site, n) in t.settled)
            <==> (forall n :: s.db.cursors[site].acked < n <= MaxOpSeq(s.db.log, site) ==> (site, n) in s.settled || Sends(ops, site, n))
  {
    PruneFrame(reg, s, site);
    ReseedSafeIff(reg, Next(reg, s, Prune(site)), site, ops, now);
  }

  lemma OtherStepAck(reg: Registry, s: Srv, step: Step)
    requires AckInv(s) && LogOk(s.db) && !step.Push? && !step.Prune?
    ensures AckInv(Next(reg, s, step)) && Next(reg, s, step).db.site == s.db.site
    ensures forall c :: c in s.db.cursors ==> c in Next(reg, s, step).db.cursors && s.db.cursors[c].acked <= Next(reg, s, step).db.cursors[c].acked
  {
    var t := Next(reg, s, step);
    match step {
      case Author(ops, now) =>
        if AuthorAll(reg, s.db, ops, now).Some? {
          AuthorAllFrame(reg, s.db, ops, now);
        }
      case Sweeping(wm) => CompactKeepsLogOk(reg, s.db, wm);
      case Record(_, _, _, _) =>
    }
    forall c | c != t.db.site && c !in t.db.cursors
      ensures NoGap(t, c)
    {
      NoGapStays(s, t, c);
    }
  }

  lemma NextAck(reg: Registry, s: Srv, step: Step)
    requires AckInv(s) && LogOk(s.db) && OwnBatch(s.db.site, step) && PruneOk(s, step)
    ensures var t := Next(reg, s, step);
            && AckInv(t)
            && t.db.site == s.db.site
            && forall c :: c in s.db.cursors && step != Prune(c) ==> c in t.db.cursors && s.db.cursors[c].acked <= t.db.cursors[c].acked
  {
    match step
    case Push(site, ops, now) =>
      PushAck(reg, s, site, ops, now);
      AdmitAllFrame(reg, s.db, ops);
    case Prune(site) =>
      if site != s.db.site {
        PruneKeepsIff(reg, s, site);
      }
    case _ => OtherStepAck(reg, s, step);
  }

  /**
   Safety over whole runs: every op_seq from 1 up to a device's acknowledged high-water was
   appended or permanently refused at some point, even if compaction has since reclaimed it, and
   even if the device was pruned in between while its ops had no gap.
   */
  lemma {:induction false} AckSafe(reg: Registry, site: string, steps: seq<Step>)
    requires (forall i :: 0 <= i < |steps| ==> OwnBatch(site, steps[i])) && PrunesOk(reg, Start(site), steps)
    ensures AckInv(Run(reg, Start(site), steps))
    ensures Run(reg, Start(site), steps).db.site == site
  {
    if steps == [] {
      assert Run(reg, Start(site), steps) == Start(site);
    } else {
      var p := steps[..|steps| - 1];
      assert forall i :: 0 <= i < |p| ==> p[..i] == steps[..i] && p[i] == steps[i];
      AckSafe(reg, site, p);
      MirrorIsMergeOfHistory(reg, site, p);
      assert PruneOk(Run(reg, Start(site), steps[..|steps| - 1]), steps[|steps| - 1]);
      NextAck(reg, Run(reg, Start(site), p), steps[|steps| - 1]);
    }
  }

  /** In any state, no step but its own prune lowers a device's high-water. */
  lemma AckNeverDecreases(reg: Registry, s: Srv, step: Step, device: string)
    requires device in s.db.cursors && step != Prune(device)
    ensures device in Next(reg, s, step).db.cursors
    ensures s.db.cursors[device].acked <= Next(reg, s, step).db.cursors[device].acked
  {
    match step
    case Push(site, ops, now) => AdmitAllFrame(reg, s.db, ops);
    case Author(ops, now) =>
      if AuthorAll(reg, s.db, ops, now).Some? {
        AuthorAllFrame(reg, s.db, ops, now);
      }
    case _ =>
  }

  /** The walk's answer is the only n with a settled stretch below it and an unsettled op_seq above. */
  lemma AdvanceUnique(settled: set<int>, h: int, n: int)
    ensures n == Advance(settled, h) <==>
            h <= n && (forall k :: h < k <= n ==> k in settled) && n + 1 !in settled
  {
    var a := Advance(settled, h);
    if h <= n < a {
      assert n + 1 in settled;
    }
  }

  /** What counts as settled when a push is answered. */
  function SettledNow(reg: Registry, db: Db, site: string, ops: seq<Op>): set<int> {
    RefusedSeqs(RejectAll(reg, db, ops), site) + LoggedSeqs(AdmitAll(reg, db, ops).log, site)
  }

  /**
   The answer is the one n such that every op_seq above the start of the walk up to
   n is in the changelog or refused in this call, and n + 1 is neither. The walk starts at the old
   high-water, or at the greatest op_seq in the changelog on first contact.
   */
  lemma AckIsGreatest(reg: Registry, db: Db, site: string, ops: seq<Op>, n: int)
    ensures var start := if site in db.cursors then db.cursors[site].acked else MaxOpSeq(db.log, site);
            n == Accepted(reg, db, site, ops) <==>
            && start <= n
            && (forall k :: start < k <= n ==> k in SettledNow(reg, db, site, ops))
            && n + 1 !in SettledNow(reg, db, site, ops)
  {
    AdvanceUnique(SettledNow(reg, db, site, ops), WalkStart(db, site), n);
  }

  /** An acceptable new op is appended and not refused. */
  lemma AdmitNew(reg: Registry, db: Db, op: Op)
    requires Acceptable(reg, Complete(reg, op)) && !Logged(db.log, op.site, op.opSeq)
    ensures Admit(reg, db, op).log == db.log + [Entry(db.lastSeq + 1, Complete(reg, op))]
    ensures Admit(reg, db, op).lastSeq == db.lastSeq + 1 && RejectionOf(reg, db, op) == []
  {
  }

  lemma OneOp(reg: Registry, db: Db, op: Op)
    ensures AdmitAll(reg, db, [op]) == Admit(reg, db, op) && RejectAll(reg, db, [op]) == RejectionOf(reg, db, op)
  {
    assert [op][..0] == [];
    assert AdmitAll(reg, db, []) == db && RejectAll(reg, db, []) == [];
    assert [] + RejectionOf(reg, db, op) == RejectionOf(reg, db, op);
  }

  /** Pushing op_seqs 1 and 3 to a fresh store. */
  lemma GapPushed(reg: Registry, db: Db, d: string, op1: Op, op3: Op)
    requires db.log == [] && db.lastSeq == 0
    requires Acceptable(reg, Complete(reg, op1)) && Acceptable(reg, Complete(reg, op3))
    requires op1.site == op3.site == d && op1.opSeq == 1 && op3.opSeq == 3
    ensures AdmitAll(reg, db, [op1, op3]).log == [Entry(1, Complete(reg, op1)), Entry(2, Complete(reg, op3))]
    ensures RejectAll(reg, db, [op1, op3]) == []
  {
    var ops := [op1, op3];
    assert ops[..1] == [op1];
    OneOp(reg, db, op1);
    AdmitNew(reg, db, op1);
    AdmitNew(reg, Admit(reg, db, op1), op3);
  }

  /** The push acknowledges 1 and settles 1 and 3. */
  lemma GapState(reg: Registry, site: string, d: string, op1: Op, op3: Op, now: int) returns (s: Srv, log: seq<Entry>)
    requires Acceptable(reg, Complete(reg, op1)) && Acceptable(reg, Complete(reg, op3))
    requires op1.site == op3.site == d != site && op1.opSeq == 1 && op3.opSeq == 3
    ensures s == Next(reg, Start(site), Push(d, [op1, op3], now)) && s.settled == {(d, 1), (d, 3)}
    ensures s.db.log == log && |log| == 2 && log[0].op.site == log[1].op.site == d && log[0].op.opSeq == 1 && log[1].op.opSeq == 3
    ensures d in s.db.cursors && s.db.cursors[d].acked == 1
  {
    GapPushed(reg, Fresh(site), d, op1, op3);
    s := Next(reg, Start(site), Push(d, [op1, op3], now));
    log := [Entry(1, Complete(reg, op1)), Entry(2, Complete(reg, op3))];
    TwoLogged(log, d);
    assert RefusedSeqs([], d) == {};
    assert {} + LoggedSeqs(log, d) == {1, 3};
    AdvanceUnique({1, 3}, 0, 1);
    assert {} + SettledBy(log, d, {}) == {(d, 1), (d, 3)};
  }

  lemma PruneFrame(reg: Registry, s: Srv, d: string)
    ensures var t := Next(reg, s, Prune(d)); t.db.log == s.db.log && t.settled == s.settled && d !in t.db.cursors
  {
  }

  lemma PushNothing(reg: Registry, s: Srv, d: string, now: int)
    requires d !in s.db.cursors
    ensures var t := Next(reg, s, Push(d, [], now));
            && t.settled == s.settled + SettledBy(s.db.log, d, {}) && d in t.db.cursors
            && t.db.cursors[d].acked == Advance(LoggedSeqs(s.db.log, d), MaxOpSeq(s.db.log, d))
  {
    assert RefusedSeqs([], d) == {};
    assert {} + LoggedSeqs(s.db.log, d) == LoggedSeqs(s.db.log, d);
  }

  /**
   The reseed after a prune can pass over an op the device never managed to send: push op_seqs 1
   and 3, prune, push nothing. Op_seq 1 and then 3 is acknowledged, and 2 was never seen.
   */
  lemma PruneReseedSkipsGap(reg: Registry, site: string, d: string, op1: Op, op3: Op, now: int)
    requires Acceptable(reg, Complete(reg, op1)) && Acceptable(reg, Complete(reg, op3))
    requires op1.site == op3.site == d != site && op1.opSeq == 1 && op3.opSeq == 3
    ensures var s := Next(reg, Start(site), Push(d, [op1, op3], now));
            var t := Next(reg, Next(reg, s, Prune(d)), Push(d, [], now));
            && d in s.db.cursors && s.db.cursors[d].acked == 1
            && d in t.db.cursors && t.db.cursors[d].acked == 3 && (d, 2) !in t.settled
  {
    var s, log := GapState(reg, site, d, op1, op3, now);
    TwoLogged(log, d);
    PruneFrame(reg, s, d);
    PushNothing(reg, Next(reg, s, Prune(d)), d, now);
    AdvanceUnique({1, 3}, 3, 3);
  }

  lemma TwoLogged(log: seq<Entry>, d: string)
    requires |log| == 2 && log[0].op.site == log[1].op.site == d && log[0].op.opSeq == 1 && log[1].op.opSeq == 3
    ensures LoggedSeqs(log, d) == {1, 3} && MaxOpSeq(log, d) == 3 && MaxOpSeq([], d) == 0
    ensures SettledBy(log, d, {}) == {(d, 1), (d, 3)}
  {
    assert log[..1] == [log[0]] && [log[0]][..0] == [];
    assert log[0] in log && log[1] in log;
    assert MaxOpSeq([log[0]], d) == 1;
  }
}
