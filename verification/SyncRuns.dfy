/**
 Whole runs of the server. `hist` is every op ever appended, `received` every op ever handed
 to the server (refused ones included) and `settled` every (site, op_seq) ever appended or
 permanently refused; none of the three is read by the transactions.
 */
module SyncRuns {
  import opened Basics
  import opened Ops
  import opened Reconcile
  import opened SyncState

  datatype Srv = Srv(db: Db, hist: seq<Op>, received: seq<Op>, settled: set<(string, int)>)

  datatype Step =
    | Push(site: string, ops: seq<Op>, now: int)
    | Author(ops: seq<Op>, now: int)
    | Record(site: string, lastPull: int, name: string, now: int)
    | Prune(site: string)
    | Sweeping(watermark: int)

  function CompleteAll(reg: Registry, ops: seq<Op>): (r: seq<Op>)
    ensures |r| == |ops| && forall i | 0 <= i < |ops| :: r[i] == Complete(reg, ops[i])
  {
    if ops == [] then [] else CompleteAll(reg, ops[..|ops| - 1]) + [Complete(reg, ops[|ops| - 1])]
  }

  /** The history after a batch: what the batch appended, in order. */
  function HistAll(reg: Registry, db: Db, hist: seq<Op>, ops: seq<Op>): seq<Op> {
    if ops == [] then hist
    else
      var p := ops[..|ops| - 1];
      var op := Complete(reg, ops[|ops| - 1]);
      var v := Judge(reg, AdmitAll(reg, db, p), op);
      HistAll(reg, db, hist, p) + if v.Lost? || v.Won? then [op] else []
  }

  /** The ops an authoring transaction writes, in order. */
  function AuthoredOps(reg: Registry, db: Db, ops: seq<Op>, now: int): seq<Op> {
    if ops == [] then []
    else
      var p := ops[..|ops| - 1];
      AuthoredOps(reg, db, p, now) +
      match AuthorAll(reg, db, p, now)
        case None => []
        case Some(d) => [Stamp(reg, d, ops[|ops| - 1], now)]
  }

  function SettledBy(log: seq<Entry>, site: string, refused: set<int>): set<(string, int)> {
    (set e | e in log :: (e.op.site, e.op.opSeq)) + (set n | n in refused :: (site, n))
  }

  function Next(reg: Registry, s: Srv, step: Step): Srv {
    match step
    case Push(site, ops, now) =>
      Srv(ApplyBatch(reg, s.db, site, ops, now),
          HistAll(reg, s.db, s.hist, ops),
          s.received + CompleteAll(reg, ops),
          s.settled + SettledBy(AdmitAll(reg, s.db, ops).log, site, RefusedSeqs(RejectAll(reg, s.db, ops), site)))
    case Author(ops, now) =>
      (match AuthorAll(reg, s.db, ops, now)
       case None => s
       case Some(d) =>
         var os := AuthoredOps(reg, s.db, ops, now);
         Srv(d, s.hist + os, s.received + os, s.settled + SettledBy(d.log, d.site, {})))
    case Record(site, lastPull, name, now) => s.(db := RecordCursor(s.db, site, lastPull, name, now))
    case Prune(site) => s.(db := DeleteDevice(s.db, site))
    case Sweeping(wm) => s.(db := Compact(reg, s.db, wm))
  }

  function Run(reg: Registry, s: Srv, steps: seq<Step>): Srv {
    if steps == [] then s else Next(reg, Run(reg, s, steps[..|steps| - 1]), steps[|steps| - 1])
  }

  function Start(site: string): Srv {
    Srv(Fresh(site), [], [], {})
  }

  // ---- base invariant: the changelog is sound and the mirror is the merge of the history ----

  ghost predicate LogFrom(reg: Registry, log: seq<Entry>, hist: seq<Op>) {
    forall e :: e in log ==> e.op in hist && Complete(reg, e.op) == e.op && Validate(reg, e.op).None?
  }

  ghost predicate Sound(reg: Registry, db: Db, hist: seq<Op>) {
    && LogOk(db)
    && LogFrom(reg, db.log, hist)
    && db.mirror == MergeAll(reg, hist)
  }

  lemma MergeSnoc(reg: Registry, ops: seq<Op>, op: Op)
    ensures MergeAll(reg, ops + [op]) == MergeInto(reg, MergeAll(reg, ops), op)
  {
    assert (ops + [op])[..|ops|] == ops;
  }

  lemma AppendSound(reg: Registry, db: Db, hist: seq<Op>, op: Op, m: Table)
    requires Sound(reg, db, hist) && !Logged(db.log, op.site, op.opSeq)
    requires Complete(reg, op) == op && Validate(reg, op).None?
    requires m == MergeInto(reg, db.mirror, op)
    ensures Sound(reg, AppendOp(db.(mirror := m), op), hist + [op])
  {
    MergeSnoc(reg, hist, op);
    AppendKeepsLogOk(db.(mirror := m), op);
  }

  lemma AdmitSound(reg: Registry, db: Db, hist: seq<Op>, incoming: Op)
    requires Sound(reg, db, hist)
    ensures var op := Complete(reg, incoming);
            var v := Judge(reg, db, op);
            Sound(reg, Admit(reg, db, incoming), hist + if v.Lost? || v.Won? then [op] else [])
  {
    var op := Complete(reg, incoming);
    CompleteIdempotent(reg, incoming);
    var v := Judge(reg, db, op);
    if v.Lost? || v.Won? {
      AppendSound(reg, db, hist, op, MergeInto(reg, db.mirror, op));
    } else {
      assert hist + [] == hist;
    }
  }

  lemma {:induction false} AdmitAllSound(reg: Registry, db: Db, hist: seq<Op>, ops: seq<Op>)
    requires Sound(reg, db, hist)
    ensures Sound(reg, AdmitAll(reg, db, ops), HistAll(reg, db, hist, ops))
  {
    if ops != [] {
      var p := ops[..|ops| - 1];
      AdmitAllSound(reg, db, hist, p);
      AdmitSound(reg, AdmitAll(reg, db, p), HistAll(reg, db, hist, p), ops[|ops| - 1]);
    }
  }

  lemma StampComplete(reg: Registry, db: Db, op: Op, now: int)
    ensures Complete(reg, Stamp(reg, db, op, now)) == Stamp(reg, db, op, now)
  {
    CompleteIdempotent(reg, op);
    assert Complete(reg, Stamp(reg, db, op, now)).cols == Complete(reg, Complete(reg, op)).cols;
  }

  lemma {:induction false} AuthorAllSound(reg: Registry, db: Db, hist: seq<Op>, ops: seq<Op>, now: int)
    requires Sound(reg, db, hist)
    requires AuthorAll(reg, db, ops, now).Some?
    ensures Sound(reg, AuthorAll(reg, db, ops, now).value, hist + AuthoredOps(reg, db, ops, now))
  {
    if ops == [] {
      assert hist + [] == hist;
    } else {
      var p, op := ops[..|ops| - 1], ops[|ops| - 1];
      AuthorAllSound(reg, db, hist, p, now);
      var d := AuthorAll(reg, db, p, now).value;
      var os := AuthoredOps(reg, db, p, now);
      AuthorOneSound(reg, d, hist + os, op, now);
      Regroup(hist, os, [Stamp(reg, d, op, now)]);
    }
  }

  lemma AuthorOneSound(reg: Registry, db: Db, hist: seq<Op>, op: Op, now: int)
    requires Sound(reg, db, hist) && AuthorOne(reg, db, op, now).Some?
    ensures Sound(reg, AuthorOne(reg, db, op, now).value, hist + [Stamp(reg, db, op, now)])
  {
    var o := Stamp(reg, db, op, now);
    StampComplete(reg, db, op, now);
    AppendSound(reg, db, hist, o, MergeInto(reg, db.mirror, o));
  }

  lemma NextSound(reg: Registry, s: Srv, step: Step)
    requires Sound(reg, s.db, s.hist)
    ensures Sound(reg, Next(reg, s, step).db, Next(reg, s, step).hist)
  {
    match step
    case Push(site, ops, now) =>
      AdmitAllSound(reg, s.db, s.hist, ops);
    case Author(ops, now) =>
      if AuthorAll(reg, s.db, ops, now).Some? {
        AuthorAllSound(reg, s.db, s.hist, ops, now);
      }
    case Sweeping(wm) =>
      CompactKeepsLogOk(reg, s.db, wm);
    case Record(_, _, _, _) =>
    case Prune(_) =>
  }

  /** In every run the mirror is the batch merge of everything ever appended. */
  lemma {:induction false} MirrorIsMergeOfHistory(reg: Registry, site: string, steps: seq<Step>)
    ensures var s := Run(reg, Start(site), steps);
            Sound(reg, s.db, s.hist) && WinnersOf(reg, s.db.mirror, s.hist)
  {
    if steps == [] {
      assert Run(reg, Start(site), steps) == Start(site);
    } else {
      MirrorIsMergeOfHistory(reg, site, steps[..|steps| - 1]);
      NextSound(reg, Run(reg, Start(site), steps[..|steps| - 1]), steps[|steps| - 1]);
    }
    MergeWinners(reg, Run(reg, Start(site), steps).hist);
  }

  // ---- the mirror depends only on the set of acceptable ops received ----

  predicate Acceptable(reg: Registry, op: Op) {
    Validate(reg, op).None? && WellTyped(reg, op)
  }

  function AcceptableOps(reg: Registry, ops: seq<Op>): seq<Op> {
    if ops == [] then []
    else AcceptableOps(reg, ops[..|ops| - 1]) + if Acceptable(reg, ops[|ops| - 1]) then [ops[|ops| - 1]] else []
  }

  lemma {:induction false} AcceptableMember(reg: Registry, ops: seq<Op>, op: Op)
    ensures op in AcceptableOps(reg, ops) <==> op in ops && Acceptable(reg, op)
  {
    if ops != [] {
      AcceptableMember(reg, ops[..|ops| - 1], op);
      assert ops == ops[..|ops| - 1] + [ops[|ops| - 1]];
    }
  }

  lemma AcceptableSnoc(reg: Registry, ops: seq<Op>, op: Op)
    ensures AcceptableOps(reg, ops + [op]) == AcceptableOps(reg, ops) + if Acceptable(reg, op) then [op] else []
  {
    assert (ops + [op])[..|ops|] == ops;
  }

  ghost predicate Faithful(reg: Registry, db: Db, hist: seq<Op>, received: seq<Op>) {
    && Sound(reg, db, hist)
    && (forall op :: op in hist ==> op in received)
    && db.mirror == MergeAll(reg, AcceptableOps(reg, received))
  }

  /** One op moves the mirror exactly as one merge step does, when it is acceptable and new; otherwise not at all. */
  lemma AdmitMirror(reg: Registry, db: Db, incoming: Op)
    ensures var op := Complete(reg, incoming);
            Admit(reg, db, incoming).mirror ==
            if Acceptable(reg, op) && !Logged(db.log, op.site, op.opSeq) then MergeInto(reg, db.mirror, op) else db.mirror
  {
  }

  lemma DuplicateDominated(reg: Registry, db: Db, hist: seq<Op>, received: seq<Op>, op: Op)
    requires Sound(reg, db, hist) && (forall o :: o in hist ==> o in received)
    requires OneOpPerId(received + [op]) && Logged(db.log, op.site, op.opSeq)
    ensures MergeInto(reg, db.mirror, op) == db.mirror
  {
    var e :| e in db.log && e.op.site == op.site && e.op.opSeq == op.opSeq;
    assert e.op in received + [op] && op in received + [op];
    assert e.op == op;
    MergeWinners(reg, hist);
  }

  lemma AdmitFaithful(reg: Registry, db: Db, hist: seq<Op>, received: seq<Op>, incoming: Op)
    requires Faithful(reg, db, hist, received)
    requires OneOpPerId(received + [Complete(reg, incoming)])
    ensures var op := Complete(reg, incoming);
            var v := Judge(reg, db, op);
            Faithful(reg, Admit(reg, db, incoming), hist + (if v.Lost? || v.Won? then [op] else []), received + [op])
  {
    var op := Complete(reg, incoming);
    AdmitSound(reg, db, hist, incoming);
    AdmitMirror(reg, db, incoming);
    AcceptableSnoc(reg, received, op);
    MergeSnoc(reg, AcceptableOps(reg, received), op);
    assert AcceptableOps(reg, received) + [] == AcceptableOps(reg, received);
    if Logged(db.log, op.site, op.opSeq) {
      DuplicateDominated(reg, db, hist, received, op);
    }
  }

  lemma {:induction false} AdmitAllFaithful(reg: Registry, db: Db, hist: seq<Op>, received: seq<Op>, ops: seq<Op>)
    requires Faithful(reg, db, hist, received)
    requires OneOpPerId(received + CompleteAll(reg, ops))
    ensures Faithful(reg, AdmitAll(reg, db, ops), HistAll(reg, db, hist, ops), received + CompleteAll(reg, ops))
  {
    if ops == [] {
      assert received + [] == received;
    } else {
      var p, op := ops[..|ops| - 1], ops[|ops| - 1];
      var mid := received + CompleteAll(reg, p);
      var all := received + CompleteAll(reg, ops);
      assert all == mid + [Complete(reg, op)];
      assert forall o :: o in mid ==> o in all;
      AdmitAllFaithful(reg, db, hist, received, p);
      AdmitFaithful(reg, AdmitAll(reg, db, p), HistAll(reg, db, hist, p), mid, op);
    }
  }

  lemma {:induction false} AuthorAllFaithful(reg: Registry, db: Db, hist: seq<Op>, received: seq<Op>, ops: seq<Op>, now: int)
    requires Faithful(reg, db, hist, received)
    requires AuthorAll(reg, db, ops, now).Some?
    ensures var os := AuthoredOps(reg, db, ops, now);
            Faithful(reg, AuthorAll(reg, db, ops, now).value, hist + os, received + os)
  {
    AuthorAllSound(reg, db, hist, ops, now);
    if ops == [] {
      assert hist + [] == hist && received + [] == received;
    } else {
      var p, op := ops[..|ops| - 1], ops[|ops| - 1];
      AuthorAllFaithful(reg, db, hist, received, p, now);
      var d := AuthorAll(reg, db, p, now).value;
      var o := Stamp(reg, d, op, now);
      var mid := received + AuthoredOps(reg, db, p, now);
      assert received + AuthoredOps(reg, db, ops, now) == mid + [o];
      assert hist + AuthoredOps(reg, db, ops, now) == (hist + AuthoredOps(reg, db, p, now)) + [o];
      AcceptableSnoc(reg, mid, o);
      MergeSnoc(reg, AcceptableOps(reg, mid), o);
      if !Acceptable(reg, o) {
        assert AcceptableOps(reg, mid) + [] == AcceptableOps(reg, mid);
      }
    }
  }

  lemma NextFaithful(reg: Registry, s: Srv, step: Step)
    requires Faithful(reg, s.db, s.hist, s.received)
    requires OneOpPerId(Next(reg, s, step).received)
    ensures var t := Next(reg, s, step); Faithful(reg, t.db, t.hist, t.received)
  {
    match step
    case Push(site, ops, now) =>
      AdmitAllFaithful(reg, s.db, s.hist, s.received, ops);
    case Author(ops, now) =>
      if AuthorAll(reg, s.db, ops, now).Some? {
        AuthorAllFaithful(reg, s.db, s.hist, s.received, ops, now);
      }
    case Sweeping(wm) =>
      CompactKeepsLogOk(reg, s.db, wm);
    case Record(_, _, _, _) =>
    case Prune(_) =>
  }

  lemma ReceivedGrows(reg: Registry, s: Srv, step: Step)
    ensures forall op :: op in s.received ==> op in Next(reg, s, step).received
  {
  }

  lemma {:induction false} RunFaithful(reg: Registry, site: string, steps: seq<Step>)
    requires OneOpPerId(Run(reg, Start(site), steps).received)
    ensures var s := Run(reg, Start(site), steps); Faithful(reg, s.db, s.hist, s.received)
  {
    if steps == [] {
      assert Run(reg, Start(site), steps) == Start(site);
    } else {
      var p := steps[..|steps| - 1];
      ReceivedGrows(reg, Run(reg, Start(site), p), steps[|steps| - 1]);
      RunFaithful(reg, site, p);
      NextFaithful(reg, Run(reg, Start(site), p), steps[|steps| - 1]);
    }
  }

  /**
   Order, duplication, batching, compaction and refused ops cannot show: two runs that received
   the same set of acceptable ops end with the same mirror.
   */
  lemma MirrorDependsOnAcceptableSet(reg: Registry, site1: string, run1: seq<Step>, site2: string, run2: seq<Step>)
    requires OneOpPerId(Run(reg, Start(site1), run1).received)
    requires OneOpPerId(Run(reg, Start(site2), run2).received)
    requires forall op :: Acceptable(reg, op) ==>
               (op in Run(reg, Start(site1), run1).received <==> op in Run(reg, Start(site2), run2).received)
    ensures Run(reg, Start(site1), run1).db.mirror == Run(reg, Start(site2), run2).db.mirror
  {
    RunFaithful(reg, site1, run1);
    RunFaithful(reg, site2, run2);
    var a := AcceptableOps(reg, Run(reg, Start(site1), run1).received);
    var b := AcceptableOps(reg, Run(reg, Start(site2), run2).received);
    forall op
      ensures op in a <==> op in b
      ensures op in a ==> op in Run(reg, Start(site1), run1).received
    {
      AcceptableMember(reg, Run(reg, Start(site1), run1).received, op);
      AcceptableMember(reg, Run(reg, Start(site2), run2).received, op);
    }
    MergeOrderIrrelevant(reg, a, b);
  }
}
