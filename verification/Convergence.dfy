/**
 The server together with its devices. A device authors ops locally, sends any of its own ops in
 any order and any number of times, and pulls pages at its own cursor. A pull whose response is
 lost moves only the server's record of the cursor.
 */
module Convergence {
  import opened Ops
  import opened Reconcile
  import opened SyncState
  import opened SyncRuns
  import opened Relay

  datatype Device = Device(authored: seq<Op>, replica: Table, cursor: int)

  datatype World = World(srv: Srv, devs: map<string, Device>)

  datatype Move =
    | Edit(dev: string, op: Op)
    | Send(dev: string, ops: seq<Op>, now: int)
    | Pull(dev: string, limit: int, name: string, now: int)
    | PullLost(dev: string, limit: int, name: string, now: int)
    | Server(step: Step)

  predicate Enabled(w: World, m: Move) {
    match m
    case Edit(d, _) => d in w.devs
    case Send(d, ops, _) => d in w.devs && forall op :: op in ops ==> op in w.devs[d].authored
    case Pull(d, _, _, _) => d in w.devs
    case PullLost(d, _, _, _) => d in w.devs
    case Server(step) => !step.Push?
  }

  function MergeEntries(reg: Registry, m: Table, es: seq<Entry>): Table {
    if es == [] then m
    else MergeInto(reg, MergeEntries(reg, m, es[..|es| - 1]), Complete(reg, es[|es| - 1].op))
  }

  function EditedDevice(reg: Registry, dev: Device, d: string, op: Op): Device {
    var o := op.(site := d, opSeq := |dev.authored| + 1);
    Device(dev.authored + [o], MergeInto(reg, dev.replica, Complete(reg, o)), dev.cursor)
  }

  function PulledDevice(reg: Registry, dev: Device, page: Page): Device {
    Device(dev.authored, MergeEntries(reg, dev.replica, page.entries), page.cursor)
  }

  function NextWorld(reg: Registry, w: World, m: Move): World
    requires Enabled(w, m)
  {
    match m
    case Edit(d, op) => w.(devs := w.devs[d := EditedDevice(reg, w.devs[d], d, op)])
    case Send(d, ops, now) => w.(srv := Next(reg, w.srv, Push(d, ops, now)))
    case Pull(d, limit, name, now) =>
      var page := PageOf(w.srv.db.log, w.devs[d].cursor, d, limit);
      World(Next(reg, w.srv, Record(d, page.cursor, name, now)), w.devs[d := PulledDevice(reg, w.devs[d], page)])
    case PullLost(d, limit, name, now) =>
      var page := PageOf(w.srv.db.log, w.devs[d].cursor, d, limit);
      w.(srv := Next(reg, w.srv, Record(d, page.cursor, name, now)))
    case Server(step) => w.(srv := Next(reg, w.srv, step))
  }

  function StartWorld(site: string, ds: set<string>): World {
    World(Start(site), map d | d in ds :: Device([], map[], 0))
  }

  /** A run: each move is enabled where it happens. */
  ghost predicate IsRun(reg: Registry, ws: seq<World>, ms: seq<Move>) {
    && |ws| == |ms| + 1
    && forall i :: 0 <= i < |ms| ==> Enabled(ws[i], ms[i]) && ws[i + 1] == NextWorld(reg, ws[i], ms[i])
  }

  // ---- the invariant ----

  ghost predicate OwnOp(reg: Registry, dev: Device, op: Op) {
    exists i :: 0 <= i < |dev.authored| && op == Complete(reg, dev.authored[i])
  }

  ghost predicate Numbered(d: string, dev: Device) {
    forall i :: 0 <= i < |dev.authored| ==> dev.authored[i].site == d && dev.authored[i].opSeq == i + 1
  }

  /** Where the ops of the history come from: a device's own list, or the server's own counter. */
  ghost predicate Provenance(reg: Registry, db: Db, hist: seq<Op>, devs: map<string, Device>) {
    && db.site !in devs
    && (forall d :: d in devs ==> Numbered(d, devs[d]))
    && (forall op :: op in hist && op.site != db.site ==> op.site in devs && OwnOp(reg, devs[op.site], op))
    && (forall op :: op in hist && op.site == db.site ==> op.opSeq <= db.siteOpSeq)
    && (forall a, b :: a in hist && b in hist && a.site == db.site && SameId(a, b) ==> a == b)
  }

  ghost predicate Held(dev: Device, r: Row, w: Op) {
    r in dev.replica && !Less(dev.replica[r], w)
  }

  ghost predicate Queued(reg: Registry, log: seq<Entry>, cursor: int, d: string, w: Op) {
    exists e :: e in log && e.at > cursor && e.op.site != d && Normalize(reg, e.op) == w
  }

  /** Every row's winner is held by the device or still waits for it in the changelog. */
  ghost predicate Covered(reg: Registry, db: Db, dev: Device, d: string) {
    forall r :: r in db.mirror ==> Held(dev, r, db.mirror[r]) || Queued(reg, db.log, dev.cursor, d, db.mirror[r])
  }

  ghost predicate OwnHeld(dev: Device) {
    forall op :: op in dev.authored ==> Held(dev, RowOf(op), op)
  }

  ghost predicate From(reg: Registry, hist: seq<Op>, dev: Device, r: Row, w: Op) {
    exists op :: RowOf(op) == r && Normalize(reg, op) == w && (op in hist || OwnOp(reg, dev, op))
  }

  ghost predicate Origin(reg: Registry, hist: seq<Op>, dev: Device) {
    forall r :: r in dev.replica ==> From(reg, hist, dev, r, dev.replica[r])
  }

  ghost predicate DeviceOk(reg: Registry, db: Db, hist: seq<Op>, dev: Device, d: string) {
    && 0 <= dev.cursor <= db.lastSeq
    && OwnHeld(dev)
    && Origin(reg, hist, dev)
    && Covered(reg, db, dev, d)
  }

  ghost predicate Coherent(reg: Registry, w: World) {
    && Sound(reg, w.srv.db, w.srv.hist)
    && Provenance(reg, w.srv.db, w.srv.hist, w.devs)
  }

  ghost predicate Tracks(reg: Registry, w: World, d: string) {
    d in w.devs && DeviceOk(reg, w.srv.db, w.srv.hist, w.devs[d], d)
  }

  lemma HistoryHasOneOpPerId(reg: Registry, db: Db, hist: seq<Op>, devs: map<string, Device>)
    requires Provenance(reg, db, hist, devs)
    ensures OneOpPerId(hist)
  {
    forall a, b | a in hist && b in hist && SameId(a, b)
      ensures a == b
    {
      if a.site != db.site {
        assert OwnOp(reg, devs[a.site], a) && OwnOp(reg, devs[a.site], b);
      }
    }
  }

  // ---- appending one op ----

  /** An op that may be appended: a device's own, or the server's next one. */
  ghost predicate Admissible(reg: Registry, db: Db, devs: map<string, Device>, op: Op) {
    if op.site == db.site then op.opSeq == db.siteOpSeq + 1
    else op.site in devs && OwnOp(reg, devs[op.site], op)
  }

  lemma AppendProvenance(reg: Registry, db: Db, hist: seq<Op>, devs: map<string, Device>, op: Op, db': Db)
    requires Provenance(reg, db, hist, devs) && Admissible(reg, db, devs, op)
    requires db'.site == db.site && db'.siteOpSeq == if op.site == db.site then op.opSeq else db.siteOpSeq
    ensures Provenance(reg, db', hist + [op], devs)
  {
  }

  lemma AppendCovered(reg: Registry, db: Db, dev: Device, d: string, op: Op, db': Db)
    requires Covered(reg, db, dev, d) && OwnHeld(dev) && dev.cursor <= db.lastSeq
    requires op.site == d ==> OwnOp(reg, dev, op)
    requires db'.mirror == MergeInto(reg, db.mirror, op)
    requires db'.log == db.log + [Entry(db.lastSeq + 1, op)]
    ensures Covered(reg, db', dev, d)
  {
    forall r | r in db'.mirror
      ensures Held(dev, r, db'.mirror[r]) || Queued(reg, db'.log, dev.cursor, d, db'.mirror[r])
    {
      if r == RowOf(op) && Beats(db.mirror, op) {
        if op.site == d {
          var i :| 0 <= i < |dev.authored| && op == Complete(reg, dev.authored[i]);
          assert dev.authored[i] in dev.authored;
          assert Held(dev, r, dev.authored[i]);
        } else {
          assert Entry(db.lastSeq + 1, op) in db'.log;
        }
      } else if !Held(dev, r, db.mirror[r]) {
        var e :| e in db.log && e.at > dev.cursor && e.op.site != d && Normalize(reg, e.op) == db.mirror[r];
        assert e in db'.log;
      }
    }
  }

  /** What a transaction has to keep besides the soundness of the database. */
  ghost predicate Both(reg: Registry, db: Db, hist: seq<Op>, devs: map<string, Device>, d: string) {
    && d in devs
    && Provenance(reg, db, hist, devs)
    && DeviceOk(reg, db, hist, devs[d], d)
  }

  lemma AppendDeviceOk(reg: Registry, db: Db, hist: seq<Op>, dev: Device, d: string, op: Op, db': Db)
    requires DeviceOk(reg, db, hist, dev, d)
    requires op.site == d ==> OwnOp(reg, dev, op)
    requires db'.mirror == MergeInto(reg, db.mirror, op)
    requires db'.log == db.log + [Entry(db.lastSeq + 1, op)] && db'.lastSeq == db.lastSeq + 1
    ensures DeviceOk(reg, db', hist + [op], dev, d)
  {
    AppendCovered(reg, db, dev, d, op, db');
  }

  lemma AppendBoth(reg: Registry, db: Db, hist: seq<Op>, devs: map<string, Device>, d: string, op: Op, db': Db)
    requires Both(reg, db, hist, devs, d) && Admissible(reg, db, devs, op)
    requires db'.mirror == MergeInto(reg, db.mirror, op)
    requires db'.log == db.log + [Entry(db.lastSeq + 1, op)] && db'.lastSeq == db.lastSeq + 1
    requires db'.site == db.site && db'.siteOpSeq == if op.site == db.site then op.opSeq else db.siteOpSeq
    ensures Both(reg, db', hist + [op], devs, d)
  {
    AppendProvenance(reg, db, hist, devs, op, db');
    AppendDeviceOk(reg, db, hist, devs[d], d, op, db');
  }

  /** An admitted op is appended and merged; anything else leaves the database alone. */
  lemma AdmitShape(reg: Registry, db: Db, incoming: Op)
    ensures var op := Complete(reg, incoming);
            var v := Judge(reg, db, op);
            var db' := Admit(reg, db, incoming);
            if v.Lost? || v.Won? then
              && db'.mirror == MergeInto(reg, db.mirror, op)
              && db'.log == db.log + [Entry(db.lastSeq + 1, op)] && db'.lastSeq == db.lastSeq + 1
              && db'.site == db.site && db'.siteOpSeq == db.siteOpSeq
            else db' == db
  {
  }

  lemma AdmitBoth(reg: Registry, db: Db, hist: seq<Op>, devs: map<string, Device>, d: string, from: string, incoming: Op, hist': seq<Op>)
    requires Both(reg, db, hist, devs, d) && from in devs && incoming in devs[from].authored
    requires var v := Judge(reg, db, Complete(reg, incoming));
             hist' == hist + (if v.Lost? || v.Won? then [Complete(reg, incoming)] else [])
    ensures Both(reg, Admit(reg, db, incoming), hist', devs, d)
  {
    AdmitShape(reg, db, incoming);
    assert hist + [] == hist;
    if hist' != hist {
      var op := Complete(reg, incoming);
      var i :| 0 <= i < |devs[from].authored| && devs[from].authored[i] == incoming;
      assert OwnOp(reg, devs[from], op);
      AppendBoth(reg, db, hist, devs, d, op, Admit(reg, db, incoming));
    }
  }

  lemma {:induction false} AdmitAllBoth(reg: Registry, db: Db, hist: seq<Op>, devs: map<string, Device>, d: string, from: string, ops: seq<Op>)
    requires Both(reg, db, hist, devs, d) && from in devs && forall op :: op in ops ==> op in devs[from].authored
    ensures Both(reg, AdmitAll(reg, db, ops), HistAll(reg, db, hist, ops), devs, d)
  {
    if ops != [] {
      var p := ops[..|ops| - 1];
      assert forall op :: op in p ==> op in ops;
      AdmitAllBoth(reg, db, hist, devs, d, from, p);
      assert ops[|ops| - 1] in ops;
      AdmitBoth(reg, AdmitAll(reg, db, p), HistAll(reg, db, hist, p), devs, d, from, ops[|ops| - 1], HistAll(reg, db, hist, ops));
    }
  }

  lemma AuthorOneBoth(reg: Registry, db: Db, hist: seq<Op>, devs: map<string, Device>, d: string, op: Op, now: int)
    requires Both(reg, db, hist, devs, d) && AuthorOne(reg, db, op, now).Some?
    ensures Both(reg, AuthorOne(reg, db, op, now).value, hist + [Stamp(reg, db, op, now)], devs, d)
  {
    AppendBoth(reg, db, hist, devs, d, Stamp(reg, db, op, now), AuthorOne(reg, db, op, now).value);
  }

  lemma {:induction false} AuthorAllBoth(reg: Registry, db: Db, hist: seq<Op>, devs: map<string, Device>, d: string, ops: seq<Op>, now: int)
    requires Both(reg, db, hist, devs, d) && AuthorAll(reg, db, ops, now).Some?
    ensures Both(reg, AuthorAll(reg, db, ops, now).value, hist + AuthoredOps(reg, db, ops, now), devs, d)
  {
    if ops == [] {
      assert hist + [] == hist;
    } else {
      var p, op := ops[..|ops| - 1], ops[|ops| - 1];
      AuthorAllBoth(reg, db, hist, devs, d, p, now);
      var mid := AuthorAll(reg, db, p, now).value;
      AuthorOneBoth(reg, mid, hist + AuthoredOps(reg, db, p, now), devs, d, op, now);
      assert hist + AuthoredOps(reg, db, ops, now) == (hist + AuthoredOps(reg, db, p, now)) + [Stamp(reg, mid, op, now)];
    }
  }

  // ---- compaction ----

  /** An entry that carries a row's winner is the changelog winner of that row. */
  lemma WinnerEntryWins(reg: Registry, db: Db, hist: seq<Op>, i: int)
    requires Sound(reg, db, hist) && 0 <= i < |db.log|
    requires RowOf(db.log[i].op) in db.mirror && Normalize(reg, db.log[i].op) == db.mirror[RowOf(db.log[i].op)]
    ensures LogWinner(db.log, i)
  {
    MergeWinners(reg, hist);
    var o := db.log[i].op;
    forall j | 0 <= j < |db.log| && RowOf(db.log[j].op) == RowOf(o)
      ensures !Less(o, db.log[j].op)
      ensures j < i ==> Less(db.log[j].op, o)
    {
      assert db.log[j] in db.log && db.log[j].op in hist;
      if j < i && !Less(db.log[j].op, o) {
        LessConnected(db.log[j].op, o);
      }
    }
  }

  /** A delete the device has not seen, which this watermark would purge. */
  ghost predicate Stranding(reg: Registry, db: Db, dev: Device, d: string, wm: int, e: Entry) {
    && e in db.log && dev.cursor < e.at <= wm && e.op.site != d && Tombstone(reg, e.op)
    && RowOf(e.op) in db.mirror && Normalize(reg, e.op) == db.mirror[RowOf(e.op)]
    && !Held(dev, RowOf(e.op), e.op)
  }

  /** A pass keeps the entry that carries a row's winner, unless it purges it as an old tombstone. */
  lemma WinnerKept(reg: Registry, db: Db, hist: seq<Op>, wm: int, e: Entry)
    requires Sound(reg, db, hist) && e in db.log
    requires RowOf(e.op) in db.mirror && Normalize(reg, e.op) == db.mirror[RowOf(e.op)]
    requires !(Tombstone(reg, e.op) && e.at <= wm)
    ensures e in Compact(reg, db, wm).log
  {
    var i :| 0 <= i < |db.log| && db.log[i] == e;
    WinnerEntryWins(reg, db, hist, i);
    SweepMember(reg, db.log, wm, |db.log|, e);
  }

  lemma QueuedSurvives(reg: Registry, db: Db, hist: seq<Op>, dev: Device, d: string, wm: int, r: Row)
    requires Sound(reg, db, hist) && r in db.mirror && !Held(dev, r, db.mirror[r])
    requires Queued(reg, db.log, dev.cursor, d, db.mirror[r])
    requires forall e :: !Stranding(reg, db, dev, d, wm, e)
    ensures Queued(reg, Compact(reg, db, wm).log, dev.cursor, d, db.mirror[r])
  {
    MirrorRows(reg, db, hist);
    var e :| e in db.log && e.at > dev.cursor && e.op.site != d && Normalize(reg, e.op) == db.mirror[r];
    assert RowOf(Normalize(reg, e.op)) == RowOf(e.op);
    assert !Stranding(reg, db, dev, d, wm, e);
    WinnerKept(reg, db, hist, wm, e);
  }

  lemma SweepKeepsCover(reg: Registry, db: Db, hist: seq<Op>, dev: Device, d: string, wm: int)
    requires Sound(reg, db, hist) && Covered(reg, db, dev, d)
    requires forall e :: !Stranding(reg, db, dev, d, wm, e)
    ensures Covered(reg, Compact(reg, db, wm), dev, d)
  {
    forall r | r in db.mirror && !Held(dev, r, db.mirror[r])
      ensures Queued(reg, Compact(reg, db, wm).log, dev.cursor, d, db.mirror[r])
    {
      QueuedSurvives(reg, db, hist, dev, d, wm, r);
    }
  }

  /** A pass keeps a device covered exactly when it strands no delete the device still needs. */
  lemma CompactUnobservableIff(reg: Registry, db: Db, hist: seq<Op>, dev: Device, d: string, wm: int)
    requires Sound(reg, db, hist) && Covered(reg, db, dev, d)
    ensures Covered(reg, Compact(reg, db, wm), dev, d) <==> forall e :: !Stranding(reg, db, dev, d, wm, e)
  {
    if forall e :: !Stranding(reg, db, dev, d, wm, e) {
      SweepKeepsCover(reg, db, hist, dev, d, wm);
    } else {
      var e :| Stranding(reg, db, dev, d, wm, e);
      StrandedForever(reg, db, hist, dev, d, wm, e);
    }
  }

  /** A stranded delete is gone from the changelog for good. */
  lemma StrandedForever(reg: Registry, db: Db, hist: seq<Op>, dev: Device, d: string, wm: int, e: Entry)
    requires Sound(reg, db, hist) && Stranding(reg, db, dev, d, wm, e)
    ensures forall f :: f in Compact(reg, db, wm).log ==> Normalize(reg, f.op) != db.mirror[RowOf(e.op)]
    ensures !Covered(reg, Compact(reg, db, wm), dev, d)
  {
    var w := db.mirror[RowOf(e.op)];
    forall f | f in Compact(reg, db, wm).log
      ensures Normalize(reg, f.op) != w
    {
      SweepMember(reg, db.log, wm, |db.log|, f);
      var i :| 0 <= i < |db.log| && db.log[i] == f && Keeps(reg, db.log, wm, i);
      if Normalize(reg, f.op) == w {
        LogEntryUnique(db, e, f);
      }
    }
    assert !Held(dev, RowOf(e.op), w);
  }

  // ---- pulling ----

  lemma {:induction false} MergeEntriesProps(reg: Registry, m: Table, es: seq<Entry>)
    requires forall e :: e in es ==> Complete(reg, e.op) == e.op
    ensures var m' := MergeEntries(reg, m, es);
            && (forall r :: r in m ==> r in m' && !Less(m'[r], m[r]))
            && (forall e :: e in es ==> RowOf(e.op) in m' && !Less(m'[RowOf(e.op)], e.op))
            && (forall r :: r in m' ==> (r in m && m'[r] == m[r]) || exists e :: e in es && RowOf(e.op) == r && Normalize(reg, e.op) == m'[r])
  {
    if es == [] {
      forall r | r in m ensures !Less(m[r], m[r]) {
        LessIrreflexive(m[r], m[r]);
      }
    } else {
      var p, e := es[..|es| - 1], es[|es| - 1];
      assert es == p + [e];
      MergeEntriesProps(reg, m, p);
      MergeIntoRises(reg, MergeEntries(reg, m, p), e.op);
      var q, m' := MergeEntries(reg, m, p), MergeEntries(reg, m, es);
      forall r | r in m
        ensures r in m' && !Less(m'[r], m[r])
      {
        LeqTransitive(m[r], q[r], m'[r]);
      }
      forall f | f in es
        ensures RowOf(f.op) in m' && !Less(m'[RowOf(f.op)], f.op)
      {
        if f in p {
          LeqTransitive(f.op, q[RowOf(f.op)], m'[RowOf(f.op)]);
        }
      }
    }
  }

  lemma MergeIntoRises(reg: Registry, m: Table, op: Op)
    ensures var m' := MergeInto(reg, m, op);
            && (forall r :: r in m ==> r in m' && !Less(m'[r], m[r]))
            && RowOf(op) in m' && !Less(m'[RowOf(op)], op)
            && (forall r :: r in m' ==> (r in m && m'[r] == m[r]) || (r == RowOf(op) && m'[r] == Normalize(reg, op)))
  {
    var m' := MergeInto(reg, m, op);
    LessIrreflexive(op, op);
    forall r | r in m
      ensures r in m' && !Less(m'[r], m[r])
    {
      LessIrreflexive(m[r], m[r]);
      if r == RowOf(op) && Beats(m, op) {
        LessAsymmetric(m[r], op);
      }
    }
  }

  lemma PageWithin(db: Db, cursor: int, d: string, limit: int)
    requires LogOk(db) && cursor <= db.lastSeq
    ensures var page := PageOf(db.log, cursor, d, limit);
            cursor <= page.cursor <= db.lastSeq && forall e :: e in page.entries ==> e in db.log
  {
    var page := PageOf(db.log, cursor, d, limit);
    PageSplits(db.log, cursor, d, limit);
    forall e | e in page.entries
      ensures e in db.log
    {
      PendingMember(db.log, cursor, d, e);
      assert e in Pending(db.log, cursor, d);
    }
  }

  lemma PullDeviceOk(reg: Registry, db: Db, hist: seq<Op>, dev: Device, d: string, limit: int)
    requires Sound(reg, db, hist) && DeviceOk(reg, db, hist, dev, d)
    ensures DeviceOk(reg, db, hist, PulledDevice(reg, dev, PageOf(db.log, dev.cursor, d, limit)), d)
  {
    var page := PageOf(db.log, dev.cursor, d, limit);
    PageWithin(db, dev.cursor, d, limit);
    PullOwnHeld(reg, dev, page);
    PullOrigin(reg, db, hist, dev, page);
    MirrorRows(reg, db, hist);
    PullCovered(reg, db, dev, d, limit);
  }

  lemma PullOwnHeld(reg: Registry, dev: Device, page: Page)
    requires OwnHeld(dev) && forall e :: e in page.entries ==> Complete(reg, e.op) == e.op
    ensures OwnHeld(PulledDevice(reg, dev, page))
  {
    var dev' := PulledDevice(reg, dev, page);
    MergeEntriesProps(reg, dev.replica, page.entries);
    forall op | op in dev.authored
      ensures Held(dev', RowOf(op), op)
    {
      assert Held(dev, RowOf(op), op);
      LeqTransitive(op, dev.replica[RowOf(op)], dev'.replica[RowOf(op)]);
    }
  }

  lemma PullOrigin(reg: Registry, db: Db, hist: seq<Op>, dev: Device, page: Page)
    requires LogFrom(reg, db.log, hist) && Origin(reg, hist, dev)
    requires forall e :: e in page.entries ==> e in db.log
    ensures Origin(reg, hist, PulledDevice(reg, dev, page))
  {
    var dev' := PulledDevice(reg, dev, page);
    MergeEntriesProps(reg, dev.replica, page.entries);
    forall r | r in dev'.replica
      ensures From(reg, hist, dev', r, dev'.replica[r])
    {
      if r in dev.replica && dev'.replica[r] == dev.replica[r] {
        var op :| RowOf(op) == r && Normalize(reg, op) == dev.replica[r] && (op in hist || OwnOp(reg, dev, op));
        assert OwnOp(reg, dev, op) ==> OwnOp(reg, dev', op);
      } else {
        var e :| e in page.entries && RowOf(e.op) == r && Normalize(reg, e.op) == dev'.replica[r];
        assert e.op in hist;
      }
    }
  }

  /** A pending entry is in the page or still pending at the returned cursor. */
  lemma PendingOrDelivered(db: Db, cursor: int, d: string, limit: int, e: Entry)
    requires LogOk(db) && e in db.log && e.at > cursor && e.op.site != d
    ensures var page := PageOf(db.log, cursor, d, limit); e in page.entries || e.at > page.cursor
  {
    var page := PageOf(db.log, cursor, d, limit);
    PageSplits(db.log, cursor, d, limit);
    PendingMember(db.log, cursor, d, e);
    PendingMember(db.log, page.cursor, d, e);
    assert e in page.entries + Pending(db.log, page.cursor, d);
  }

  lemma PullRow(reg: Registry, db: Db, dev: Device, d: string, page: Page, dev': Device, r: Row)
    requires r in db.mirror && RowOf(db.mirror[r]) == r
    requires Held(dev, r, db.mirror[r]) || Queued(reg, db.log, dev.cursor, d, db.mirror[r])
    requires dev'.cursor == page.cursor
    requires forall e :: e in db.log && e.at > dev.cursor && e.op.site != d ==> e in page.entries || e.at > page.cursor
    requires forall x :: x in dev.replica ==> x in dev'.replica && !Less(dev'.replica[x], dev.replica[x])
    requires forall e :: e in page.entries ==> Held(dev', RowOf(e.op), e.op)
    ensures Held(dev', r, db.mirror[r]) || Queued(reg, db.log, dev'.cursor, d, db.mirror[r])
  {
    var w := db.mirror[r];
    if Held(dev, r, w) {
      LeqTransitive(w, dev.replica[r], dev'.replica[r]);
    } else {
      var e :| e in db.log && e.at > dev.cursor && e.op.site != d && Normalize(reg, e.op) == w;
      assert RowOf(Normalize(reg, e.op)) == RowOf(e.op);
      if e in page.entries {
        assert Held(dev', r, e.op);
      }
    }
  }

  lemma PullCovered(reg: Registry, db: Db, dev: Device, d: string, limit: int)
    requires LogOk(db) && Covered(reg, db, dev, d)
    requires forall e :: e in db.log ==> Complete(reg, e.op) == e.op
    requires forall e :: e in PageOf(db.log, dev.cursor, d, limit).entries ==> e in db.log
    requires forall r :: r in db.mirror ==> RowOf(db.mirror[r]) == r
    ensures Covered(reg, db, PulledDevice(reg, dev, PageOf(db.log, dev.cursor, d, limit)), d)
  {
    var page := PageOf(db.log, dev.cursor, d, limit);
    var dev' := PulledDevice(reg, dev, page);
    MergeEntriesProps(reg, dev.replica, page.entries);
    forall e | e in db.log && e.at > dev.cursor && e.op.site != d
      ensures e in page.entries || e.at > page.cursor
    {
      PendingOrDelivered(db, dev.cursor, d, limit, e);
    }
    forall r | r in db.mirror
      ensures Held(dev', r, db.mirror[r]) || Queued(reg, db.log, dev'.cursor, d, db.mirror[r])
    {
      PullRow(reg, db, dev, d, page, dev', r);
    }
  }

  // ---- editing ----

  lemma EditProvenance(reg: Registry, db: Db, hist: seq<Op>, devs: map<string, Device>, d: string, op: Op)
    requires Provenance(reg, db, hist, devs) && d in devs
    ensures Provenance(reg, db, hist, devs[d := EditedDevice(reg, devs[d], d, op)])
  {
    var dev, dev' := devs[d], EditedDevice(reg, devs[d], d, op);
    forall o | o in hist && o.site == d
      ensures OwnOp(reg, dev', o)
    {
      var i :| 0 <= i < |dev.authored| && o == Complete(reg, dev.authored[i]);
      assert dev'.authored[i] == dev.authored[i];
    }
  }

  lemma EditDeviceOk(reg: Registry, db: Db, hist: seq<Op>, dev: Device, d: string, op: Op)
    requires DeviceOk(reg, db, hist, dev, d)
    requires forall r :: r in db.mirror ==> RowOf(db.mirror[r]) == r
    ensures DeviceOk(reg, db, hist, EditedDevice(reg, dev, d, op), d)
  {
    var dev' := EditedDevice(reg, dev, d, op);
    var o := dev'.authored[|dev.authored|];
    var c := Complete(reg, o);
    MergeIntoRises(reg, dev.replica, c);
    forall a | a in dev'.authored
      ensures Held(dev', RowOf(a), a)
    {
      if a in dev.authored {
        assert Held(dev, RowOf(a), a);
        LeqTransitive(a, dev.replica[RowOf(a)], dev'.replica[RowOf(a)]);
      }
    }
    forall r | r in dev'.replica
      ensures From(reg, hist, dev', r, dev'.replica[r])
    {
      if r in dev.replica && dev'.replica[r] == dev.replica[r] {
        var x :| RowOf(x) == r && Normalize(reg, x) == dev.replica[r] && (x in hist || OwnOp(reg, dev, x));
        if OwnOp(reg, dev, x) {
          var i :| 0 <= i < |dev.authored| && x == Complete(reg, dev.authored[i]);
          assert dev'.authored[i] == dev.authored[i];
          assert OwnOp(reg, dev', x);
        }
      } else {
        assert c == Complete(reg, dev'.authored[|dev.authored|]);
        assert OwnOp(reg, dev', c);
      }
    }
    forall r | r in db.mirror
      ensures Held(dev', r, db.mirror[r]) || Queued(reg, db.log, dev'.cursor, d, db.mirror[r])
    {
      if Held(dev, r, db.mirror[r]) {
        LeqTransitive(db.mirror[r], dev.replica[r], dev'.replica[r]);
      }
    }
  }

  // ---- one move ----

  lemma MirrorRows(reg: Registry, db: Db, hist: seq<Op>)
    requires Sound(reg, db, hist)
    ensures forall r :: r in db.mirror ==> RowOf(db.mirror[r]) == r
  {
    MergeWinners(reg, hist);
    forall r | r in db.mirror
      ensures RowOf(db.mirror[r]) == r
    {
      assert FromOps(reg, db.mirror[r], r, hist);
    }
  }

  /** The device's true cursor is at least the watermark of every pass. */
  predicate ActiveAt(w: World, m: Move, d: string) {
    m.Server? && m.step.Sweeping? && d in w.devs ==> m.step.watermark <= w.devs[d].cursor
  }

  lemma ServerMove(reg: Registry, w: World, step: Step, d: string)
    requires Coherent(reg, w) && Tracks(reg, w, d) && !step.Push? && ActiveAt(w, Server(step), d)
    ensures var w' := NextWorld(reg, w, Server(step)); Coherent(reg, w') && Tracks(reg, w', d)
  {
    match step
    case Author(ops, now) =>
      NextSound(reg, w.srv, step);
      if AuthorAll(reg, w.srv.db, ops, now).Some? {
        AuthorAllBoth(reg, w.srv.db, w.srv.hist, w.devs, d, ops, now);
      }
    case Sweeping(wm) =>
      NextSound(reg, w.srv, step);
      SweepKeepsCover(reg, w.srv.db, w.srv.hist, w.devs[d], d, wm);
    case Record(_, _, _, _) =>
    case Prune(_) =>
  }

  lemma PullMove(reg: Registry, w: World, m: Move, d: string)
    requires Coherent(reg, w) && Tracks(reg, w, d) && Enabled(w, m) && m.Pull?
    ensures var w' := NextWorld(reg, w, m); Coherent(reg, w') && Tracks(reg, w', d)
  {
    if m.dev == d {
      PullDeviceOk(reg, w.srv.db, w.srv.hist, w.devs[d], d, m.limit);
    }
    var page := PageOf(w.srv.db.log, w.devs[m.dev].cursor, m.dev, m.limit);
    var devs' := w.devs[m.dev := PulledDevice(reg, w.devs[m.dev], page)];
  }

  lemma OneMove(reg: Registry, w: World, m: Move, d: string)
    requires Coherent(reg, w) && Tracks(reg, w, d) && Enabled(w, m) && ActiveAt(w, m, d)
    ensures var w' := NextWorld(reg, w, m); Coherent(reg, w') && Tracks(reg, w', d)
  {
    match m
    case Edit(x, op) =>
      EditProvenance(reg, w.srv.db, w.srv.hist, w.devs, x, op);
      if x == d {
        MirrorRows(reg, w.srv.db, w.srv.hist);
        EditDeviceOk(reg, w.srv.db, w.srv.hist, w.devs[d], d, op);
      }
    case Send(x, ops, now) =>
      NextSound(reg, w.srv, Push(x, ops, now));
      AdmitAllBoth(reg, w.srv.db, w.srv.hist, w.devs, d, x, ops);
    case Pull(_, _, _, _) => PullMove(reg, w, m, d);
    case PullLost(_, _, _, _) =>
    case Server(step) => ServerMove(reg, w, step, d);
  }

  lemma {:induction false} RunTracks(reg: Registry, site: string, ds: set<string>, ws: seq<World>, ms: seq<Move>, d: string, n: int)
    requires IsRun(reg, ws, ms) && ws[0] == StartWorld(site, ds) && site !in ds && d in ds
    requires forall i :: 0 <= i < |ms| ==> ActiveAt(ws[i], ms[i], d)
    requires 0 <= n <= |ms|
    ensures Coherent(reg, ws[n]) && Tracks(reg, ws[n], d)
  {
    if n > 0 {
      RunTracks(reg, site, ds, ws, ms, d, n - 1);
      OneMove(reg, ws[n - 1], ms[n - 1], d);
    }
  }

  // ---- the theorem ----

  /** Nothing is left to pull, and every op the device authored was appended (none refused, none unsent). */
  ghost predicate CaughtUp(reg: Registry, w: World, d: string) {
    && d in w.devs
    && Pending(w.srv.db.log, w.devs[d].cursor, d) == []
    && forall op :: op in w.devs[d].authored ==> Complete(reg, op) in w.srv.hist
  }

  lemma CaughtUpHolds(reg: Registry, db: Db, dev: Device, d: string, r: Row)
    requires Covered(reg, db, dev, d) && Pending(db.log, dev.cursor, d) == [] && r in db.mirror
    ensures Held(dev, r, db.mirror[r])
  {
    if !Held(dev, r, db.mirror[r]) {
      var e :| e in db.log && e.at > dev.cursor && e.op.site != d && Normalize(reg, e.op) == db.mirror[r];
      PendingMember(db.log, dev.cursor, d, e);
    }
  }

  lemma SameWinner(reg: Registry, m: Table, hist: seq<Op>, dev: Device, r: Row)
    requires WinnersOf(reg, m, hist) && OneOpPerId(hist)
    requires forall op :: op in dev.authored ==> Complete(reg, op) in hist
    requires r in dev.replica && From(reg, hist, dev, r, dev.replica[r])
    requires r in m ==> Held(dev, r, m[r])
    ensures r in m && dev.replica[r] == m[r]
  {
    var a :| RowOf(a) == r && Normalize(reg, a) == dev.replica[r] && (a in hist || OwnOp(reg, dev, a));
    assert a in hist;
    assert FromOps(reg, m[r], r, hist);
    var b :| b in hist && RowOf(b) == r && Normalize(reg, b) == m[r];
    LessConnected(a, b);
    assert a == b;
  }

  lemma CaughtUpAgrees(reg: Registry, w: World, d: string)
    requires Coherent(reg, w) && Tracks(reg, w, d) && CaughtUp(reg, w, d)
    ensures w.devs[d].replica == w.srv.db.mirror
  {
    var db, hist, dev := w.srv.db, w.srv.hist, w.devs[d];
    MergeWinners(reg, hist);
    HistoryHasOneOpPerId(reg, db, hist, w.devs);
    forall r | r in db.mirror
      ensures Held(dev, r, db.mirror[r])
    {
      CaughtUpHolds(reg, db, dev, d, r);
    }
    forall r | r in dev.replica
      ensures r in db.mirror && dev.replica[r] == db.mirror[r]
    {
      SameWinner(reg, db.mirror, hist, dev, r);
    }
  }

  /**
   Convergence over every run of edits, pushes, server authoring, paged pulls, lost responses and
   compactions: a device whose cursor stays at or above each watermark used, once caught up, holds
   exactly the server's mirror, although superseded ops and purged tombstones never reached it.
   */
  lemma ActiveDeviceConverges(reg: Registry, site: string, ds: set<string>, ws: seq<World>, ms: seq<Move>, d: string)
    requires IsRun(reg, ws, ms) && ws[0] == StartWorld(site, ds) && site !in ds && d in ds
    requires forall i :: 0 <= i < |ms| ==> ActiveAt(ws[i], ms[i], d)
    requires CaughtUp(reg, ws[|ms|], d)
    ensures ws[|ms|].devs[d].replica == ws[|ms|].srv.db.mirror
  {
    RunTracks(reg, site, ds, ws, ms, d, |ms|);
    CaughtUpAgrees(reg, ws[|ms|], d);
  }

  /** A pull that answers has_more = false leaves nothing pending. */
  lemma LastPageDrains(reg: Registry, w: World, m: Move)
    requires Coherent(reg, w) && Enabled(w, m) && m.Pull?
    requires !PageOf(w.srv.db.log, w.devs[m.dev].cursor, m.dev, m.limit).hasMore
    ensures var w' := NextWorld(reg, w, m); Pending(w'.srv.db.log, w'.devs[m.dev].cursor, m.dev) == []
  {
    PageSplits(w.srv.db.log, w.devs[m.dev].cursor, m.dev, m.limit);
  }

  // ---- the watermark the server computes ----

  /** Every response arrives, cursors are recorded only by pulls, and passes use the computed watermark with d non-stale. */
  ghost predicate HealthyAt(w: World, m: Move, d: string) {
    match m
    case PullLost(x, _, _, _) => x != d
    case Server(Record(x, _, _, _)) => x != d
    case Server(Sweeping(wm)) =>
      exists now, horizon :: IsWatermark(w.srv.db.cursors, now, horizon, wm)
        && d in w.srv.db.cursors && !Stale(w.srv.db.cursors[d], now, horizon)
    case _ => true
  }

  ghost predicate RecordHonest(w: World, d: string) {
    d in w.devs && 0 <= w.devs[d].cursor && (d in w.srv.db.cursors ==> w.srv.db.cursors[d].lastPull <= w.devs[d].cursor)
  }

  lemma HonestMove(reg: Registry, w: World, m: Move, d: string)
    requires Coherent(reg, w) && RecordHonest(w, d) && Enabled(w, m) && HealthyAt(w, m, d)
    ensures RecordHonest(NextWorld(reg, w, m), d)
  {
    match m
    case Edit(_, _) =>
    case Send(x, ops, now) => AdmitAllFrame(reg, w.srv.db, ops);
    case Pull(x, limit, _, _) => PageSplits(w.srv.db.log, w.devs[x].cursor, x, limit);
    case PullLost(_, _, _, _) =>
    case Server(Author(ops, now)) =>
      if AuthorAll(reg, w.srv.db, ops, now).Some? {
        AuthorAllFrame(reg, w.srv.db, ops, now);
      }
    case Server(_) =>
  }

  lemma {:induction false} HealthyIsActive(reg: Registry, site: string, ds: set<string>, ws: seq<World>, ms: seq<Move>, d: string, n: int)
    requires IsRun(reg, ws, ms) && ws[0] == StartWorld(site, ds) && site !in ds && d in ds
    requires forall i :: 0 <= i < |ms| ==> HealthyAt(ws[i], ms[i], d)
    requires 0 <= n <= |ms|
    ensures RecordHonest(ws[n], d) && Coherent(reg, ws[n]) && Tracks(reg, ws[n], d)
    ensures n < |ms| ==> ActiveAt(ws[n], ms[n], d)
  {
    if n > 0 {
      HealthyIsActive(reg, site, ds, ws, ms, d, n - 1);
      OneMove(reg, ws[n - 1], ms[n - 1], d);
      HonestMove(reg, ws[n - 1], ms[n - 1], d);
    }
  }

  /**
   With no lost response, a device that is registered and not stale whenever the server computes a
   watermark and compacts, converges: the computed watermark never passes its cursor.
   */
  lemma RegisteredDeviceConverges(reg: Registry, site: string, ds: set<string>, ws: seq<World>, ms: seq<Move>, d: string)
    requires IsRun(reg, ws, ms) && ws[0] == StartWorld(site, ds) && site !in ds && d in ds
    requires forall i :: 0 <= i < |ms| ==> HealthyAt(ws[i], ms[i], d)
    requires CaughtUp(reg, ws[|ms|], d)
    ensures ws[|ms|].devs[d].replica == ws[|ms|].srv.db.mirror
  {
    HealthyIsActive(reg, site, ds, ws, ms, d, |ms|);
    CaughtUpAgrees(reg, ws[|ms|], d);
  }

  /** A lost response leaves the device as it was and moves only the server's record of its cursor. */
  lemma LostFrame(reg: Registry, w: World, d: string, limit: int, now: int, lost: World)
    requires d in w.devs && lost == NextWorld(reg, w, PullLost(d, limit, "", now))
    ensures lost.devs == w.devs && lost.srv.hist == w.srv.hist
    ensures lost.srv.db == w.srv.db.(cursors := lost.srv.db.cursors)
    ensures d in lost.srv.db.cursors
    ensures lost.srv.db.cursors[d].lastPull == PageOf(w.srv.db.log, w.devs[d].cursor, d, limit).cursor
  {
  }

  /**
   With a lost response the recorded cursor passes the true one, and the watermark computed from it
   purges deletes the device never saw: no entry will ever carry them to it again.
   */
  lemma LostResponseStrandsDelete(reg: Registry, w: World, d: string, limit: int, now: int, horizon: int, wm: int, e: Entry, lost: World)
    requires Sound(reg, w.srv.db, w.srv.hist)
    requires d in w.devs && Stranding(reg, w.srv.db, w.devs[d], d, wm, e)
    requires lost == NextWorld(reg, w, PullLost(d, limit, "", now))
    requires IsWatermark(lost.srv.db.cursors, now, horizon, wm)
    ensures var swept := Compact(reg, lost.srv.db, wm);
            && !Covered(reg, swept, lost.devs[d], d)
            && (forall f :: f in swept.log ==> Normalize(reg, f.op) != swept.mirror[RowOf(e.op)])
  {
    LostFrame(reg, w, d, limit, now, lost);
    StrandedForever(reg, lost.srv.db, w.srv.hist, w.devs[d], d, wm, e);
  }

  /** No pulls of any number of surviving entries help: the device still disagrees with the server on that row. */
  lemma ZombieForever(reg: Registry, db: Db, hist: seq<Op>, dev: Device, d: string, wm: int, e: Entry, es: seq<Entry>)
    requires Sound(reg, db, hist) && Stranding(reg, db, dev, d, wm, e)
    requires forall f :: f in es ==> f in Compact(reg, db, wm).log
    ensures var r := RowOf(e.op); var m := MergeEntries(reg, dev.replica, es); r !in m || m[r] != db.mirror[r]
  {
    StrandedForever(reg, db, hist, dev, d, wm, e);
    CompactKeepsLogOk(reg, db, wm);
    MergeEntriesProps(reg, dev.replica, es);
    LessIrreflexive(db.mirror[RowOf(e.op)], e.op);
  }

  lemma ZombieAfterPull(reg: Registry, db: Db, hist: seq<Op>, dev: Device, d: string, wm: int, e: Entry, limit: int)
    requires Sound(reg, db, hist) && Stranding(reg, db, dev, d, wm, e) && dev.cursor <= db.lastSeq
    ensures PulledDevice(reg, dev, PageOf(Compact(reg, db, wm).log, dev.cursor, d, limit)).replica != db.mirror
  {
    CompactKeepsLogOk(reg, db, wm);
    PageWithin(Compact(reg, db, wm), dev.cursor, d, limit);
    ZombieForever(reg, db, hist, dev, d, wm, e, PageOf(Compact(reg, db, wm).log, dev.cursor, d, limit).entries);
  }

  /** One page large enough is a whole drain. */
  lemma DrainPage(db: Db, cursor: int, d: string) returns (limit: int)
    ensures PageOf(db.log, cursor, d, limit).entries == Pending(db.log, cursor, d)
  {
    limit := |Pending(db.log, cursor, d)| + 1;
  }

  /**
   For a device in step whose own ops all arrived: a pass followed by a drain leaves it with the
   mirror if and only if the pass purged no winning delete the device had not seen.
   */
  lemma PassThenDrainIff(reg: Registry, w: World, d: string, wm: int)
    requires Coherent(reg, w) && Tracks(reg, w, d)
    requires forall op :: op in w.devs[d].authored ==> Complete(reg, op) in w.srv.hist
    ensures var dev := w.devs[d];
            MergeEntries(reg, dev.replica, Pending(Compact(reg, w.srv.db, wm).log, dev.cursor, d)) == w.srv.db.mirror
            <==> forall e :: !Stranding(reg, w.srv.db, dev, d, wm, e)
  {
    var dev, swept := w.devs[d], Compact(reg, w.srv.db, wm);
    var es := Pending(swept.log, dev.cursor, d);
    if e :| Stranding(reg, w.srv.db, dev, d, wm, e) {
      forall f | f in es
        ensures f in swept.log
      {
        PendingMember(swept.log, dev.cursor, d, f);
      }
      ZombieForever(reg, w.srv.db, w.srv.hist, dev, d, wm, e, es);
    } else {
      SweepKeepsCover(reg, w.srv.db, w.srv.hist, dev, d, wm);
      DrainAgrees(reg, w, d, wm);
    }
  }

  lemma DrainAgrees(reg: Registry, w: World, d: string, wm: int)
    requires Coherent(reg, w) && Tracks(reg, w, d) && Covered(reg, Compact(reg, w.srv.db, wm), w.devs[d], d)
    requires forall op :: op in w.devs[d].authored ==> Complete(reg, op) in w.srv.hist
    ensures MergeEntries(reg, w.devs[d].replica, Pending(Compact(reg, w.srv.db, wm).log, w.devs[d].cursor, d)) == w.srv.db.mirror
  {
    NextSound(reg, w.srv, Sweeping(wm));
    var w1 := NextWorld(reg, w, Server(Sweeping(wm)));
    assert Coherent(reg, w1) && Tracks(reg, w1, d);
    var limit := DrainPage(w1.srv.db, w1.devs[d].cursor, d);
    var m := Pull(d, limit, "", 0);
    PullMove(reg, w1, m, d);
    PageSplits(w1.srv.db.log, w1.devs[d].cursor, d, limit);
    CaughtUpAgrees(reg, NextWorld(reg, w1, m), d);
  }
}
