/**
 The sync database as a value and every transaction on it as a function: push, authoring,
 relay page, cursor bookkeeping, compaction and prune. The class in SyncStore.dfy runs the
 same transactions with loops and is proved against these functions.
 */
module SyncState {
  import opened Basics
  import opened Ops
  import opened Reconcile

  const DEFAULT_LIMIT := 500

  /** One changelog row: an op at its global sequence number. */
  datatype Entry = Entry(at: int, op: Op)

  datatype Cursor = Cursor(lastPull: int, acked: int, updatedAt: int, name: string)

  /** `log` is the changelog in ascending sequence order; `mirror` holds one winning op per row. */
  datatype Db = Db(log: seq<Entry>, lastSeq: int, mirror: Table, cursors: map<string, Cursor>,
                   site: string, siteOpSeq: int, lastHlc: int)

  datatype Rejection = Rejection(site: string, opSeq: int, reason: Reason)

  function Fresh(site: string): Db {
    Db([], 0, map[], map[], site, 0, 0)
  }

  // ---- hybrid logical clock, on wrapping 64-bit integers ----

  function Max(a: int, b: int): int {
    if a < b then b else a
  }

  function Inc64(x: int): int {
    if x == MAX_INT64 then MIN_INT64 else x + 1
  }

  function LocalEvent(last: int, now: int): int {
    Max(now, Inc64(last))
  }

  function ReceiveEvent(last: int, now: int, remote: int): int {
    Max(Max(now, Inc64(last)), Inc64(remote))
  }

  // ---- push ----

  predicate Logged(log: seq<Entry>, site: string, opSeq: int) {
    exists e :: e in log && e.op.site == site && e.op.opSeq == opSeq
  }

  datatype Verdict = Refused(reason: Reason) | Duplicate | Lost | Won

  /** What happens to one completed op: refused, already settled, recorded but losing, or winning its row. */
  function Judge(reg: Registry, db: Db, op: Op): Verdict {
    match Validate(reg, op)
    case Some(reason) => Refused(reason)
    case None =>
      if Logged(db.log, op.site, op.opSeq) then Duplicate
      else if !Beats(db.mirror, op) then Lost
      else if !WellTyped(reg, op) then Refused(BadType)
      else Won
  }

  function AppendOp(db: Db, op: Op): Db {
    db.(lastSeq := db.lastSeq + 1, log := db.log + [Entry(db.lastSeq + 1, op)])
  }

  function Admit(reg: Registry, db: Db, incoming: Op): Db {
    var op := Complete(reg, incoming);
    match Judge(reg, db, op)
    case Refused(_) => db
    case Duplicate => db
    case Lost => AppendOp(db, op)
    case Won => AppendOp(db.(mirror := db.mirror[RowOf(op) := Normalize(reg, op)]), op)
  }

  function AdmitAll(reg: Registry, db: Db, ops: seq<Op>): Db {
    if ops == [] then db else Admit(reg, AdmitAll(reg, db, ops[..|ops| - 1]), ops[|ops| - 1])
  }

  function RejectionOf(reg: Registry, db: Db, incoming: Op): seq<Rejection> {
    var op := Complete(reg, incoming);
    match Judge(reg, db, op)
    case Refused(reason) => [Rejection(op.site, op.opSeq, reason)]
    case _ => []
  }

  function RejectAll(reg: Registry, db: Db, ops: seq<Op>): seq<Rejection> {
    if ops == [] then [] else
      var p := ops[..|ops| - 1];
      RejectAll(reg, db, p) + RejectionOf(reg, AdmitAll(reg, db, p), ops[|ops| - 1])
  }

  function RefusedSeqs(rejected: seq<Rejection>, site: string): set<int> {
    set r | r in rejected && r.site == site :: r.opSeq
  }

  function MaxTs(ops: seq<Op>): int {
    if ops == [] then 0 else Max(MaxTs(ops[..|ops| - 1]), ops[|ops| - 1].ts)
  }

  function LoggedSeqs(log: seq<Entry>, site: string): set<int> {
    set e | e in log && e.op.site == site :: e.op.opSeq
  }

  function MaxOpSeq(log: seq<Entry>, site: string): int {
    if log == [] then 0
    else
      var m := MaxOpSeq(log[..|log| - 1], site);
      var last := log[|log| - 1].op;
      if last.site == site then Max(m, last.opSeq) else m
  }

  /** The walk that raises the acknowledged high-water over consecutive settled op_seqs. */
  function Advance(settled: set<int>, h: int): (r: int)
    ensures h <= r
    ensures forall n :: h < n <= r ==> n in settled
    ensures r + 1 !in settled
    decreases |set n | n in settled && n > h|
  {
    if h + 1 in settled then
      var above := set n | n in settled && n > h;
      var next := set n | n in settled && n > h + 1;
      assert above == next + {h + 1} && h + 1 !in next;
      Advance(settled, h + 1)
    else h
  }

  function WalkStart(db: Db, site: string): int {
    if site in db.cursors then db.cursors[site].acked else MaxOpSeq(db.log, site)
  }

  function AckedCursor(db: Db, site: string, acked: int, now: int): Cursor {
    if site in db.cursors then db.cursors[site].(acked := acked, updatedAt := now)
    else Cursor(0, acked, now, "")
  }

  function Accepted(reg: Registry, db: Db, site: string, ops: seq<Op>): int {
    Advance(RefusedSeqs(RejectAll(reg, db, ops), site) + LoggedSeqs(AdmitAll(reg, db, ops).log, site),
            WalkStart(db, site))
  }

  function ApplyBatch(reg: Registry, db: Db, site: string, ops: seq<Op>, now: int): Db {
    AdmitAll(reg, db, ops).(
      cursors := db.cursors[site := AckedCursor(db, site, Accepted(reg, db, site, ops), now)],
      lastHlc := ReceiveEvent(db.lastHlc, now, MaxTs(ops)))
  }

  // ---- server authoring ----

  function Stamp(reg: Registry, db: Db, op: Op, now: int): Op {
    Complete(reg, op).(site := db.site, opSeq := db.siteOpSeq + 1, ts := LocalEvent(db.lastHlc, now))
  }

  /** None is a refused transaction: an invalid or ill-typed op, or an identity already in the changelog. */
  function AuthorOne(reg: Registry, db: Db, op: Op, now: int): Option<Db> {
    var o := Stamp(reg, db, op, now);
    if Validate(reg, o).Some? then None
    else if Beats(db.mirror, o) && !WellTyped(reg, o) then None
    else if Logged(db.log, o.site, o.opSeq) then None
    else Some(AppendOp(db.(mirror := MergeInto(reg, db.mirror, o), siteOpSeq := o.opSeq, lastHlc := o.ts), o))
  }

  function AuthorAll(reg: Registry, db: Db, ops: seq<Op>, now: int): Option<Db> {
    if ops == [] then Some(db)
    else match AuthorAll(reg, db, ops[..|ops| - 1], now)
      case None => None
      case Some(d) => AuthorOne(reg, d, ops[|ops| - 1], now)
  }

  // ---- what a transaction leaves alone ----

  /** A batch moves no cursor, counter or clock, and appends only entries of the sites in it. */
  lemma {:induction false} AdmitAllFrame(reg: Registry, db: Db, ops: seq<Op>)
    ensures var d := AdmitAll(reg, db, ops);
            d.cursors == db.cursors && d.site == db.site && d.siteOpSeq == db.siteOpSeq && d.lastHlc == db.lastHlc
    ensures forall e :: e in AdmitAll(reg, db, ops).log ==> e in db.log || exists op :: op in ops && SameId(op, e.op)
  {
    if ops != [] {
      var p := ops[..|ops| - 1];
      AdmitAllFrame(reg, db, p);
      assert ops[|ops| - 1] in ops && forall op :: op in p ==> op in ops;
    }
  }

  /** Authoring moves no cursor and appends only the server's entries. */
  lemma {:induction false} AuthorAllFrame(reg: Registry, db: Db, ops: seq<Op>, now: int)
    requires AuthorAll(reg, db, ops, now).Some?
    ensures var d := AuthorAll(reg, db, ops, now).value;
            d.cursors == db.cursors && d.site == db.site && d.siteOpSeq == db.siteOpSeq + |ops|
    ensures forall e :: e in AuthorAll(reg, db, ops, now).value.log ==> e in db.log || e.op.site == db.site
  {
    if ops != [] {
      AuthorAllFrame(reg, db, ops[..|ops| - 1], now);
    }
  }

  // ---- relay ----

  function Pending(log: seq<Entry>, cursor: int, exclude: string): seq<Entry> {
    if log == [] then []
    else
      var p := Pending(log[..|log| - 1], cursor, exclude);
      var e := log[|log| - 1];
      if e.at > cursor && e.op.site != exclude then p + [e] else p
  }

  datatype Page = Page(entries: seq<Entry>, cursor: int, hasMore: bool)

  function PageOf(log: seq<Entry>, cursor: int, exclude: string, limit: int): Page {
    var lim := if limit <= 0 then DEFAULT_LIMIT else limit;
    var p := Pending(log, cursor, exclude);
    var t := if |p| <= lim then p else p[..lim];
    Page(t, if t == [] then cursor else t[|t| - 1].at, |p| > lim)
  }

  function RecordCursor(db: Db, site: string, lastPull: int, name: string, now: int): Db {
    var c := if site in db.cursors
             then db.cursors[site].(lastPull := lastPull, updatedAt := now,
                                    name := if name != "" then name else db.cursors[site].name)
             else Cursor(lastPull, 0, now, name);
    db.(cursors := db.cursors[site := c])
  }

  function DeleteDevice(db: Db, site: string): Db {
    db.(cursors := db.cursors - {site})
  }

  // ---- compaction ----

  /** Entry i is the first entry of its row with the greatest key. */
  predicate LogWinner(log: seq<Entry>, i: int)
    requires 0 <= i < |log|
  {
    && (forall j :: 0 <= j < |log| && RowOf(log[j].op) == RowOf(log[i].op) ==> !Less(log[i].op, log[j].op))
    && (forall j :: 0 <= j < i && RowOf(log[j].op) == RowOf(log[i].op) ==> Less(log[j].op, log[i].op))
  }

  predicate Keeps(reg: Registry, log: seq<Entry>, watermark: int, i: int)
    requires 0 <= i < |log|
  {
    LogWinner(log, i) && !(Tombstone(reg, log[i].op) && log[i].at <= watermark)
  }

  function SweepTo(reg: Registry, log: seq<Entry>, watermark: int, n: int): seq<Entry>
    requires 0 <= n <= |log|
  {
    if n == 0 then []
    else SweepTo(reg, log, watermark, n - 1) + if Keeps(reg, log, watermark, n - 1) then [log[n - 1]] else []
  }

  function Sweep(reg: Registry, log: seq<Entry>, watermark: int): seq<Entry> {
    SweepTo(reg, log, watermark, |log|)
  }

  function Compact(reg: Registry, db: Db, watermark: int): Db {
    db.(log := Sweep(reg, db.log, watermark))
  }

  predicate Stale(c: Cursor, now: int, horizon: int) {
    now - c.updatedAt > horizon
  }

  /** The purge watermark: the least recorded pull cursor over non-stale devices, 0 when there is none. */
  ghost predicate IsWatermark(cursors: map<string, Cursor>, now: int, horizon: int, wm: int) {
    && (forall s :: s in cursors && !Stale(cursors[s], now, horizon) ==> wm <= cursors[s].lastPull)
    && ((exists s :: s in cursors && !Stale(cursors[s], now, horizon) && cursors[s].lastPull == wm)
        || (wm == 0 && forall s :: s in cursors ==> Stale(cursors[s], now, horizon)))
  }

  // ---- the changelog invariant ----

  /** Sequence numbers ascend and stay within the high-water, and no identity occurs twice. */
  ghost predicate LogOk(db: Db) {
    Spaced(db.log, db.lastSeq) && 0 <= db.lastSeq
  }

  lemma AppendKeepsLogOk(db: Db, op: Op)
    requires LogOk(db) && !Logged(db.log, op.site, op.opSeq)
    ensures LogOk(AppendOp(db, op))
  {
    var l := AppendOp(db, op).log;
    forall i, j | 0 <= i < j < |l|
      ensures !SameId(l[i].op, l[j].op) && l[i].at < l[j].at
    {
      assert l[i] in db.log;
    }
  }

  lemma LogEntryUnique(db: Db, e: Entry, f: Entry)
    requires LogOk(db) && e in db.log && f in db.log && SameId(e.op, f.op)
    ensures e == f
  {
    var i :| 0 <= i < |db.log| && db.log[i] == e;
    var j :| 0 <= j < |db.log| && db.log[j] == f;
    assert i == j;
  }

  // ---- members of pages and sweeps ----

  lemma {:induction false} PendingMember(log: seq<Entry>, cursor: int, exclude: string, e: Entry)
    ensures e in Pending(log, cursor, exclude) <==> e in log && e.at > cursor && e.op.site != exclude
  {
    if log != [] {
      PendingMember(log[..|log| - 1], cursor, exclude, e);
      assert log == log[..|log| - 1] + [log[|log| - 1]];
    }
  }

  lemma {:induction false} PendingSorted(log: seq<Entry>, cursor: int, exclude: string)
    requires forall i, j :: 0 <= i < j < |log| ==> log[i].at < log[j].at
    ensures var p := Pending(log, cursor, exclude);
            forall i, j :: 0 <= i < j < |p| ==> p[i].at < p[j].at
  {
    if log != [] {
      var init := log[..|log| - 1];
      PendingSorted(init, cursor, exclude);
      var p := Pending(init, cursor, exclude);
      forall i | 0 <= i < |p|
        ensures p[i].at < log[|log| - 1].at
      {
        PendingMember(init, cursor, exclude, p[i]);
        var k :| 0 <= k < |init| && init[k] == p[i];
        assert log[k].at < log[|log| - 1].at;
      }
    }
  }

  lemma {:induction false} PendingConcat(a: seq<Entry>, b: seq<Entry>, cursor: int, exclude: string)
    ensures Pending(a + b, cursor, exclude) == Pending(a, cursor, exclude) + Pending(b, cursor, exclude)
  {
    if b == [] {
      assert a + b == a;
    } else {
      PendingConcat(a, b[..|b| - 1], cursor, exclude);
      assert (a + b)[..|a + b| - 1] == a + b[..|b| - 1];
    }
  }

  lemma {:induction false} SweepMember(reg: Registry, log: seq<Entry>, wm: int, n: int, e: Entry)
    requires 0 <= n <= |log|
    ensures e in SweepTo(reg, log, wm, n) <==> exists i :: 0 <= i < n && log[i] == e && Keeps(reg, log, wm, i)
  {
    if n > 0 {
      SweepMember(reg, log, wm, n - 1, e);
      if Keeps(reg, log, wm, n - 1) && log[n - 1] == e {
        assert e in SweepTo(reg, log, wm, n);
      }
    }
  }

  ghost predicate Spaced(k: seq<Entry>, high: int) {
    && (forall i :: 0 <= i < |k| ==> 0 < k[i].at <= high)
    && (forall i, j :: 0 <= i < j < |k| ==> k[i].at < k[j].at)
    && (forall i, j :: 0 <= i < j < |k| ==> !SameId(k[i].op, k[j].op))
  }

  lemma SpacedSnoc(k: seq<Entry>, high: int, e: Entry)
    requires Spaced(k, high) && 0 < e.at <= high
    requires forall f :: f in k ==> f.at < e.at && !SameId(f.op, e.op)
    ensures Spaced(k + [e], high)
  {
  }

  lemma {:induction false} SweepSorted(reg: Registry, db: Db, wm: int, n: int)
    requires LogOk(db) && 0 <= n <= |db.log|
    ensures Spaced(SweepTo(reg, db.log, wm, n), db.lastSeq)
  {
    if n > 0 {
      SweepSorted(reg, db, wm, n - 1);
      var p := SweepTo(reg, db.log, wm, n - 1);
      forall f | f in p
        ensures f.at < db.log[n - 1].at && !SameId(f.op, db.log[n - 1].op)
      {
        SweepMember(reg, db.log, wm, n - 1, f);
      }
      SpacedSnoc(p, db.lastSeq, db.log[n - 1]);
      assert p + [] == p;
    }
  }

  lemma CompactKeepsLogOk(reg: Registry, db: Db, wm: int)
    requires LogOk(db)
    ensures LogOk(Compact(reg, db, wm))
    ensures forall e :: e in Compact(reg, db, wm).log ==> e in db.log
  {
    SweepSorted(reg, db, wm, |db.log|);
    forall e | e in Sweep(reg, db.log, wm)
      ensures e in db.log
    {
      SweepMember(reg, db.log, wm, |db.log|, e);
    }
  }
}
