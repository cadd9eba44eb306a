/**
 The stateful store. Each method is one transaction: it works on the tables step by step and is
 proved to take the database exactly where the function of the same name in SyncState takes it.
 */
module SyncStore {
  import opened Basics
  import opened Text
  import opened Ops
  import opened Reconcile
  import opened SyncState
  import Convergence

  /** The LWW rule on one mirror row. None: the op would win but a value has the wrong type. */
  method MergeRow(reg: Registry, mirror: Table, n: Op) returns (r: Option<Table>, changed: bool)
    ensures r.None? <==> Beats(mirror, n) && !WellTyped(reg, n)
    ensures r.Some? ==> r.value == MergeInto(reg, mirror, n)
    ensures changed <==> Beats(mirror, n) && WellTyped(reg, n)
  {
    if RowOf(n) in mirror {
      var stored := mirror[RowOf(n)];
      if !Less(stored, n) {
        return Some(mirror), false;
      }
    }
    if !WellTyped(reg, n) {
      return None, false;
    }
    return Some(mirror[RowOf(n) := Normalize(reg, n)]), true;
  }

  /** What a device is handed for a stored op: the op itself, with the columns it lacks filled from the defaults of its table. */
  ghost predicate Relayed(reg: Registry, stored: Op, op: Op) {
    && op.table == stored.table && op.pk == stored.pk && op.site == stored.site && op.opSeq == stored.opSeq && op.ts == stored.ts
    && (forall c :: c in stored.cols ==> c in op.cols && op.cols[c] == stored.cols[c])
    && (forall c :: c in op.cols && c !in stored.cols ==>
          stored.table in reg.defaults && c in reg.defaults[stored.table] && op.cols[c] == reg.defaults[stored.table][c])
    && (stored.table in reg.defaults ==> forall c :: c in reg.defaults[stored.table] ==> c in op.cols)
  }

  /** One op handed out for every entry, in order. */
  ghost predicate Answers(reg: Registry, es: seq<Entry>, ops: seq<Op>) {
    |ops| == |es| && forall i :: 0 <= i < |es| ==> Relayed(reg, es[i].op, ops[i])
  }

  /** What a device merges, op by op. */
  function MergeOps(reg: Registry, m: Table, ops: seq<Op>): Table {
    if ops == [] then m else MergeInto(reg, MergeOps(reg, m, ops[..|ops| - 1]), ops[|ops| - 1])
  }

  lemma RelayedIff(reg: Registry, stored: Op, op: Op)
    ensures Relayed(reg, stored, op) <==> op == Complete(reg, stored)
  {
    if Relayed(reg, stored, op) {
      assert op.cols == Complete(reg, stored).cols;
    }
  }

  lemma AnswersSnoc(reg: Registry, es: seq<Entry>, ops: seq<Op>, e: Entry, op: Op)
    requires Answers(reg, es, ops) && op == Complete(reg, e.op)
    ensures Answers(reg, es + [e], ops + [op])
  {
    RelayedIff(reg, e.op, op);
  }

  lemma AnswersUnique(reg: Registry, es: seq<Entry>, a: seq<Op>, b: seq<Op>)
    requires Answers(reg, es, a) && Answers(reg, es, b)
    ensures a == b
  {
    forall i | 0 <= i < |es|
      ensures a[i] == b[i]
    {
      RelayedIff(reg, es[i].op, a[i]);
      RelayedIff(reg, es[i].op, b[i]);
    }
  }

  /** A replica that merges what it was handed ends where merging the entries of the page ends. */
  lemma {:induction false} MergeAnswer(reg: Registry, m: Table, es: seq<Entry>, ops: seq<Op>)
    requires Answers(reg, es, ops)
    ensures MergeOps(reg, m, ops) == Convergence.MergeEntries(reg, m, es)
  {
    if es != [] {
      MergeAnswer(reg, m, es[..|es| - 1], ops[..|ops| - 1]);
      RelayedIff(reg, es[|es| - 1].op, ops[|ops| - 1]);
    }
  }

  /** One pending entry beyond those collected makes them a proper prefix of what is pending. */
  lemma FullPage(log: seq<Entry>, k: int, cursor: int, exclude: string, got: seq<Entry>)
    requires 0 <= k < |log| && got == Pending(log[..k], cursor, exclude)
    requires log[k].at > cursor && log[k].op.site != exclude
    ensures |Pending(log, cursor, exclude)| > |got| && Pending(log, cursor, exclude)[..|got|] == got
  {
    assert log[..k + 1][..k] == log[..k];
    assert log == log[..k + 1] + log[k + 1..];
    PendingConcat(log[..k + 1], log[k + 1..], cursor, exclude);
    assert Pending(log[..k + 1], cursor, exclude) == got + [log[k]];
  }

  /** The answer to a pull: the first pending entries, as many as the limit allows, the place of the last one and whether there are more. */
  ghost predicate Handed(reg: Registry, pending: seq<Entry>, cursor: int, limit: int, ops: seq<Op>, newCursor: int, hasMore: bool) {
    && |ops| == (if |pending| <= limit then |pending| else limit)
    && Answers(reg, pending[..|ops|], ops)
    && newCursor == (if |ops| == 0 then cursor else pending[|ops| - 1].at)
    && (hasMore <==> |pending| > limit)
  }

  lemma PageForm(reg: Registry, log: seq<Entry>, cursor: int, exclude: string, limit: int, ops: seq<Op>, newCursor: int, hasMore: bool)
    requires Handed(reg, Pending(log, cursor, exclude), cursor, if limit <= 0 then 500 else limit, ops, newCursor, hasMore)
    ensures var page := PageOf(log, cursor, exclude, limit);
            Answers(reg, page.entries, ops) && newCursor == page.cursor && hasMore == page.hasMore
  {
    var p := Pending(log, cursor, exclude);
    assert p[..|p|] == p;
  }

  datatype Limits = Limits(maxOps: int, targetBytes: int, maxRow: int, maxBody: int) {
    predicate Ok() {
      1 <= maxOps <= 500 && 256 <= maxBody <= 0x100_0000 && 1 <= targetBytes <= maxBody && 1 <= maxRow <= 0x80_0000
    }
  }

  /** Encoded sizes: an op as the device sent it, a row to send, the answer without rows, the whole answer. */
  datatype Sizes = Sizes(incoming: Op -> nat,
                         row: Op -> nat,
                         envelope: (int, seq<Rejection>, int) -> nat,
                         body: (int, seq<Rejection>, seq<Op>, int, bool) -> nat)

  predicate RowsFit(ops: seq<Op>, limits: Limits, sizes: Sizes) {
    forall op :: op in ops ==> sizes.incoming(op) <= limits.maxRow
  }

  datatype Exchange = Refusal | Reply(accepted: int, rejected: seq<Rejection>, ops: seq<Op>, cursor: int, hasMore: bool)

  /** One answer to fill: the pending rows, what goes around them, and the limits. */
  datatype Packing = Packing(reg: Registry, rows: seq<Entry>, cursor: int, accepted: int, rejected: seq<Rejection>,
                             limits: Limits, sizes: Sizes)
  {
    function Size(j: nat): nat
      requires j < |rows|
    {
      sizes.row(Complete(reg, rows[j].op))
    }

    function Envelope(j: nat): nat
      requires j < |rows|
    {
      sizes.envelope(accepted, rejected, rows[j].at)
    }

    /** The bytes of the first j rows and the commas between them. */
    function Used(j: nat): nat
      requires j <= |rows|
    {
      if j == 0 then 0 else Used(j - 1) + Size(j - 1) + if j > 1 then 1 else 0
    }

    predicate TooLarge(j: nat)
      requires j < |rows|
    {
      Size(j) > limits.maxRow || Size(j) + Envelope(j) > limits.maxBody
    }

    /** Row j does not go into an answer that holds the rows before it. */
    predicate Stops(j: nat)
      requires j < |rows|
    {
      j >= limits.maxOps || TooLarge(j)
      || (j > 0 && (Envelope(j) + Used(j) + 1 + Size(j) > limits.targetBytes || Envelope(j) + Used(j) + 1 + Size(j) > limits.maxBody))
    }

    /** The answer carries the pending rows up to the first that does not go into it. */
    ghost predicate Packs(r: Exchange) {
      && r.Reply? && r.accepted == accepted && r.rejected == rejected
      && |r.ops| <= |rows| && Answers(reg, rows[..|r.ops|], r.ops)
      && (forall j :: 0 <= j < |r.ops| ==> !Stops(j)) && (|r.ops| < |rows| ==> Stops(|r.ops|))
      && r.cursor == (if r.ops == [] then cursor else rows[|r.ops| - 1].at)
      && (r.hasMore <==> |r.ops| < |rows|)
    }

    /** The first k rows have gone into the answer. */
    ghost predicate Holds(k: nat, page: seq<Op>, bytes: int, newCursor: int) {
      && k <= |rows| && Answers(reg, rows[..k], page) && bytes == Used(k)
      && (forall j :: 0 <= j < k ==> !Stops(j))
      && newCursor == if k == 0 then cursor else rows[k - 1].at
    }

    /** No answer can be filled: it is too large without any row, or the first row is too large for it. */
    predicate Stuck() {
      sizes.envelope(accepted, rejected, cursor) > limits.maxBody || (rows != [] && TooLarge(0))
    }
  }

  lemma HoldsMore(p: Packing, k: nat, page: seq<Op>, bytes: int, newCursor: int, op: Op)
    requires p.Holds(k, page, bytes, newCursor) && k < |p.rows| && !p.Stops(k) && op == Complete(p.reg, p.rows[k].op)
    ensures p.Holds(k + 1, page + [op], bytes + (if k > 0 then 1 else 0) + p.Size(k), p.rows[k].at)
  {
    AnswersSnoc(p.reg, p.rows[..k], page, p.rows[k], op);
    assert p.rows[..k + 1] == p.rows[..k] + [p.rows[k]];
  }

  lemma HoldsAll(p: Packing, k: nat, page: seq<Op>, bytes: int, newCursor: int)
    requires p.Holds(k, page, bytes, newCursor) && (k < |p.rows| ==> p.Stops(k))
    ensures p.Packs(Reply(p.accepted, p.rejected, page, newCursor, k < |p.rows|))
  {
  }

  lemma PacksUnique(p: Packing, a: Exchange, b: Exchange)
    requires p.Packs(a) && p.Packs(b)
    ensures a == b
  {
    assert |a.ops| == |b.ops|;
    AnswersUnique(p.reg, p.rows[..|a.ops|], a.ops, b.ops);
  }

  /** The answer to a push and pull, before any limit on its size. */
  function Answering(reg: Registry, db: Db, siteId: string, cursor: int, ops: seq<Op>, limits: Limits, sizes: Sizes, now: int): Packing {
    Packing(reg, Pending(SyncState.ApplyBatch(reg, db, siteId, ops, now).log, cursor, siteId), cursor,
            Accepted(reg, db, siteId, ops), RejectAll(reg, db, ops), limits, sizes)
  }

  /** The encoded answer, with the rows that go into it, is still too large. */
  ghost predicate Overflows(p: Packing) {
    exists x :: p.Packs(x) && p.sizes.body(x.accepted, x.rejected, x.ops, x.cursor, x.hasMore) > p.limits.maxBody
  }

  lemma OverflowsIff(p: Packing, r: Exchange)
    requires p.Packs(r)
    ensures Overflows(p) <==> p.sizes.body(r.accepted, r.rejected, r.ops, r.cursor, r.hasMore) > p.limits.maxBody
  {
    if x :| p.Packs(x) && p.sizes.body(x.accepted, x.rejected, x.ops, x.cursor, x.hasMore) > p.limits.maxBody {
      PacksUnique(p, x, r);
    }
  }

  /** A request that is refused whatever the database holds. */
  ghost predicate OutOfLimits(ops: seq<Op>, limits: Limits, sizes: Sizes) {
    || limits.maxOps < 1 || limits.maxOps > 500
    || limits.maxBody < 256 || limits.maxBody > 16 * 1024 * 1024
    || limits.targetBytes < 1 || limits.targetBytes > limits.maxBody
    || limits.maxRow < 1 || limits.maxRow > 8 * 1024 * 1024
    || |ops| > limits.maxOps
    || exists i :: 0 <= i < |ops| && sizes.incoming(ops[i]) > limits.maxRow
  }

  /** What a bounded reply may contain: a prefix of what is pending, non-empty if anything is. */
  ghost predicate BoundedPage(reg: Registry, log: seq<Entry>, cursor: int, site: string, maxOps: int, r: Exchange) {
    && r.Reply?
    && var p := Pending(log, cursor, site);
    && |r.ops| <= |p| && |r.ops| <= maxOps && Answers(reg, p[..|r.ops|], r.ops)
    && r.cursor == (if r.ops == [] then cursor else p[|r.ops| - 1].at)
    && (r.hasMore <==> |r.ops| < |p|)
    && (r.ops == [] ==> p == [])
  }

  lemma PacksBounded(p: Packing, log: seq<Entry>, site: string, r: Exchange)
    requires p.rows == Pending(log, p.cursor, site) && p.limits.Ok() && !p.Stuck() && p.Packs(r)
    ensures BoundedPage(p.reg, log, p.cursor, site, p.limits.maxOps, r)
  {
    if r.ops != [] {
      assert !p.Stops(|r.ops| - 1);
    }
  }

  /** A bounded reply is a relay page with as many ops as limit. */
  lemma BoundedIsPage(reg: Registry, log: seq<Entry>, cursor: int, site: string, maxOps: int, r: Exchange) returns (limit: int)
    requires BoundedPage(reg, log, cursor, site, maxOps, r)
    ensures limit > 0
    ensures var page := PageOf(log, cursor, site, limit);
            Answers(reg, page.entries, r.ops) && r.cursor == page.cursor && r.hasMore == page.hasMore
  {
    var p := Pending(log, cursor, site);
    limit := if r.ops == [] then 1 else |r.ops|;
    assert p[..|p|] == p;
  }

  /** So a bounded exchange is a send followed by a pull, and every theorem on runs of moves covers it. */
  lemma ExchangeIsSendThenPull(reg: Registry, w: Convergence.World, d: string, ops: seq<Op>, name: string, now: int, maxOps: int, r: Exchange)
    returns (limit: int)
    requires Convergence.Enabled(w, Convergence.Send(d, ops, now))
    requires BoundedPage(reg, SyncState.ApplyBatch(reg, w.srv.db, d, ops, now).log, w.devs[d].cursor, d, maxOps, r)
    ensures var w1 := Convergence.NextWorld(reg, w, Convergence.Send(d, ops, now));
            var w2 := Convergence.NextWorld(reg, w1, Convergence.Pull(d, limit, name, now));
            var page := PageOf(w1.srv.db.log, w1.devs[d].cursor, d, limit);
            && w2.srv.db == SyncState.RecordCursor(SyncState.ApplyBatch(reg, w.srv.db, d, ops, now), d, r.cursor, name, now)
            && w2.devs[d].cursor == r.cursor && Answers(reg, page.entries, r.ops)
            && w2.devs[d].replica == MergeOps(reg, w.devs[d].replica, r.ops)
  {
    var pushed := SyncState.ApplyBatch(reg, w.srv.db, d, ops, now);
    limit := BoundedIsPage(reg, pushed.log, w.devs[d].cursor, d, maxOps, r);
    MergeAnswer(reg, w.devs[d].replica, PageOf(pushed.log, w.devs[d].cursor, d, limit).entries, r.ops);
  }

  lemma {:induction false} AuthorPrefixFails(reg: Registry, db: Db, ops: seq<Op>, now: int, i: int)
    requires 0 <= i <= |ops| && AuthorAll(reg, db, ops[..i], now).None?
    ensures AuthorAll(reg, db, ops, now).None?
  {
    if i == |ops| {
      assert ops[..i] == ops;
    } else {
      assert ops[..|ops| - 1][..i] == ops[..i];
      AuthorPrefixFails(reg, db, ops[..|ops| - 1], now, i);
    }
  }

  /** Stamp, validate, merge and append one authored op inside a transaction. */
  method AuthorOp(reg: Registry, tx: Db, authored: Op, now: int) returns (r: Option<Db>)
    ensures r == AuthorOne(reg, tx, authored, now)
  {
    var op := Complete(reg, authored);
    op := op.(site := tx.site, opSeq := tx.siteOpSeq + 1, ts := LocalEvent(tx.lastHlc, now));
    if Validate(reg, op).Some? {
      return None;
    }
    var merged, changed := MergeRow(reg, tx.mirror, op);
    if merged.None? || Logged(tx.log, op.site, op.opSeq) {
      return None;
    }
    var seqNo := tx.lastSeq + 1;
    return Some(tx.(mirror := merged.value, siteOpSeq := op.opSeq, lastHlc := op.ts,
                    lastSeq := seqNo, log := tx.log + [Entry(seqNo, op)]));
  }

  /** Entry i is the winner of its row among the first n entries. */
  ghost predicate WinnerAmong(log: seq<Entry>, n: int, i: int)
    requires 0 <= n <= |log|
  {
    0 <= i < n && LogWinner(log[..n], i)
  }

  /** The index map built so far: for each row seen, the index of its first greatest entry. */
  ghost predicate Indexed(log: seq<Entry>, n: int, idx: map<Row, int>)
    requires 0 <= n <= |log|
  {
    && (forall r :: r in idx ==> WinnerAmong(log, n, idx[r]) && RowOf(log[idx[r]].op) == r)
    && (forall j :: 0 <= j < n ==> RowOf(log[j].op) in idx)
  }

  lemma IndexStep(log: seq<Entry>, n: int, idx: map<Row, int>, idx': map<Row, int>)
    requires 0 <= n < |log| && Indexed(log, n, idx)
    requires var k := RowOf(log[n].op);
             idx' == if k !in idx || Less(log[idx[k]].op, log[n].op) then idx[k := n] else idx
    ensures Indexed(log, n + 1, idx')
  {
    var k := RowOf(log[n].op);
    forall r | r in idx'
      ensures WinnerAmong(log, n + 1, idx'[r]) && RowOf(log[idx'[r]].op) == r
    {
      if idx'[r] == n {
        NewWinner(log, n, idx);
      }
    }
  }

  lemma NewWinner(log: seq<Entry>, n: int, idx: map<Row, int>)
    requires 0 <= n < |log| && Indexed(log, n, idx)
    requires var k := RowOf(log[n].op); k !in idx || Less(log[idx[k]].op, log[n].op)
    ensures WinnerAmong(log, n + 1, n)
  {
    var k := RowOf(log[n].op);
    var l := log[..n + 1];
    LessIrreflexive(log[n].op, log[n].op);
    forall j | 0 <= j < n && RowOf(l[j].op) == k
      ensures Less(l[j].op, l[n].op) && !Less(l[n].op, l[j].op)
    {
      var w := log[idx[k]].op;
      assert log[..n][j] == log[j] && log[..n][idx[k]].op == w;
      assert !Less(w, log[j].op);
      if !Less(log[j].op, log[n].op) {
        LeqTransitive(log[n].op, log[j].op, w);
        assert false;
      }
      LessAsymmetric(log[j].op, log[n].op);
    }
  }

  lemma IndexedWinner(log: seq<Entry>, idx: map<Row, int>, i: int)
    requires Indexed(log, |log|, idx) && 0 <= i < |log|
    ensures RowOf(log[i].op) in idx
    ensures idx[RowOf(log[i].op)] == i <==> LogWinner(log, i)
  {
    assert log[..|log|] == log;
    assert WinnerAmong(log, |log|, idx[RowOf(log[i].op)]);
  }

  /** The index of the winning entry of every row. */
  method WinnerIndex(entries: seq<Entry>) returns (winnerIdx: map<Row, int>)
    ensures Indexed(entries, |entries|, winnerIdx)
  {
    winnerIdx := map[];
    for i := 0 to |entries|
      invariant Indexed(entries, i, winnerIdx)
    {
      var k := RowOf(entries[i].op);
      ghost var before := winnerIdx;
      if k !in winnerIdx || Less(entries[winnerIdx[k]].op, entries[i].op) {
        winnerIdx := winnerIdx[k := i];
      }
      IndexStep(entries, i, before, winnerIdx);
    }
  }

  /** The entries that lose to another entry of their row, by index. */
  ghost function Losers(log: seq<Entry>): set<int> {
    set i | 0 <= i < |log| && !LogWinner(log, i)
  }

  /** The winning deletes at or below the watermark, by index. */
  ghost function OldDeletes(reg: Registry, log: seq<Entry>, watermark: int): set<int> {
    set i | 0 <= i < |log| && LogWinner(log, i) && Tombstone(reg, log[i].op) && log[i].at <= watermark
  }

  /** Which entries a pass counts as superseded, and which as purged, by the index map. */
  ghost predicate Flags(reg: Registry, log: seq<Entry>, watermark: int, idx: map<Row, int>, lost: seq<bool>, purged: seq<bool>) {
    && |lost| == |purged| == |log|
    && (forall i :: 0 <= i < |log| ==> RowOf(log[i].op) in idx)
    && (forall i :: 0 <= i < |log| ==> lost[i] == (idx[RowOf(log[i].op)] != i))
    && (forall i :: 0 <= i < |log| ==> purged[i] == (idx[RowOf(log[i].op)] == i && Tombstone(reg, log[i].op) && log[i].at <= watermark))
  }

  lemma FlagsOf(reg: Registry, log: seq<Entry>, watermark: int, idx: map<Row, int>) returns (lost: seq<bool>, purged: seq<bool>)
    requires Indexed(log, |log|, idx)
    ensures Flags(reg, log, watermark, idx, lost, purged)
    ensures forall i :: 0 <= i < |log| ==> (Keeps(reg, log, watermark, i) <==> !lost[i] && !purged[i])
    ensures Count(lost, |log|) == |Losers(log)| && Count(purged, |log|) == |OldDeletes(reg, log, watermark)|
  {
    lost := seq(|log|, i requires 0 <= i < |log| => idx[RowOf(log[i].op)] != i);
    purged := seq(|log|, i requires 0 <= i < |log| => idx[RowOf(log[i].op)] == i && Tombstone(reg, log[i].op) && log[i].at <= watermark);
    forall i | 0 <= i < |log|
      ensures lost[i] <==> i in Losers(log)
      ensures purged[i] <==> i in OldDeletes(reg, log, watermark)
      ensures Keeps(reg, log, watermark, i) <==> !lost[i] && !purged[i]
    {
      IndexedWinner(log, idx, i);
    }
    CountPlaces(lost, |log|);
    CountPlaces(purged, |log|);
    assert (set i | 0 <= i < |log| && lost[i]) == Losers(log);
    assert (set i | 0 <= i < |log| && purged[i]) == OldDeletes(reg, log, watermark);
  }

  /** The entries among the first n that are neither. */
  ghost function Left(log: seq<Entry>, lost: seq<bool>, purged: seq<bool>, n: int): seq<Entry>
    requires 0 <= n <= |log| == |lost| == |purged|
  {
    if n == 0 then []
    else Left(log, lost, purged, n - 1) + if lost[n - 1] || purged[n - 1] then [] else [log[n - 1]]
  }

  lemma {:induction false} LeftIsSweep(reg: Registry, log: seq<Entry>, watermark: int, lost: seq<bool>, purged: seq<bool>, n: int)
    requires 0 <= n <= |log| == |lost| == |purged|
    requires forall i :: 0 <= i < |log| ==> (Keeps(reg, log, watermark, i) <==> !lost[i] && !purged[i])
    ensures Left(log, lost, purged, n) == SweepTo(reg, log, watermark, n)
  {
    if n > 0 {
      LeftIsSweep(reg, log, watermark, lost, purged, n - 1);
    }
  }

  /** The second pass over the entries, by the index map. */
  method SweepBy(reg: Registry, entries: seq<Entry>, watermark: int, winnerIdx: map<Row, int>, ghost lost: seq<bool>, ghost gone: seq<bool>)
    returns (kept: seq<Entry>, collapsed: int, purged: int)
    requires Flags(reg, entries, watermark, winnerIdx, lost, gone)
    ensures kept == Left(entries, lost, gone, |entries|)
    ensures collapsed == Count(lost, |entries|) && purged == Count(gone, |entries|)
    ensures collapsed + purged + |kept| == |entries|
  {
    kept, collapsed, purged := [], 0, 0;
    for i := 0 to |entries|
      invariant kept == Left(entries, lost, gone, i)
      invariant collapsed == Count(lost, i) && purged == Count(gone, i) && collapsed + purged + |kept| == i
    {
      var e := entries[i];
      if winnerIdx[RowOf(e.op)] != i {
        collapsed := collapsed + 1;
      } else if Tombstone(reg, e.op) && e.at <= watermark {
        purged := purged + 1;
      } else {
        kept := kept + [e];
      }
    }
  }

  /** Keep each row's winner at its own sequence number, except old tombstones; count what goes. */
  method SweepLog(reg: Registry, entries: seq<Entry>, watermark: int)
    returns (kept: seq<Entry>, collapsed: int, purged: int)
    ensures kept == Sweep(reg, entries, watermark)
    ensures collapsed == |Losers(entries)| && purged == |OldDeletes(reg, entries, watermark)|
    ensures collapsed + purged + |kept| == |entries|
    ensures collapsed == 0 && purged == 0 ==> kept == entries
  {
    var winnerIdx := WinnerIndex(entries);
    ghost var lost, gone := FlagsOf(reg, entries, watermark, winnerIdx);
    kept, collapsed, purged := SweepBy(reg, entries, watermark, winnerIdx, lost, gone);
    LeftIsSweep(reg, entries, watermark, lost, gone, |entries|);
    SweepWhole(reg, entries, watermark, |entries|);
    assert entries[..|entries|] == entries;
  }

  /** A pass that drops nothing leaves the entries as they are. */
  lemma {:induction false} SweepWhole(reg: Registry, log: seq<Entry>, wm: int, n: nat)
    requires n <= |log|
    ensures |SweepTo(reg, log, wm, n)| <= n && (|SweepTo(reg, log, wm, n)| == n ==> SweepTo(reg, log, wm, n) == log[..n])
  {
    if n > 0 {
      SweepWhole(reg, log, wm, n - 1);
      assert log[..n] == log[..n - 1] + [log[n - 1]];
    }
  }

  lemma RefusedConcat(a: seq<Rejection>, b: seq<Rejection>, site: string)
    ensures RefusedSeqs(a + b, site) == RefusedSeqs(a, site) + RefusedSeqs(b, site)
  {
  }

  /** Only one row of a cursor table changed. */
  ghost predicate OneRow(before: map<string, Cursor>, after: map<string, Cursor>, s: string) {
    after.Keys == before.Keys + {s} && forall x :: x in before && x != s ==> after[x] == before[x]
  }

  /** The row after a push: the new high-water and the time, with what is known of pulls and name kept. */
  ghost predicate Acked(before: map<string, Cursor>, c: Cursor, s: string, acked: int, now: int) {
    && c.acked == acked && c.updatedAt == now
    && (if s in before then c.lastPull == before[s].lastPull && c.name == before[s].name else c.lastPull == 0 && c.name == "")
  }

  /** The row after a pull: the pull's end and the time, with the high-water kept and a name kept unless a new one came. */
  ghost predicate Pulled(before: map<string, Cursor>, c: Cursor, s: string, lastPull: int, name: string, now: int) {
    && c.lastPull == lastPull && c.updatedAt == now
    && (if s in before then c.acked == before[s].acked && c.name == (if name == "" then before[s].name else name)
        else c.acked == 0 && c.name == name)
  }

  /** The least pull over the active devices seen so far, if there are any. */
  ghost predicate LeastSoFar(cursors: map<string, Cursor>, seen: set<string>, now: int, horizon: int, have: bool, least: string, wm: int) {
    && (have ==> least in cursors && !Stale(cursors[least], now, horizon) && cursors[least].lastPull == wm)
    && (forall s :: s in seen && s in cursors && !Stale(cursors[s], now, horizon) ==> have && wm <= cursors[s].lastPull)
  }

  lemma LeastStep(cursors: map<string, Cursor>, seen: set<string>, now: int, horizon: int, have: bool, least: string, wm: int, s: string)
    requires s in cursors && LeastSoFar(cursors, seen, now, horizon, have, least, wm)
    ensures if !Stale(cursors[s], now, horizon) && (!have || cursors[s].lastPull < wm)
            then LeastSoFar(cursors, seen + {s}, now, horizon, true, s, cursors[s].lastPull)
            else LeastSoFar(cursors, seen + {s}, now, horizon, have, least, wm)
  {
  }

  class Store {
    const reg: Registry
    const site: string
    var log: seq<Entry>
    var lastSeq: int
    var mirror: Table
    var cursors: map<string, Cursor>
    var siteOpSeq: int
    var lastHlc: int

    constructor (reg: Registry, site: string)
      ensures this.reg == reg && this.site == site && Snapshot() == Fresh(site)
      ensures log == [] && lastSeq == 0 && mirror == map[] && cursors == map[] && siteOpSeq == 0 && lastHlc == 0
    {
      this.reg, this.site := reg, site;
      log, lastSeq, mirror, cursors, siteOpSeq, lastHlc := [], 0, map[], map[], 0, 0;
    }

    function Snapshot(): Db
      reads this
    {
      Db(log, lastSeq, mirror, cursors, site, siteOpSeq, lastHlc)
    }

    method AppendOp(op: Op)
      modifies this`log, this`lastSeq
      ensures Snapshot() == SyncState.AppendOp(old(Snapshot()), op)
      ensures log == old(log) + [Entry(old(lastSeq) + 1, op)] && lastSeq == old(lastSeq) + 1
    {
      lastSeq := lastSeq + 1;
      log := log + [Entry(lastSeq, op)];
    }

    /** The walk over settled op_seqs, and the row that remembers where it stopped. */
    method AdvanceAccepted(siteId: string, acked: int, rejectedSeqs: set<int>, now: int) returns (h: int)
      modifies this`cursors
      ensures h == Advance(rejectedSeqs + LoggedSeqs(log, siteId), acked)
      ensures Snapshot() == old(Snapshot()).(cursors := old(cursors)[siteId := AckedCursor(old(Snapshot()), siteId, h, now)])
      ensures OneRow(old(cursors), cursors, siteId) && Acked(old(cursors), cursors[siteId], siteId, h, now)
    {
      h := acked;
      ghost var settled := rejectedSeqs + LoggedSeqs(log, siteId);
      while h + 1 in rejectedSeqs || Logged(log, siteId, h + 1)
        invariant acked <= h && Advance(settled, acked) == Advance(settled, h)
        invariant cursors == old(cursors)
        decreases |set n | n in settled && n > h|
      {
        var next := h + 1;
        assert next in settled;
        ghost var above := set n | n in settled && n > next;
        assert (set n | n in settled && n > h) == above + {next} && next !in above;
        h := next;
      }
      assert h + 1 !in settled;
      if siteId in cursors {
        cursors := cursors[siteId := cursors[siteId].(acked := h, updatedAt := now)];
      } else {
        cursors := cursors[siteId := Cursor(0, h, now, "")];
      }
    }

    /** One incoming op: validate, deduplicate, merge, append; or say why it is refused. */
    method AdmitOp(incoming: Op) returns (refusal: seq<Rejection>)
      modifies this`log, this`lastSeq, this`mirror
      ensures Snapshot() == Admit(reg, old(Snapshot()), incoming)
      ensures refusal == RejectionOf(reg, old(Snapshot()), incoming)
    {
      var op := Complete(reg, incoming);
      var reason := Validate(reg, op);
      if reason.Some? {
        return [Rejection(op.site, op.opSeq, reason.value)];
      }
      if Logged(log, op.site, op.opSeq) {
        return [];
      }
      var merged, changed := MergeRow(reg, mirror, op);
      if merged.None? {
        return [Rejection(op.site, op.opSeq, BadType)];
      }
      mirror := merged.value;
      AppendOp(op);
      return [];
    }

    method ApplyBatch(siteId: string, ops: seq<Op>, now: int) returns (accepted: int, rejected: seq<Rejection>)
      modifies this
      ensures Snapshot() == SyncState.ApplyBatch(reg, old(Snapshot()), siteId, ops, now)
      ensures accepted == Accepted(reg, old(Snapshot()), siteId, ops)
      ensures rejected == RejectAll(reg, old(Snapshot()), ops)
      ensures OneRow(old(cursors), cursors, siteId) && Acked(old(cursors), cursors[siteId], siteId, accepted, now)
      ensures siteOpSeq == old(siteOpSeq)
    {
      AdmitAllFrame(reg, Snapshot(), ops);
      var acked;
      if siteId in cursors {
        acked := cursors[siteId].acked;
      } else {
        acked := MaxOpSeq(log, siteId);
      }
      var rejectedSeqs, maxIncoming;
      rejected, rejectedSeqs, maxIncoming := AdmitOps(siteId, ops);
      accepted := AdvanceAccepted(siteId, acked, rejectedSeqs, now);
      lastHlc := ReceiveEvent(lastHlc, now, maxIncoming);
    }

    /** Every op of the batch in turn, with what it leaves to report. */
    method AdmitOps(siteId: string, ops: seq<Op>) returns (rejected: seq<Rejection>, rejectedSeqs: set<int>, maxIncoming: int)
      modifies this`log, this`lastSeq, this`mirror
      ensures Snapshot() == AdmitAll(reg, old(Snapshot()), ops)
      ensures rejected == RejectAll(reg, old(Snapshot()), ops) && rejectedSeqs == RefusedSeqs(rejected, siteId)
      ensures maxIncoming == MaxTs(ops)
    {
      ghost var db0 := Snapshot();
      rejected, rejectedSeqs, maxIncoming := [], {}, 0;
      for i := 0 to |ops|
        invariant Snapshot() == AdmitAll(reg, db0, ops[..i]) && rejected == RejectAll(reg, db0, ops[..i])
        invariant rejectedSeqs == RefusedSeqs(rejected, siteId) && maxIncoming == MaxTs(ops[..i])
      {
        assert ops[..i + 1][..i] == ops[..i];
        var op := ops[i];
        if op.ts > maxIncoming {
          maxIncoming := op.ts;
        }
        var refusal := AdmitOp(op);
        RefusedConcat(rejected, refusal, siteId);
        rejected := rejected + refusal;
        rejectedSeqs := rejectedSeqs + RefusedSeqs(refusal, siteId);
      }
      assert ops[..|ops|] == ops;
    }

    /** All or nothing: a refused op leaves every table as it was. */
    method AuthorOps(ops: seq<Op>, now: int) returns (ok: bool)
      modifies this
      ensures ok <==> AuthorAll(reg, old(Snapshot()), ops, now).Some?
      ensures ok ==> Snapshot() == AuthorAll(reg, old(Snapshot()), ops, now).value
      ensures !ok ==> Snapshot() == old(Snapshot())
    {
      if |ops| == 0 {
        return true;
      }
      ghost var db0 := Snapshot();
      var tx := Snapshot();
      for i := 0 to |ops|
        invariant Snapshot() == db0
        invariant AuthorAll(reg, db0, ops[..i], now) == Some(tx)
      {
        assert ops[..i + 1][..i] == ops[..i];
        var next := AuthorOp(reg, tx, ops[i], now);
        if next.None? {
          AuthorPrefixFails(reg, db0, ops, now, i + 1);
          return false;
        }
        tx := next.value;
      }
      assert ops[..|ops|] == ops;
      AuthorAllFrame(reg, db0, ops, now);
      log, lastSeq, mirror, siteOpSeq, lastHlc := tx.log, tx.lastSeq, tx.mirror, tx.siteOpSeq, tx.lastHlc;
      ok := true;
    }

    method OpsSince(cursor: int, excludeSite: string, limit: int) returns (ops: seq<Op>, newCursor: int, hasMore: bool)
      ensures Handed(reg, Pending(log, cursor, excludeSite), cursor, if limit <= 0 then 500 else limit, ops, newCursor, hasMore)
      ensures var page := PageOf(log, cursor, excludeSite, limit);
              Answers(reg, page.entries, ops) && newCursor == page.cursor && hasMore == page.hasMore
    {
      var lim := if limit <= 0 then DEFAULT_LIMIT else limit;
      ops, newCursor, hasMore := [], cursor, false;
      ghost var got: seq<Entry> := [];
      for k := 0 to |log|
        invariant got == Pending(log[..k], cursor, excludeSite) && |got| <= lim
        invariant Answers(reg, got, ops) && !hasMore
        invariant newCursor == if got == [] then cursor else got[|got| - 1].at
      {
        assert log[..k + 1][..k] == log[..k];
        var e := log[k];
        if e.at > cursor && e.op.site != excludeSite {
          if |ops| == lim {
            hasMore := true;
            FullPage(log, k, cursor, excludeSite, got);
            PageForm(reg, log, cursor, excludeSite, limit, ops, newCursor, hasMore);
            return;
          }
          AnswersSnoc(reg, got, ops, e, Complete(reg, e.op));
          got := got + [e];
          ops := ops + [Complete(reg, e.op)];
          newCursor := e.at;
        }
      }
      assert log[..|log|] == log && got[..|got|] == got;
      PageForm(reg, log, cursor, excludeSite, limit, ops, newCursor, hasMore);
    }

    method RecordCursor(siteId: string, lastPull: int, name: string, now: int)
      modifies this`cursors
      ensures Snapshot() == SyncState.RecordCursor(old(Snapshot()), siteId, lastPull, name, now)
      ensures OneRow(old(cursors), cursors, siteId) && Pulled(old(cursors), cursors[siteId], siteId, lastPull, name, now)
    {
      if siteId in cursors {
        var c := cursors[siteId];
        var shown := if name != "" then name else c.name;
        cursors := cursors[siteId := c.(lastPull := lastPull, updatedAt := now, name := shown)];
      } else {
        cursors := cursors[siteId := Cursor(lastPull, 0, now, name)];
      }
    }

    method DeleteDevice(siteId: string) returns (found: bool)
      modifies this`cursors
      ensures Snapshot() == SyncState.DeleteDevice(old(Snapshot()), siteId)
      ensures siteId !in cursors && forall s :: s != siteId ==> (s in cursors <==> s in old(cursors)) && (s in cursors ==> cursors[s] == old(cursors)[s])
      ensures found <==> siteId in old(cursors)
    {
      found := siteId in cursors;
      cursors := cursors - {siteId};
    }

    /** The purge watermark and the sorted ids of the devices evicted from it, whatever order the rows come in. */
    method ComputeWatermark(now: int, horizon: int) returns (wm: int, evicted: seq<string>)
      ensures IsWatermark(cursors, now, horizon, wm)
      ensures forall s :: s in cursors && now - cursors[s].updatedAt <= horizon ==> wm <= cursors[s].lastPull
      ensures (exists s :: s in cursors && now - cursors[s].updatedAt <= horizon && cursors[s].lastPull == wm)
              || (wm == 0 && forall s :: s in cursors ==> now - cursors[s].updatedAt > horizon)
      ensures Ordered(evicted) && forall s :: s in evicted <==> s in cursors && now - cursors[s].updatedAt > horizon
    {
      var stale;
      wm, stale := LeastPull(now, horizon);
      evicted := Sort(stale);
      assert forall s :: s in evicted <==> s in Elements(evicted);
    }

    method LeastPull(now: int, horizon: int) returns (wm: int, evicted: set<string>)
      ensures IsWatermark(cursors, now, horizon, wm)
      ensures evicted == set s | s in cursors && Stale(cursors[s], now, horizon)
    {
      wm, evicted := 0, {};
      var haveActive := false;
      ghost var least := "";
      var todo := cursors.Keys;
      while todo != {}
        invariant todo <= cursors.Keys
        invariant evicted == set s | s in cursors.Keys - todo && Stale(cursors[s], now, horizon)
        invariant LeastSoFar(cursors, cursors.Keys - todo, now, horizon, haveActive, least, wm)
        decreases |todo|
      {
        var s :| s in todo;
        ghost var seen := cursors.Keys - todo;
        todo := todo - {s};
        assert cursors.Keys - todo == seen + {s};
        LeastStep(cursors, seen, now, horizon, haveActive, least, wm, s);
        var c := cursors[s];
        if Stale(c, now, horizon) {
          evicted := evicted + {s};
        } else if !haveActive || c.lastPull < wm {
          wm, haveActive, least := c.lastPull, true, s;
        }
      }
      if !haveActive {
        wm := 0;
      }
    }

    /** One pass over the changelog; cursors, high-water and mirror are not touched. */
    method Compact(watermark: int) returns (collapsed: int, purged: int)
      modifies this`log
      ensures Snapshot() == SyncState.Compact(reg, old(Snapshot()), watermark)
      ensures collapsed == |Losers(old(log))| && purged == |OldDeletes(reg, old(log), watermark)|
      ensures collapsed + purged + |log| == |old(log)|
    {
      var kept;
      kept, collapsed, purged := SweepLog(reg, log, watermark);
      if collapsed == 0 && purged == 0 {
        return;
      }
      log := kept;
    }

    /** Push, page and cursor in one transaction: a refused exchange commits nothing. */
    method ExchangeBounded(siteId: string, cursor: int, ops: seq<Op>, name: string, limits: Limits, sizes: Sizes, now: int)
      returns (r: Exchange)
      modifies this
      ensures r.Refusal? ==> Snapshot() == old(Snapshot())
      ensures r.Reply? ==>
                var pushed := SyncState.ApplyBatch(reg, old(Snapshot()), siteId, ops, now);
                && Snapshot() == SyncState.RecordCursor(pushed, siteId, r.cursor, name, now)
                && r.accepted == Accepted(reg, old(Snapshot()), siteId, ops)
                && r.rejected == RejectAll(reg, old(Snapshot()), ops)
                && BoundedPage(reg, pushed.log, cursor, siteId, limits.maxOps, r)
                && Answering(reg, old(Snapshot()), siteId, cursor, ops, limits, sizes, now).Packs(r)
      ensures r.Refusal? <==>
                var p := Answering(reg, old(Snapshot()), siteId, cursor, ops, limits, sizes, now);
                OutOfLimits(ops, limits, sizes) || p.Stuck() || Overflows(p)
    {
      var log0, lastSeq0, mirror0, cursors0, lastHlc0 := log, lastSeq, mirror, cursors, lastHlc;
      r := ExchangeTx(siteId, cursor, ops, name, limits, sizes, now);
      if r.Refusal? {
        log, lastSeq, mirror, cursors, lastHlc := log0, lastSeq0, mirror0, cursors0, lastHlc0;
      }
    }

    /** The transaction body; the caller rolls back on a refusal. */
    method ExchangeTx(siteId: string, cursor: int, ops: seq<Op>, name: string, limits: Limits, sizes: Sizes, now: int)
      returns (r: Exchange)
      modifies this
      ensures siteOpSeq == old(siteOpSeq)
      ensures r.Reply? ==>
                var pushed := SyncState.ApplyBatch(reg, old(Snapshot()), siteId, ops, now);
                && Snapshot() == SyncState.RecordCursor(pushed, siteId, r.cursor, name, now)
                && r.accepted == Accepted(reg, old(Snapshot()), siteId, ops)
                && r.rejected == RejectAll(reg, old(Snapshot()), ops)
                && BoundedPage(reg, pushed.log, cursor, siteId, limits.maxOps, r)
                && Answering(reg, old(Snapshot()), siteId, cursor, ops, limits, sizes, now).Packs(r)
      ensures r.Refusal? <==>
                var p := Answering(reg, old(Snapshot()), siteId, cursor, ops, limits, sizes, now);
                OutOfLimits(ops, limits, sizes) || p.Stuck() || Overflows(p)
    {
      if !limits.Ok() || |ops| > limits.maxOps || !RowsFit(ops, limits, sizes) {
        return Refusal;
      }
      ghost var p := Answering(reg, Snapshot(), siteId, cursor, ops, limits, sizes, now);
      var accepted, rejected := ApplyBatch(siteId, ops, now);
      var fits, page, newCursor, hasMore := FillPage(siteId, cursor, accepted, rejected, limits, sizes);
      if !fits {
        return Refusal;
      }
      r := Reply(accepted, rejected, page, newCursor, hasMore);
      PacksBounded(p, log, siteId, r);
      OverflowsIff(p, r);
      if sizes.body(accepted, rejected, page, newCursor, hasMore) > limits.maxBody {
        return Refusal;
      }
      RecordCursor(siteId, newCursor, name, now);
    }

    /** Fill one page in relay order, stopping at the first row that does not fit. */
    method FillPage(siteId: string, cursor: int, accepted: int, rejected: seq<Rejection>, limits: Limits, sizes: Sizes)
      returns (fits: bool, page: seq<Op>, newCursor: int, hasMore: bool)
      requires limits.Ok()
      ensures var p := Packing(reg, Pending(log, cursor, siteId), cursor, accepted, rejected, limits, sizes);
              (fits <==> !p.Stuck()) && (fits ==> p.Packs(Reply(accepted, rejected, page, newCursor, hasMore)))
    {
      fits, page, newCursor, hasMore := true, [], cursor, false;
      var rows := Pending(log, cursor, siteId);
      ghost var p := Packing(reg, rows, cursor, accepted, rejected, limits, sizes);
      if sizes.envelope(accepted, rejected, cursor) > limits.maxBody {
        fits := false;
        return;
      }
      var bytes := 0;
      var k := 0;
      while k < |rows|
        invariant p.Holds(k, page, bytes, newCursor) && (k > 0 ==> !p.TooLarge(0))
        invariant fits && !hasMore
      {
        if |page| >= limits.maxOps {
          hasMore := true;
          HoldsAll(p, k, page, bytes, newCursor);
          return;
        }
        var e := rows[k];
        var op := Complete(reg, e.op);
        var size := sizes.row(op);
        var envelope := sizes.envelope(accepted, rejected, e.at);
        if size > limits.maxRow || size + envelope > limits.maxBody {
          hasMore := k > 0;
          fits := k > 0;
          HoldsAll(p, k, page, bytes, newCursor);
          return;
        }
        var comma := if k > 0 then 1 else 0;
        var next := envelope + bytes + comma + size;
        if k > 0 && (next > limits.targetBytes || next > limits.maxBody) {
          hasMore := true;
          HoldsAll(p, k, page, bytes, newCursor);
          return;
        }
        HoldsMore(p, k, page, bytes, newCursor, op);
        page := page + [op];
        newCursor := e.at;
        bytes := bytes + comma + size;
        k := k + 1;
      }
      HoldsAll(p, k, page, bytes, newCursor);
    }
  }
}
