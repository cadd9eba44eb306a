/**
 A run in which one pull response is lost: the recorded cursor passes the device's own, the
 watermark computed from it purges a delete, and the device keeps the deleted row for good.
 */
module LostResponse {
  import opened Basics
  import opened Ops
  import opened Reconcile
  import opened SyncState
  import opened SyncRuns
  import opened Clock
  import opened Relay
  import opened Convergence
  import SyncStore

  /** What authoring relies on. */
  ghost predicate Ready(db: Db, now: int) {
    MirrorBounded(db) && Max(now, db.lastHlc) < MAX_INT64 && OwnIdsBelow(db)
  }

  lemma AuthorSingle(reg: Registry, s: Srv, op: Op, now: int)
    requires Ready(s.db, now) && Authorable(reg, s.db.site, op)
    ensures var o := Stamp(reg, s.db, op, now);
            var d := Next(reg, s, Author([op], now)).db;
            && d == With(reg, s.db, o)
            && s.db.lastHlc < o.ts <= Max(now, s.db.lastHlc + 1) && MirrorBounded(d) && OwnIdsBelow(d)
  {
    assert [op][..0] == [];
    assert AuthorAll(reg, s.db, [op], now) == AuthorOne(reg, s.db, op, now);
    AuthorOneSucceeds(reg, s.db, op, now);
    AuthorOneWins(reg, s.db, op, now);
  }

  lemma OnePage(log: seq<Entry>, e: Entry, cursor: int, d: string)
    requires (forall f :: f in log ==> f.at <= cursor) && e.at > cursor && e.op.site != d
    ensures PageOf(log + [e], cursor, d, 10) == Page([e], e.at, false)
  {
    PendingNone(log, cursor, d);
    assert (log + [e])[..|log|] == log;
  }

  lemma {:induction false} PendingShort(log: seq<Entry>, cursor: int, d: string)
    ensures |Pending(log, cursor, d)| <= |log|
  {
    if log != [] {
      PendingShort(log[..|log| - 1], cursor, d);
    }
  }

  /** The moves: create, pull, delete, a pull whose response is lost, a pass at the computed watermark, pull. */
  function Moves(b: string, create: Op, delete: Op): seq<Move> {
    [Server(Author([create], 1)), Pull(b, 10, "", 1), Server(Author([delete], 2)), PullLost(b, 10, "", 2),
     Server(Sweeping(2)), Pull(b, 10, "", 3)]
  }

  /** The database after one authored op. */
  function With(reg: Registry, db: Db, o: Op): Db {
    db.(log := db.log + [Entry(db.lastSeq + 1, o)], lastSeq := db.lastSeq + 1,
        mirror := db.mirror[RowOf(o) := Normalize(reg, o)], siteOpSeq := db.siteOpSeq + 1, lastHlc := o.ts)
  }

  /** The device pulls the one entry it has not seen. */
  lemma PulledOne(reg: Registry, w: World, b: string, log: seq<Entry>, e: Entry, now: int, w': World)
    requires b in w.devs && w.srv.db.log == log + [e] && e.op.site != b && Complete(reg, e.op) == e.op
    requires (forall f :: f in log ==> f.at <= w.devs[b].cursor) && e.at > w.devs[b].cursor
    requires w' == NextWorld(reg, w, Pull(b, 10, "", now))
    ensures w'.devs == w.devs[b := Device(w.devs[b].authored, MergeInto(reg, w.devs[b].replica, e.op), e.at)]
    ensures w'.srv == w.srv.(db := RecordCursor(w.srv.db, b, e.at, "", now))
  {
    OnePage(log, e, w.devs[b].cursor, b);
    assert [e][..0] == [];
    assert MergeEntries(reg, w.devs[b].replica, [e]) == MergeInto(reg, w.devs[b].replica, e.op);
  }

  lemma LostOne(reg: Registry, w: World, b: string, log: seq<Entry>, e: Entry, now: int, w': World)
    requires b in w.devs && w.srv.db.log == log + [e] && e.op.site != b
    requires (forall f :: f in log ==> f.at <= w.devs[b].cursor) && e.at > w.devs[b].cursor
    requires w' == NextWorld(reg, w, PullLost(b, 10, "", now))
    ensures w'.devs == w.devs && w'.srv == w.srv.(db := RecordCursor(w.srv.db, b, e.at, "", now))
  {
    OnePage(log, e, w.devs[b].cursor, b);
  }

  /** Before the pass: the device holds the created row, the changelog ends in its delete, the record says it was pulled. */
  ghost predicate Primed(reg: Registry, w: World, b: string, o1: Op, o2: Op) {
    && w.devs == map[b := Device([], map[RowOf(o1) := Normalize(reg, o1)], 1)]
    && w.srv.db.log == [Entry(1, o1), Entry(2, o2)] && w.srv.db.lastSeq == 2
    && RowOf(o2) in w.srv.db.mirror && w.srv.db.mirror[RowOf(o2)] == Normalize(reg, o2)
    && w.srv.db.cursors.Keys == {b} && w.srv.db.cursors[b].lastPull == 2 && w.srv.db.cursors[b].updatedAt == 2
  }

  /** After the create and the pull. */
  ghost predicate Shared(reg: Registry, w: World, site: string, b: string, o: Op) {
    && w.devs == map[b := Device([], map[RowOf(o) := Normalize(reg, o)], 1)]
    && w.srv.db.log == [Entry(1, o)] && w.srv.db.lastSeq == 1 && w.srv.db.cursors.Keys == {b}
    && w.srv.db.site == site && w.srv.db.lastHlc == 1 && Ready(w.srv.db, 2)
  }

  lemma Created(reg: Registry, site: string, b: string, create: Op, w1: World)
    requires b != site && Authorable(reg, site, create)
    requires w1 == NextWorld(reg, StartWorld(site, {b}), Server(Author([create], 1)))
    ensures var o := Stamp(reg, Fresh(site), create, 1);
            && w1.devs == map[b := Device([], map[], 0)] && w1.srv.db == With(reg, Fresh(site), o)
            && o.ts == 1 && o.site == site && Ready(w1.srv.db, 2) && Complete(reg, o) == o
  {
    var s := Start(site);
    assert Ready(s.db, 1) && s.db == Fresh(site);
    AuthorSingle(reg, s, create, 1);
    assert w1.srv == Next(reg, s, Author([create], 1)) && w1.devs == StartWorld(site, {b}).devs;
    StampComplete(reg, Fresh(site), create, 1);
  }

  lemma CreatePulled(reg: Registry, w1: World, site: string, b: string, o: Op, w2: World)
    requires b != site && o.ts == 1 && o.site == site && Complete(reg, o) == o
    requires w1.devs == map[b := Device([], map[], 0)] && w1.srv.db == With(reg, Fresh(site), o) && Ready(w1.srv.db, 2)
    requires w2 == NextWorld(reg, w1, Pull(b, 10, "", 1))
    ensures Shared(reg, w2, site, b, o)
  {
    assert w1.srv.db.log == [] + [Entry(1, o)];
    PulledOne(reg, w1, b, [], Entry(1, o), 1, w2);
    FirstPulled(reg, w1.srv.db, site, b, o, w2.srv.db);
    assert w2.devs == map[b := Device([], map[RowOf(o) := Normalize(reg, o)], 1)];
  }

  /** The database after the first op was authored and pulled. */
  lemma FirstPulled(reg: Registry, db: Db, site: string, b: string, o: Op, db': Db)
    requires db == With(reg, Fresh(site), o) && Ready(db, 2) && o.ts == 1 && db' == RecordCursor(db, b, 1, "", 1)
    ensures db'.log == [Entry(1, o)] && db'.lastSeq == 1 && db'.cursors.Keys == {b}
    ensures db'.site == site && db'.lastHlc == 1 && Ready(db', 2)
  {
  }

  lemma Deleted(reg: Registry, w: World, site: string, b: string, o1: Op, delete: Op, w3: World)
    requires Authorable(reg, site, delete) && Shared(reg, w, site, b, o1)
    requires w3 == NextWorld(reg, w, Server(Author([delete], 2)))
    ensures var o := Stamp(reg, w.srv.db, delete, 2);
            && w3.devs == w.devs && w3.srv.db == With(reg, w.srv.db, o) && o.ts == 2
  {
    AuthorSingle(reg, w.srv, delete, 2);
  }

  lemma DeleteLost(reg: Registry, w: World, site: string, b: string, o1: Op, o: Op, w3: World, w4: World)
    requires b != site && Shared(reg, w, site, b, o1) && o.site == site
    requires w3.devs == w.devs && w3.srv.db == With(reg, w.srv.db, o)
    requires w4 == NextWorld(reg, w3, PullLost(b, 10, "", 2))
    ensures Primed(reg, w4, b, o1, o)
  {
    LostOne(reg, w3, b, [Entry(1, o1)], Entry(2, o), 2, w4);
  }

  lemma PrimedStrands(reg: Registry, w: World, b: string, o1: Op, o2: Op)
    requires Primed(reg, w, b, o1, o2) && o1.ts < o2.ts && o2.site != b && RowOf(o1) == RowOf(o2) && Tombstone(reg, o2)
    ensures Stranding(reg, w.srv.db, w.devs[b], b, 2, Entry(2, o2))
  {
    assert Entry(2, o2) in w.srv.db.log;
  }

  /** A run goes on with any enabled move. */
  lemma Continue(reg: Registry, ws: seq<World>, ms: seq<Move>, m: Move) returns (ws': seq<World>)
    requires IsRun(reg, ws, ms) && Enabled(ws[|ms|], m)
    ensures ws' == ws + [NextWorld(reg, ws[|ms|], m)] && IsRun(reg, ws', ms + [m])
  {
    ws' := ws + [NextWorld(reg, ws[|ms|], m)];
  }

  lemma Create(reg: Registry, site: string, b: string, create: Op) returns (ws: seq<World>, o1: Op)
    requires b != site && Authorable(reg, site, create)
    ensures IsRun(reg, ws, [Server(Author([create], 1))] + [Pull(b, 10, "", 1)]) && ws[0] == StartWorld(site, {b})
    ensures Shared(reg, ws[2], site, b, o1) && RowOf(o1) == RowOf(create) && o1.ts == 1
  {
    ws := [StartWorld(site, {b})];
    o1 := Stamp(reg, Fresh(site), create, 1);
    ws := Continue(reg, ws, [], Server(Author([create], 1)));
    Created(reg, site, b, create, ws[1]);
    var w1 := ws[1];
    ws := Continue(reg, ws, [Server(Author([create], 1))], Pull(b, 10, "", 1));
    CreatePulled(reg, w1, site, b, o1, ws[2]);
  }

  lemma Delete(reg: Registry, us: seq<World>, ms: seq<Move>, site: string, b: string, o1: Op, delete: Op)
    returns (ws: seq<World>, o2: Op)
    requires IsRun(reg, us, ms) && |ms| == 2 && b != site && Authorable(reg, site, delete) && Shared(reg, us[2], site, b, o1)
    ensures IsRun(reg, ws, ms + [Server(Author([delete], 2))] + [PullLost(b, 10, "", 2)]) && ws[0] == us[0]
    ensures Primed(reg, ws[4], b, o1, o2) && o2.ts == 2 && o2.site == site
    ensures RowOf(o2) == RowOf(delete) && o2.cols == Complete(reg, delete).cols
  {
    var w := us[2];
    o2 := Stamp(reg, w.srv.db, delete, 2);
    ws := Continue(reg, us, ms, Server(Author([delete], 2)));
    var w3 := ws[3];
    Deleted(reg, w, site, b, o1, delete, w3);
    ws := Continue(reg, ws, ms + [Server(Author([delete], 2))], PullLost(b, 10, "", 2));
    DeleteLost(reg, w, site, b, o1, o2, w3, ws[4]);
  }

  lemma SweepFrame(reg: Registry, w: World, wm: int, w': World)
    requires w' == NextWorld(reg, w, Server(Sweeping(wm)))
    ensures w'.devs == w.devs && w'.srv.db == Compact(reg, w.srv.db, wm) && w'.srv.db.mirror == w.srv.db.mirror
  {
  }

  lemma PullFrame(reg: Registry, w: World, b: string, now: int, w': World)
    requires b in w.devs && w' == NextWorld(reg, w, Pull(b, 10, "", now))
    ensures w'.srv.db.mirror == w.srv.db.mirror && b in w'.devs
    ensures w'.devs[b] == PulledDevice(reg, w.devs[b], PageOf(w.srv.db.log, w.devs[b].cursor, b, 10))
  {
  }

  lemma Zombie(reg: Registry, w: World, b: string, e: Entry, w5: World, w6: World)
    requires Sound(reg, w.srv.db, w.srv.hist) && b in w.devs && w.devs[b].cursor <= w.srv.db.lastSeq
    requires Stranding(reg, w.srv.db, w.devs[b], b, 2, e)
    requires w5 == NextWorld(reg, w, Server(Sweeping(2))) && w6 == NextWorld(reg, w5, Pull(b, 10, "", 3))
    ensures w6.devs[b].replica != w6.srv.db.mirror
  {
    SweepFrame(reg, w, 2, w5);
    PullFrame(reg, w5, b, 3, w6);
    ZombieAfterPull(reg, w.srv.db, w.srv.hist, w.devs[b], b, 2, e, 10);
  }

  /** The pass from there strands the delete, and the next pull does not bring it. */
  lemma PassAndPull(reg: Registry, us: seq<World>, ms: seq<Move>, site: string, b: string, o1: Op, o2: Op) returns (ws: seq<World>)
    requires IsRun(reg, us, ms) && |ms| == 4 && Primed(reg, us[4], b, o1, o2) && Sound(reg, us[4].srv.db, us[4].srv.hist)
    requires o1.ts < o2.ts && o2.site == site != b && RowOf(o1) == RowOf(o2) && Tombstone(reg, o2)
    ensures IsRun(reg, ws, ms + [Server(Sweeping(2))] + [Pull(b, 10, "", 3)]) && ws[0] == us[0] && ws[4] == us[4]
    ensures CaughtUp(reg, ws[6], b) && ws[6].devs[b].replica != ws[6].srv.db.mirror
  {
    var w4 := us[4];
    ws := Continue(reg, us, ms, Server(Sweeping(2)));
    var w5 := ws[5];
    ws := Continue(reg, ws, ms + [Server(Sweeping(2))], Pull(b, 10, "", 3));
    Drained(reg, w4, b, w5, ws[6]);
    PrimedStrands(reg, w4, b, o1, o2);
    Zombie(reg, w4, b, Entry(2, o2), w5, ws[6]);
  }

  lemma WatermarkOfOne(cs: map<string, Cursor>, b: string)
    requires cs.Keys == {b} && cs[b].lastPull == 2 && cs[b].updatedAt == 2
    ensures IsWatermark(cs, 2, 10, 2) && !Stale(cs[b], 2, 10)
  {
  }

  lemma PrimedSound(reg: Registry, site: string, b: string, ws: seq<World>, ms: seq<Move>)
    requires IsRun(reg, ws, ms) && ws[0] == StartWorld(site, {b}) && b != site
    requires forall i :: 0 <= i < |ms| ==> !(ms[i].Server? && ms[i].step.Sweeping?)
    ensures Sound(reg, ws[|ms|].srv.db, ws[|ms|].srv.hist)
  {
    RunTracks(reg, site, {b}, ws, ms, b, |ms|);
  }

  /**
   For every row the server may create and delete: the run ends with nothing left to pull, every pass
   used the computed watermark with the device registered and not stale, and yet the device does not
   hold the server's mirror.
   */
  lemma LostResponseRun(reg: Registry, site: string, b: string, create: Op, delete: Op) returns (ws: seq<World>)
    requires b != site && Authorable(reg, site, create) && Authorable(reg, site, delete)
    requires RowOf(create) == RowOf(delete) && Tombstone(reg, Complete(reg, delete))
    ensures IsRun(reg, ws, Moves(b, create, delete)) && ws[0] == StartWorld(site, {b})
    ensures IsWatermark(ws[4].srv.db.cursors, 2, 10, 2) && b in ws[4].srv.db.cursors && !Stale(ws[4].srv.db.cursors[b], 2, 10)
    ensures CaughtUp(reg, ws[6], b) && ws[6].devs[b].replica != ws[6].srv.db.mirror
  {
    var m0, m1 := Server(Author([create], 1)), Pull(b, 10, "", 1);
    var m2, m3 := Server(Author([delete], 2)), PullLost(b, 10, "", 2);
    var us, o1 := Create(reg, site, b, create);
    var vs, o2 := Delete(reg, us, [m0] + [m1], site, b, o1, delete);
    var ms := [m0] + [m1] + [m2] + [m3];
    PrimedSound(reg, site, b, vs, ms);
    WatermarkOfOne(vs[4].srv.db.cursors, b);
    ws := PassAndPull(reg, vs, ms, site, b, o1, o2);
    assert Moves(b, create, delete) == ms + [Server(Sweeping(2))] + [Pull(b, 10, "", 3)];
  }

  /** After a pass over two entries, one page of ten drains. */
  lemma Drained(reg: Registry, w: World, b: string, w5: World, w6: World)
    requires LogOk(w.srv.db) && |w.srv.db.log| <= 10 && b in w.devs && w.devs[b].authored == []
    requires w5 == NextWorld(reg, w, Server(Sweeping(2))) && w6 == NextWorld(reg, w5, Pull(b, 10, "", 3))
    ensures CaughtUp(reg, w6, b)
  {
    CompactKeepsLogOk(reg, w.srv.db, 2);
    SyncStore.SweepWhole(reg, w.srv.db.log, 2, |w.srv.db.log|);
    PendingShort(w5.srv.db.log, w.devs[b].cursor, b);
    PageSplits(w5.srv.db.log, w.devs[b].cursor, b, 10);
  }
}
