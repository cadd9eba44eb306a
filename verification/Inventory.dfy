/** Server-side edits of the note inventory: deleting a notebook and rewriting a text box. */
module Inventory {
  import opened Basics
  import opened Ops
  import opened Reconcile
  import opened SyncState
  import opened SyncRuns
  import opened Clock
  import opened SyncStore
  import opened Schema
  import Ulid

  predicate Declares(cols: map<ColName, ColType>, name: ColName, ty: ColType) {
    name in cols && cols[name] == ty
  }

  /** A table that soft-deletes through a nullable number. */
  ghost predicate Deletable(reg: Registry, t: TableName) {
    && t in reg.tables && t in reg.tombstones && reg.tombstones[t] == DeletedAt
    && Declares(reg.tables[t], DeletedAt, NullIntCol)
  }

  /** What deleting a notebook relies on in the schema. */
  ghost predicate NoteSchema(reg: Registry) {
    && Deletable(reg, NotebookT) && Deletable(reg, PageT) && Deletable(reg, StrokeT) && Deletable(reg, ServerTextT)
    && reg.tables[ServerTextT] == PAGE_TEXT_COLUMNS
  }

  lemma PageTextDeletable()
    ensures Deletable(FOREST_NOTE, ServerTextT) && FOREST_NOTE.tables[ServerTextT] == PAGE_TEXT_COLUMNS
  {
    assert Declares(PAGE_TEXT_COLUMNS, DeletedAt, NullIntCol);
  }

  /** The synced schema is one these operations work on. */
  lemma ForestNoteSchema()
    ensures NoteSchema(FOREST_NOTE)
  {
    PageTextDeletable();
  }

  // ---- the state every run keeps ----

  ghost predicate MirrorTyped(reg: Registry, m: Table) {
    forall r :: r in m ==> RowOf(m[r]) == r && Acceptable(reg, m[r]) && Normalize(reg, m[r]) == m[r]
  }

  ghost predicate StoreOk(reg: Registry, db: Db) {
    LogOk(db) && MirrorBounded(db) && OwnIdsBelow(db) && Ulid.IsULID(db.site) && MirrorTyped(reg, db.mirror)
  }

  lemma MergeTyped(reg: Registry, m: Table, op: Op)
    requires MirrorTyped(reg, m) && (Beats(m, op) ==> Acceptable(reg, op))
    ensures MirrorTyped(reg, MergeInto(reg, m, op))
  {
    if Beats(m, op) {
      NormalizeAcceptable(reg, op);
    }
  }

  lemma NormalizeAcceptable(reg: Registry, op: Op)
    requires Acceptable(reg, op)
    ensures var n := Normalize(reg, op); RowOf(n) == RowOf(op) && Acceptable(reg, n) && Normalize(reg, n) == n
  {
    NormalizeIdempotent(reg, op);
  }

  lemma AdmitTyped(reg: Registry, db: Db, incoming: Op)
    requires MirrorTyped(reg, db.mirror)
    ensures MirrorTyped(reg, Admit(reg, db, incoming).mirror)
  {
    AdmitMirror(reg, db, incoming);
    var op := Complete(reg, incoming);
    if Acceptable(reg, op) {
      MergeTyped(reg, db.mirror, op);
    }
  }

  lemma {:induction false} AdmitAllTyped(reg: Registry, db: Db, ops: seq<Op>)
    requires MirrorTyped(reg, db.mirror)
    ensures MirrorTyped(reg, AdmitAll(reg, db, ops).mirror)
  {
    if ops != [] {
      AdmitAllTyped(reg, db, ops[..|ops| - 1]);
      AdmitTyped(reg, AdmitAll(reg, db, ops[..|ops| - 1]), ops[|ops| - 1]);
    }
  }

  lemma AuthorOneTyped(reg: Registry, db: Db, op: Op, now: int)
    requires MirrorTyped(reg, db.mirror) && AuthorOne(reg, db, op, now).Some?
    ensures MirrorTyped(reg, AuthorOne(reg, db, op, now).value.mirror)
  {
    MergeTyped(reg, db.mirror, Stamp(reg, db, op, now));
  }

  lemma {:induction false} AuthorAllTyped(reg: Registry, db: Db, ops: seq<Op>, now: int)
    requires MirrorTyped(reg, db.mirror) && AuthorAll(reg, db, ops, now).Some?
    ensures MirrorTyped(reg, AuthorAll(reg, db, ops, now).value.mirror)
  {
    if ops != [] {
      AuthorAllTyped(reg, db, ops[..|ops| - 1], now);
      AuthorOneTyped(reg, AuthorAll(reg, db, ops[..|ops| - 1], now).value, ops[|ops| - 1], now);
    }
  }

  /** In every run whatever, each mirror row is valid, well-typed and holds only declared columns. */
  lemma {:induction false} RunTyped(reg: Registry, site: string, steps: seq<Step>)
    ensures MirrorTyped(reg, Run(reg, Start(site), steps).db.mirror)
  {
    if steps == [] {
      assert Run(reg, Start(site), steps) == Start(site);
    } else {
      var p := steps[..|steps| - 1];
      RunTyped(reg, site, p);
      var db := Run(reg, Start(site), p).db;
      match steps[|steps| - 1]
      case Push(_, ops, _) => AdmitAllTyped(reg, db, ops);
      case Author(ops, now) =>
        if AuthorAll(reg, db, ops, now).Some? {
          AuthorAllTyped(reg, db, ops, now);
        }
      case _ =>
    }
  }

  /** No device pushes an op under the server's own site id. */
  predicate NotServers(site: string, step: Step) {
    step.Push? ==> forall op :: op in step.ops ==> op.site != site
  }

  lemma {:induction false} AuthorAllOwnIds(reg: Registry, db: Db, ops: seq<Op>, now: int)
    requires OwnIdsBelow(db) && AuthorAll(reg, db, ops, now).Some?
    ensures OwnIdsBelow(AuthorAll(reg, db, ops, now).value)
  {
    if ops != [] {
      AuthorAllOwnIds(reg, db, ops[..|ops| - 1], now);
    }
  }

  lemma NextOwnIds(reg: Registry, s: Srv, step: Step)
    requires OwnIdsBelow(s.db) && LogOk(s.db) && NotServers(s.db.site, step)
    ensures OwnIdsBelow(Next(reg, s, step).db) && Next(reg, s, step).db.site == s.db.site
  {
    match step
    case Push(_, ops, _) => AdmitAllFrame(reg, s.db, ops);
    case Author(ops, now) =>
      if AuthorAll(reg, s.db, ops, now).Some? {
        AuthorAllOwnIds(reg, s.db, ops, now);
        AuthorAllFrame(reg, s.db, ops, now);
      }
    case Sweeping(wm) => CompactKeepsLogOk(reg, s.db, wm);
    case _ =>
  }

  /** Then the server's identities in the changelog never pass its counter, prunes or not. */
  lemma {:induction false} RunOwnIds(reg: Registry, site: string, steps: seq<Step>)
    requires forall i :: 0 <= i < |steps| ==> NotServers(site, steps[i])
    ensures OwnIdsBelow(Run(reg, Start(site), steps).db) && Run(reg, Start(site), steps).db.site == site
  {
    if steps == [] {
      assert Run(reg, Start(site), steps) == Start(site);
    } else {
      var p := steps[..|steps| - 1];
      RunOwnIds(reg, site, p);
      MirrorIsMergeOfHistory(reg, site, p);
      NextOwnIds(reg, Run(reg, Start(site), p), steps[|steps| - 1]);
    }
  }

  /** Every reachable state is one these operations accept. */
  lemma ReachableStoreOk(reg: Registry, site: string, steps: seq<Step>)
    requires Ulid.IsULID(site) && RunInRange(reg, Start(site), steps)
    requires forall i :: 0 <= i < |steps| ==> NotServers(site, steps[i])
    ensures StoreOk(reg, Run(reg, Start(site), steps).db)
  {
    RunTyped(reg, site, steps);
    RunOwnIds(reg, site, steps);
    MirrorIsMergeOfHistory(reg, site, steps);
    ClockBoundsEveryRun(reg, site, steps);
  }

  // ---- reads ----

  function Get(op: Op, name: ColName): Value {
    if name in op.cols then op.cols[name] else Null
  }

  predicate Live(op: Op) {
    Get(op, DeletedAt).Null?
  }

  function LivePages(m: Table, nb: string): set<Row> {
    set r | r in m && r.table == PageT && Live(m[r]) && Get(m[r], NotebookId) == Str(nb)
  }

  function LiveStrokes(m: Table, nb: string): set<Row> {
    set r | r in m && r.table == StrokeT && Live(m[r]) && exists p :: p in LivePages(m, nb) && Get(m[r], PageId) == Str(p.pk)
  }

  function PageTexts(pages: set<Row>): set<Row> {
    set p | p in pages :: Row(ServerTextT, p.pk)
  }

  /** Exactly the rows a notebook delete tombstones. Text boxes are not among them. */
  function Doomed(m: Table, nb: string): set<Row> {
    {Row(NotebookT, nb)} + LivePages(m, nb) + LiveStrokes(m, nb) + PageTexts(LivePages(m, nb))
  }

  function PageTextCols(text: string, ocrAt: int, createdAt: int, model: string, deletedAt: Option<int>): map<ColName, Value> {
    map[CreatedAt := Num(createdAt),
        DeletedAt := (if deletedAt.Some? then Num(deletedAt.value) else Null),
        ModelName := (if model != "" then Str(model) else Null),
        OcrAt := Num(ocrAt),
        TextContent := Str(text)]
  }

  /** What the row of a doomed key holds afterwards. */
  function DeadCols(m: Table, r: Row, now: int): map<ColName, Value> {
    if r.table == ServerTextT then PageTextCols("", 0, now, "", Some(now))
    else if r in m then m[r].cols[DeletedAt := Num(now)] else map[]
  }

  function DeadOp(m: Table, r: Row, now: int): Op {
    Op(r.table, r.pk, "", 0, 0, DeadCols(m, r, now))
  }

  // ---- the ops are acceptable, and materialise to the dead row ----

  /** Re-authoring a stored row with one column replaced by a value of its type is acceptable and changes nothing else. */
  lemma RewriteAuthorable(reg: Registry, site: string, row: Op, name: ColName, ty: ColType, v: Value, op: Op)
    requires Ulid.IsULID(site) && Acceptable(reg, row) && Normalize(reg, row) == row
    requires Declares(Columns(reg, row.table), name, ty) && TypeOk(ty, v)
    requires op == Op(row.table, row.pk, "", 0, 0, row.cols[name := v])
    ensures Authorable(reg, site, op)
    ensures Normalize(reg, Complete(reg, op)).cols == op.cols
  {
    var c := Complete(reg, op).(site := site, opSeq := 1);
  }

  lemma DeadRowAuthorable(reg: Registry, db: Db, r: Row, now: int)
    requires StoreOk(reg, db) && Deletable(reg, r.table) && r.table != ServerTextT && r in db.mirror
    ensures Authorable(reg, db.site, DeadOp(db.mirror, r, now))
    ensures Normalize(reg, Complete(reg, DeadOp(db.mirror, r, now))).cols == DeadCols(db.mirror, r, now)
  {
    RewriteAuthorable(reg, db.site, db.mirror[r], DeletedAt, NullIntCol, Num(now), DeadOp(db.mirror, r, now));
  }

  lemma PageTextTyped(now: int)
    ensures var cols := PageTextCols("", 0, now, "", Some(now));
            && (forall c :: c in PAGE_TEXT_COLUMNS ==> c in cols && TypeOk(PAGE_TEXT_COLUMNS[c], cols[c]))
            && (forall name :: name in cols ==> name in PAGE_TEXT_COLUMNS)
  {
  }

  lemma PageTextAuthorable(reg: Registry, site: string, op: Op, now: int)
    requires ServerTextT in reg.tables && reg.tables[ServerTextT] == PAGE_TEXT_COLUMNS
    requires Ulid.IsULID(site) && Ulid.IsULID(op.pk)
    requires op.table == ServerTextT && op.cols == PageTextCols("", 0, now, "", Some(now))
    ensures Authorable(reg, site, op)
    ensures Normalize(reg, Complete(reg, op)).cols == op.cols
  {
    PageTextTyped(now);
  }

  // ---- distinct rows, each laid over once ----

  ghost predicate DistinctRows(ops: seq<Op>) {
    forall i, j :: 0 <= i < j < |ops| ==> RowOf(ops[i]) != RowOf(ops[j])
  }

  lemma {:induction false} OverlayOwn(reg: Registry, m: Table, os: seq<Op>, i: nat)
    requires DistinctRows(os) && i < |os|
    ensures RowOf(os[i]) in Overlay(reg, m, os) && Overlay(reg, m, os)[RowOf(os[i])] == Normalize(reg, os[i])
  {
    if i < |os| - 1 {
      assert RowOf(os[i]) != RowOf(os[|os| - 1]);
      OverlayOwn(reg, m, os[..|os| - 1], i);
    }
  }

  lemma {:induction false} OverlayOther(reg: Registry, m: Table, os: seq<Op>, r: Row)
    requires forall i :: 0 <= i < |os| ==> RowOf(os[i]) != r
    ensures (r in Overlay(reg, m, os) <==> r in m) && (r in m ==> Overlay(reg, m, os)[r] == m[r])
  {
    if os != [] {
      OverlayOther(reg, m, os[..|os| - 1], r);
      assert RowOf(os[|os| - 1]) != r;
    }
  }

  lemma OverlayDistinct(reg: Registry, m: Table, os: seq<Op>)
    requires DistinctRows(os)
    ensures forall i :: 0 <= i < |os| ==> RowOf(os[i]) in Overlay(reg, m, os) && Overlay(reg, m, os)[RowOf(os[i])] == Normalize(reg, os[i])
    ensures forall r :: (forall i :: 0 <= i < |os| ==> RowOf(os[i]) != r) ==>
              (r in Overlay(reg, m, os) <==> r in m) && (r in m ==> Overlay(reg, m, os)[r] == m[r])
  {
    forall i | 0 <= i < |os|
      ensures RowOf(os[i]) in Overlay(reg, m, os) && Overlay(reg, m, os)[RowOf(os[i])] == Normalize(reg, os[i])
    {
      OverlayOwn(reg, m, os, i);
    }
    forall r | forall i :: 0 <= i < |os| ==> RowOf(os[i]) != r
      ensures (r in Overlay(reg, m, os) <==> r in m) && (r in m ==> Overlay(reg, m, os)[r] == m[r])
    {
      OverlayOther(reg, m, os, r);
    }
  }

  /** The ops collected so far delete exactly the rows in `done`. */
  ghost predicate Collected(m: Table, now: int, ops: seq<Op>, done: set<Row>) {
    && DistinctRows(ops)
    && (forall i :: 0 <= i < |ops| ==> RowOf(ops[i]) in done && ops[i] == DeadOp(m, RowOf(ops[i]), now))
    && (forall r :: r in done ==> exists i :: 0 <= i < |ops| && RowOf(ops[i]) == r)
  }

  lemma CollectOne(m: Table, now: int, ops: seq<Op>, done: set<Row>, r: Row)
    requires Collected(m, now, ops, done) && r !in done
    ensures Collected(m, now, ops + [DeadOp(m, r, now)], done + {r})
  {
    var all := ops + [DeadOp(m, r, now)];
    forall x | x in done + {r}
      ensures exists i :: 0 <= i < |all| && RowOf(all[i]) == x
    {
      if x == r {
        assert RowOf(all[|ops|]) == r;
      } else {
        var i :| 0 <= i < |ops| && RowOf(ops[i]) == x;
        assert RowOf(all[i]) == x;
      }
    }
  }

  /** The rows of a scan, each once, in whatever order the scan yields them. */
  method Scan(rows: set<Row>) returns (order: seq<Row>)
    ensures |order| == |rows| && Elements(order) == rows
    ensures forall i, j :: 0 <= i < j < |order| ==> order[i] != order[j]
  {
    order := [];
    var todo := rows;
    while todo != {}
      invariant todo <= rows && |order| + |todo| == |rows| && Elements(order) == rows - todo
      invariant forall i, j :: 0 <= i < j < |order| ==> order[i] != order[j]
      decreases |todo|
    {
      var r :| r in todo;
      assert r !in Elements(order);
      assert Elements(order + [r]) == Elements(order) + {r};
      order := order + [r];
      todo := todo - {r};
    }
  }

  function Elements(rows: seq<Row>): set<Row> {
    set r | r in rows
  }

  /** One delete op per scanned row. */
  method CollectRows(m: Table, now: int, ops: seq<Op>, ghost done: set<Row>, order: seq<Row>) returns (all: seq<Op>)
    requires Collected(m, now, ops, done) && done !! Elements(order)
    requires forall i, j :: 0 <= i < j < |order| ==> order[i] != order[j]
    ensures Collected(m, now, all, done + Elements(order)) && |all| == |ops| + |order|
  {
    all := ops;
    assert done + Elements([]) == done;
    for i := 0 to |order|
      invariant Collected(m, now, all, done + Elements(order[..i])) && |all| == |ops| + i
    {
      var r := order[i];
      assert r in Elements(order) && r !in Elements(order[..i]);
      CollectOne(m, now, all, done + Elements(order[..i]), r);
      assert done + Elements(order[..i]) + {r} == done + Elements(order[..i + 1]);
      all := all + [DeadOp(m, r, now)];
    }
    assert order[..|order|] == order;
  }

  /** After a delete, with the rows read from `m` and the ops laid over `base`: the doomed rows are tombstones, all others untouched. */
  ghost predicate DeletedOver(reg: Registry, m: Table, base: Table, m': Table, nb: string, now: int) {
    && (forall r :: r in Doomed(m, nb) ==> r in m' && Tombstone(reg, m'[r]) && m'[r].cols == DeadCols(m, r, now))
    && (forall r :: r !in Doomed(m, nb) ==> (r in m' <==> r in base) && (r in base ==> m'[r] == base[r]))
  }

  // ---- the same, column by column ----

  ghost predicate Alive(w: Op) {
    DeletedAt !in w.cols || w.cols[DeletedAt] == Null
  }

  ghost predicate PageIn(m: Table, r: Row, nb: string) {
    && r in m && r.table == PageT && Alive(m[r])
    && NotebookId in m[r].cols && m[r].cols[NotebookId] == Str(nb)
  }

  ghost predicate StrokeIn(m: Table, r: Row, nb: string) {
    && r in m && r.table == StrokeT && Alive(m[r]) && PageId in m[r].cols
    && exists pk :: PageIn(m, Row(PageT, pk), nb) && m[r].cols[PageId] == Str(pk)
  }

  /** A row that got a deletion time and kept every other column. */
  ghost predicate MarkedDead(before: Op, after: Op, now: int) {
    && after.cols.Keys == before.cols.Keys + {DeletedAt} && after.cols[DeletedAt] == Num(now)
    && forall c :: c in before.cols && c != DeletedAt ==> after.cols[c] == before.cols[c]
  }

  /** An emptied page text. */
  ghost predicate EmptyText(w: Op, now: int) {
    && w.cols.Keys == {TextContent, OcrAt, ModelName, CreatedAt, DeletedAt}
    && w.cols[TextContent] == Str("") && w.cols[OcrAt] == Num(0) && w.cols[ModelName] == Null
    && w.cols[CreatedAt] == Num(now) && w.cols[DeletedAt] == Num(now)
  }

  /**
   The notebook, its live pages and the live strokes on them, as read from `m`, die; so does the server's
   text of each of those pages. Nothing else of `base` changes: no page of another notebook, no stroke on one.
   */
  ghost predicate NotebookGone(m: Table, base: Table, m': Table, nb: string, now: int) {
    && (forall r :: r == Row(NotebookT, nb) || PageIn(m, r, nb) || StrokeIn(m, r, nb) ==> r in m && r in m' && MarkedDead(m[r], m'[r], now))
    && (forall pk :: PageIn(m, Row(PageT, pk), nb) ==> Row(ServerTextT, pk) in m' && EmptyText(m'[Row(ServerTextT, pk)], now))
    && (forall r :: !(r == Row(NotebookT, nb) || PageIn(m, r, nb) || StrokeIn(m, r, nb) || (r.table == ServerTextT && PageIn(m, Row(PageT, r.pk), nb))) ==>
          (r in m' <==> r in base) && (r in base ==> m'[r] == base[r]))
  }

  lemma DoomedIff(m: Table, nb: string, r: Row)
    ensures r in LivePages(m, nb) <==> PageIn(m, r, nb)
    ensures r in Doomed(m, nb) <==>
            r == Row(NotebookT, nb) || PageIn(m, r, nb) || StrokeIn(m, r, nb) || (r.table == ServerTextT && PageIn(m, Row(PageT, r.pk), nb))
  {
    PageIff(m, nb);
    StrokeIff(m, nb, r);
    if r.table == ServerTextT && PageIn(m, Row(PageT, r.pk), nb) {
      assert Row(PageT, r.pk) in LivePages(m, nb);
      assert r == Row(ServerTextT, Row(PageT, r.pk).pk);
    }
  }

  lemma PageIff(m: Table, nb: string)
    ensures forall r :: r in LivePages(m, nb) <==> PageIn(m, r, nb)
    ensures forall r :: r in LivePages(m, nb) ==> r == Row(PageT, r.pk)
  {
  }

  lemma StrokeIff(m: Table, nb: string, r: Row)
    ensures r in LiveStrokes(m, nb) <==> StrokeIn(m, r, nb)
  {
    PageIff(m, nb);
    if StrokeIn(m, r, nb) {
      var pk :| PageIn(m, Row(PageT, pk), nb) && m[r].cols[PageId] == Str(pk);
      assert Row(PageT, pk) in LivePages(m, nb) && Row(PageT, pk).pk == pk;
    }
  }

  lemma DeadRowMeans(m: Table, r: Row, now: int, w: Op)
    requires w.cols == DeadCols(m, r, now)
    ensures r.table == ServerTextT ==> EmptyText(w, now)
    ensures r.table != ServerTextT && r in m ==> MarkedDead(m[r], w, now)
  {
  }

  lemma DeleteMeans(reg: Registry, m: Table, base: Table, m': Table, nb: string, now: int)
    requires DeletedOver(reg, m, base, m', nb, now) && Row(NotebookT, nb) in m
    ensures NotebookGone(m, base, m', nb, now)
  {
    forall r
      ensures r in Doomed(m, nb) <==>
              r == Row(NotebookT, nb) || PageIn(m, r, nb) || StrokeIn(m, r, nb) || (r.table == ServerTextT && PageIn(m, Row(PageT, r.pk), nb))
    {
      DoomedIff(m, nb, r);
    }
    forall r | r in Doomed(m, nb)
      ensures r in m' && (r.table == ServerTextT ==> EmptyText(m'[r], now)) && (r.table != ServerTextT && r in m ==> MarkedDead(m[r], m'[r], now))
    {
      DeadRowMeans(m, r, now, m'[r]);
    }
    forall pk | PageIn(m, Row(PageT, pk), nb)
      ensures Row(ServerTextT, pk) in m' && EmptyText(m'[Row(ServerTextT, pk)], now)
    {
      assert Row(ServerTextT, pk) in Doomed(m, nb);
    }
  }

  predicate MarksDead(cols: map<ColName, Value>) {
    DeletedAt in cols && !cols[DeletedAt].Null?
  }

  lemma Untouched(reg: Registry, m: Table, m': Table, nb: string, now: int, box: Row)
    requires DeletedOver(reg, m, m, m', nb, now) && (box.table == TextBoxT || box.table == ClientTextT) && box in m
    ensures box in m' && m'[box] == m[box]
  {
    if box in Doomed(m, nb) {
      DoomedTables(m, nb, box);
    }
  }

  lemma DoomedTables(m: Table, nb: string, r: Row)
    requires r in Doomed(m, nb)
    ensures r.table == NotebookT || r.table == PageT || r.table == StrokeT || r.table == ServerTextT
  {
  }

  /** Text boxes and client page text are not touched: a live box on a page that dies stays live. */
  lemma TextBoxesOutlive(reg: Registry, m: Table, m': Table, nb: string, now: int, box: Row, p: Row)
    requires DeletedOver(reg, m, m, m', nb, now) && (box.table == TextBoxT || box.table == ClientTextT) && box in m
    requires p in LivePages(m, nb)
    ensures box in m' && m'[box] == m[box] && p in m' && Tombstone(reg, m'[p])
    ensures Live(m[box]) && Get(m[box], PageId) == Str(p.pk) ==> Live(m'[box]) && Get(m'[box], PageId) == Str(p.pk)
  {
    Untouched(reg, m, m', nb, now, box);
    assert p in Doomed(m, nb);
  }

  lemma DeadMarked(m: Table, r: Row, now: int)
    requires r in m || r.table == ServerTextT
    ensures MarksDead(DeadCols(m, r, now))
  {
  }

  lemma DoomedCases(m: Table, nb: string, r: Row)
    requires r in Doomed(m, nb) && Row(NotebookT, nb) in m
    ensures (r in m && (r.table == NotebookT || r.table == PageT || r.table == StrokeT))
            || (r.table == ServerTextT && Row(PageT, r.pk) in m)
  {
  }

  lemma DoomedAuthorable(reg: Registry, db: Db, nb: string, now: int, r: Row)
    requires StoreOk(reg, db) && NoteSchema(reg) && Row(NotebookT, nb) in db.mirror && r in Doomed(db.mirror, nb)
    ensures Authorable(reg, db.site, DeadOp(db.mirror, r, now))
    ensures Normalize(reg, Complete(reg, DeadOp(db.mirror, r, now))).cols == DeadCols(db.mirror, r, now)
    ensures Deletable(reg, r.table) && MarksDead(DeadCols(db.mirror, r, now))
  {
    DoomedCases(db.mirror, nb, r);
    DeadMarked(db.mirror, r, now);
    if r.table == ServerTextT {
      PageTextAuthorable(reg, db.site, DeadOp(db.mirror, r, now), now);
    } else {
      DeadRowAuthorable(reg, db, r, now);
    }
  }

  /** The stamped op of a doomed row materialises to its dead row. */
  lemma StampedDead(reg: Registry, db: Db, nb: string, now: int, r: Row, o: Op)
    requires StoreOk(reg, db) && NoteSchema(reg) && Row(NotebookT, nb) in db.mirror && r in Doomed(db.mirror, nb)
    requires RowOf(o) == r && o.cols == Complete(reg, DeadOp(db.mirror, r, now)).cols
    ensures Normalize(reg, o).cols == DeadCols(db.mirror, r, now)
    ensures Tombstone(reg, Normalize(reg, o))
  {
    DoomedAuthorable(reg, db, nb, now, r);
  }

  /**
   Between the reads and the authoring other transactions may commit. The rows found doomed die with
   the columns that were read, whatever was pushed to them since; every other row, and so any stroke
   or page that arrived in between, is left as it now is.
   */
  lemma DeleteRace(reg: Registry, db: Db, db2: Db, nb: string, now: int, clock: int, ops: seq<Op>)
    requires StoreOk(reg, db) && StoreOk(reg, db2) && db2.site == db.site && NoteSchema(reg) && Row(NotebookT, nb) in db.mirror
    requires Collected(db.mirror, now, ops, Doomed(db.mirror, nb))
    requires Max(clock, db2.lastHlc) + |ops| <= MAX_INT64
    ensures AuthorAll(reg, db2, ops, clock).Some?
    ensures var m' := AuthorAll(reg, db2, ops, clock).value.mirror;
            DeletedOver(reg, db.mirror, db2.mirror, m', nb, now) && NotebookGone(db.mirror, db2.mirror, m', nb, now)
  {
    forall i | 0 <= i < |ops|
      ensures Authorable(reg, db.site, ops[i])
    {
      DoomedAuthorable(reg, db, nb, now, RowOf(ops[i]));
    }
    AuthorAllSucceeds(reg, db2, ops, clock);
    AuthorAllWins(reg, db2, ops, clock);
    var os := AuthoredOps(reg, db2, ops, clock);
    StampedOverlay(reg, db, db2, nb, now, ops, os);
    DeleteMeans(reg, db.mirror, db2.mirror, AuthorAll(reg, db2, ops, clock).value.mirror, nb, now);
  }

  lemma StampedOverlay(reg: Registry, db: Db, db2: Db, nb: string, now: int, ops: seq<Op>, os: seq<Op>)
    requires StoreOk(reg, db) && NoteSchema(reg) && Row(NotebookT, nb) in db.mirror
    requires Collected(db.mirror, now, ops, Doomed(db.mirror, nb))
    requires StampedFrom(reg, db2, ops, os)
    ensures DeletedOver(reg, db.mirror, db2.mirror, Overlay(reg, db2.mirror, os), nb, now)
  {
    var m, m' := db.mirror, Overlay(reg, db2.mirror, os);
    OverlayDistinct(reg, db2.mirror, os);
    forall r | r in Doomed(m, nb)
      ensures r in m' && Tombstone(reg, m'[r]) && m'[r].cols == DeadCols(m, r, now)
    {
      var i :| 0 <= i < |ops| && RowOf(ops[i]) == r;
      StampedDead(reg, db, nb, now, r, os[i]);
    }
  }

  /** With nothing in between, exactly the doomed rows change. */
  lemma DeleteOutcome(reg: Registry, db: Db, nb: string, now: int, clock: int, ops: seq<Op>)
    requires StoreOk(reg, db) && NoteSchema(reg) && Row(NotebookT, nb) in db.mirror
    requires Collected(db.mirror, now, ops, Doomed(db.mirror, nb))
    requires Max(clock, db.lastHlc) + |ops| <= MAX_INT64
    ensures AuthorAll(reg, db, ops, clock).Some?
    ensures var m' := AuthorAll(reg, db, ops, clock).value.mirror;
            DeletedOver(reg, db.mirror, db.mirror, m', nb, now) && NotebookGone(db.mirror, db.mirror, m', nb, now)
  {
    DeleteRace(reg, db, db, nb, now, clock, ops);
  }

  datatype DeleteResult = NoSuchNotebook | DeleteRefused | Deleted(pages: seq<string>)

  /** One delete op for every doomed row, and the live pages found on the way. */
  method CollectDoomed(m: Table, nb: string, now: int) returns (ops: seq<Op>, pages: seq<string>)
    requires Row(NotebookT, nb) in m
    ensures Collected(m, now, ops, Doomed(m, nb)) && |ops| <= 1 + 3 * |m|
    ensures forall i, j :: 0 <= i < j < |pages| ==> pages[i] != pages[j]
    ensures forall pk :: pk in pages <==> Row(PageT, pk) in LivePages(m, nb)
  {
    var live, strokes := LivePages(m, nb), LiveStrokes(m, nb);
    var head := {Row(NotebookT, nb)};
    DoomedDisjoint(m, nb);
    ops := [DeadOp(m, Row(NotebookT, nb), now)];
    FirstCollected(m, Row(NotebookT, nb), now);
    var pageRows := Scan(live);
    ops := CollectRows(m, now, ops, head, pageRows);
    var strokeRows := Scan(strokes);
    ops := CollectRows(m, now, ops, head + live, strokeRows);
    var textRows := Scan(PageTexts(live));
    ops := CollectRows(m, now, ops, head + live + strokes, textRows);
    SetBounds(m, live, strokes);
    pages := Pks(pageRows);
    PksOfPages(pageRows, m, nb);
  }

  lemma FirstCollected(m: Table, r: Row, now: int)
    ensures Collected(m, now, [DeadOp(m, r, now)], {r})
  {
    assert RowOf([DeadOp(m, r, now)][0]) == r;
  }

  lemma DoomedDisjoint(m: Table, nb: string)
    ensures var live, strokes, head := LivePages(m, nb), LiveStrokes(m, nb), {Row(NotebookT, nb)};
            && head !! live && (head + live) !! strokes && (head + live + strokes) !! PageTexts(live)
            && head + live + strokes + PageTexts(live) == Doomed(m, nb)
            && live <= m.Keys && strokes <= m.Keys
  {
  }

  /** Delete a notebook by authoring tombstones; returns the pages that were live. */
  method SoftDeleteNotebook(s: Store, nb: string, now: int, clock: int) returns (r: DeleteResult)
    requires StoreOk(s.reg, s.Snapshot()) && NoteSchema(s.reg)
    requires Max(clock, s.lastHlc) + 1 + 3 * |s.mirror| <= MAX_INT64
    modifies s
    ensures r.NoSuchNotebook? <==> Row(NotebookT, nb) !in old(s.mirror)
    ensures r.NoSuchNotebook? ==> s.Snapshot() == old(s.Snapshot())
    ensures !r.DeleteRefused?
    ensures r.Deleted? ==> NotebookGone(old(s.mirror), old(s.mirror), s.mirror, nb, now)
    ensures r.Deleted? ==> DeletedOver(s.reg, old(s.mirror), old(s.mirror), s.mirror, nb, now)
    ensures r.Deleted? ==> (forall i, j :: 0 <= i < j < |r.pages| ==> r.pages[i] != r.pages[j])
    ensures r.Deleted? ==> forall pk :: pk in r.pages <==> PageIn(old(s.mirror), Row(PageT, pk), nb)
  {
    if Row(NotebookT, nb) !in s.mirror {
      return NoSuchNotebook;
    }
    var ops, pages := CollectDoomed(s.mirror, nb, now);
    PageIff(s.mirror, nb);
    DeleteOutcome(s.reg, s.Snapshot(), nb, now, clock, ops);
    var ok := s.AuthorOps(ops, clock);
    r := if ok then Deleted(pages) else DeleteRefused;
  }

  function Pks(rows: seq<Row>): (r: seq<string>)
    ensures |r| == |rows| && forall i | 0 <= i < |rows| :: r[i] == rows[i].pk
  {
    if rows == [] then [] else [rows[0].pk] + Pks(rows[1..])
  }

  lemma PksOfPages(rows: seq<Row>, m: Table, nb: string)
    requires Elements(rows) == LivePages(m, nb)
    requires forall i, j :: 0 <= i < j < |rows| ==> rows[i] != rows[j]
    ensures forall i, j :: 0 <= i < j < |rows| ==> Pks(rows)[i] != Pks(rows)[j]
    ensures forall pk :: pk in Pks(rows) <==> Row(PageT, pk) in LivePages(m, nb)
  {
    forall i | 0 <= i < |rows|
      ensures rows[i] == Row(PageT, Pks(rows)[i])
    {
      assert rows[i] in Elements(rows);
    }
    forall pk
      ensures pk in Pks(rows) <==> Row(PageT, pk) in LivePages(m, nb)
    {
      PkOfPage(rows, Pks(rows), pk);
    }
  }

  lemma PkOfPage(rows: seq<Row>, pks: seq<string>, pk: string)
    requires |pks| == |rows| && forall i :: 0 <= i < |rows| ==> rows[i] == Row(PageT, pks[i])
    ensures pk in pks <==> Row(PageT, pk) in Elements(rows)
  {
    if pk in pks {
      var i :| 0 <= i < |pks| && pks[i] == pk;
      assert rows[i] in Elements(rows);
    }
    if Row(PageT, pk) in Elements(rows) {
      var i :| 0 <= i < |rows| && rows[i] == Row(PageT, pk);
      assert pks[i] == pk;
    }
  }

  lemma SetBounds(m: Table, pages: set<Row>, strokes: set<Row>)
    requires pages <= m.Keys && strokes <= m.Keys
    ensures |pages| <= |m| && |strokes| <= |m| && |PageTexts(pages)| <= |pages|
  {
    SubsetSize(pages, m.Keys);
    SubsetSize(strokes, m.Keys);
    PageTextsSize(pages);
  }

  lemma {:induction false} PageTextsSize(pages: set<Row>)
    ensures |PageTexts(pages)| <= |pages|
  {
    if pages != {} {
      var p :| p in pages;
      PageTextsSize(pages - {p});
      assert PageTexts(pages) == PageTexts(pages - {p}) + {Row(ServerTextT, p.pk)};
    }
  }

  datatype EditResult = NotFound | AlreadyDeleted | EditRefused | Edited(page: Value)

  /** The edit op of a box as it was read. */
  function EditOp(row: Op, boxId: string, newText: string): Op {
    Op(TextBoxT, boxId, "", 0, 0, row.cols[TextContent := Str(newText)])
  }

  /**
   With other transactions between the read and the authoring, the box ends with the new text and
   all other columns as they were read, whatever was pushed to it since; no other row changes.
   */
  lemma EditRace(reg: Registry, db: Db, db2: Db, boxId: string, newText: string, clock: int)
    requires StoreOk(reg, db) && StoreOk(reg, db2) && db2.site == db.site && Declares(Columns(reg, TextBoxT), TextContent, TextCol)
    requires Row(TextBoxT, boxId) in db.mirror && Max(clock, db2.lastHlc) < MAX_INT64
    ensures var k := Row(TextBoxT, boxId);
            var a := AuthorOne(reg, db2, EditOp(db.mirror[k], boxId, newText), clock);
            && a.Some? && k in a.value.mirror && a.value.mirror == db2.mirror[k := a.value.mirror[k]]
            && a.value.mirror[k].cols == db.mirror[k].cols[TextContent := Str(newText)]
  {
    var row := db.mirror[Row(TextBoxT, boxId)];
    var op := EditOp(row, boxId, newText);
    RewriteAuthorable(reg, db.site, row, TextContent, TextCol, Str(newText), op);
    AuthorOneSucceeds(reg, db2, op, clock);
    AuthorOneWins(reg, db2, op, clock);
  }

  /** Rewrite one text box: only its text changes, and only in that row. */
  method EditTextBoxText(s: Store, boxId: string, newText: string, clock: int) returns (r: EditResult)
    requires StoreOk(s.reg, s.Snapshot()) && Declares(Columns(s.reg, TextBoxT), TextContent, TextCol)
    requires Max(clock, s.lastHlc) < MAX_INT64
    modifies s
    ensures r.NotFound? <==> Row(TextBoxT, boxId) !in old(s.mirror)
    ensures r.AlreadyDeleted? <==> Row(TextBoxT, boxId) in old(s.mirror) && !Alive(old(s.mirror)[Row(TextBoxT, boxId)])
    ensures !r.EditRefused?
    ensures !r.Edited? ==> s.Snapshot() == old(s.Snapshot())
    ensures r.Edited? ==>
              var k := Row(TextBoxT, boxId);
              && s.mirror.Keys == old(s.mirror).Keys
              && s.mirror[k].cols == old(s.mirror)[k].cols[TextContent := Str(newText)]
              && (forall x :: x in s.mirror && x != k ==> s.mirror[x] == old(s.mirror)[x])
              && (PageId in old(s.mirror)[k].cols ==> r.page == old(s.mirror)[k].cols[PageId])
  {
    var k := Row(TextBoxT, boxId);
    if k !in s.mirror {
      return NotFound;
    }
    var row := s.mirror[k];
    if !Live(row) {
      return AlreadyDeleted;
    }
    ghost var db := s.Snapshot();
    var op := EditOp(row, boxId, newText);
    EditRace(s.reg, db, db, boxId, newText, clock);
    assert [op][..0] == [];
    assert AuthorAll(s.reg, db, [], clock) == Some(db);
    assert AuthorAll(s.reg, db, [op], clock) == AuthorOne(s.reg, db, op, clock);
    var ok := s.AuthorOps([op], clock);
    r := if ok then Edited(Get(row, PageId)) else EditRefused;
  }
}
