/**
 What a push does with each op under the synced schema, told without the schema's own checks: which
 ops are refused and why, which change nothing, what is appended and what the row then holds.
 */
module Admission {
  import opened Ops
  import Reconcile
  import opened SyncState
  import opened SyncRuns
  import opened Clock
  import opened Inventory
  import opened Schema
  import opened Kinds
  import Text
  import Ulid
  import Basics

  /** A registry that declares the synced tables column for column. */
  ghost predicate Synced(reg: Registry) {
    && (forall t :: t in reg.tables ==> !t.OtherT?)
    && (forall t: TableName :: !t.OtherT? ==> t in reg.tables && Shaped(reg.tables[t], ShapeOf(t)))
    && (forall t: TableName :: Completes(Defaults(reg, t), t))
  }

  lemma ForestNoteSynced()
    ensures Synced(FOREST_NOTE)
  {
    forall t | t in FOREST_NOTE.tables ensures !t.OtherT? {
      OtherTable(t);
    }
    forall t: TableName | !t.OtherT? ensures t in FOREST_NOTE.tables && Shaped(FOREST_NOTE.tables[t], ShapeOf(t)) {
      SchemaDeclares(t);
    }
    forall t: TableName ensures Completes(Defaults(FOREST_NOTE, t), t) {
      OlderValues(t);
    }
  }

  // ---- one op ----

  /** The columns of an op with the newer ones filled in where they were left out. */
  function Filled(op: Op): map<ColName, Value> {
    map c | c in op.cols.Keys + Newer(op.table) :: if c in op.cols then op.cols[c] else OlderValue(c)
  }

  /** Those of them that the table materialises. */
  function Stored(op: Op): map<ColName, Value>
    requires !op.table.OtherT?
  {
    map c | c in Filled(op) && c in ShapeOf(op.table).All() :: Filled(op)[c]
  }

  /** A known table, canonical ids, a positive op_seq, and no column missing that older clients know. */
  ghost predicate Formed(op: Op) {
    && !op.table.OtherT? && Ulid.IsULID(op.pk) && Ulid.IsULID(op.site) && op.opSeq > 0
    && ShapeOf(op.table).All() - Newer(op.table) <= op.cols.Keys
  }

  /** The first thing wrong with an op that is refused. */
  ghost function WhyNot(op: Op): Reason {
    if op.table.OtherT? then UnknownTable
    else if !Ulid.IsULID(op.pk) then BadPk
    else if !Ulid.IsULID(op.site) then BadSite
    else if op.opSeq <= 0 then BadOpSeq
    else if !(ShapeOf(op.table).All() - Newer(op.table) <= op.cols.Keys) then MissingColumn
    else BadType
  }

  ghost predicate Seen(d: Db, op: Op) {
    exists e :: e in d.log && e.op.site == op.site && e.op.opSeq == op.opSeq
  }

  /** The row is new, or what it holds is older by timestamp, then op_seq, then site. */
  ghost predicate Ahead(d: Db, op: Op) {
    Row(op.table, op.pk) !in d.mirror
    || var w := d.mirror[Row(op.table, op.pk)];
       w.ts < op.ts || (w.ts == op.ts && (w.opSeq < op.opSeq || (w.opSeq == op.opSeq && Text.StrLess(w.site, op.site))))
  }

  /** What one pushed op does to the database and to the list of rejections. */
  ghost predicate Takes(d: Db, op: Op, d': Db, reported: seq<Rejection>) {
    if !Formed(op) || (!Seen(d, op) && Ahead(d, op) && !ShapeOf(op.table).Reads(Filled(op))) then
      d' == d && reported == [Rejection(op.site, op.opSeq, WhyNot(op))]
    else if Seen(d, op) then
      d' == d && reported == []
    else
      && reported == []
      && d'.log == d.log + [Entry(d.lastSeq + 1, op.(cols := Filled(op)))] && d'.lastSeq == d.lastSeq + 1
      && d'.mirror == (if Ahead(d, op) then d.mirror[Row(op.table, op.pk) := op.(cols := Stored(op))] else d.mirror)
      && d'.cursors == d.cursors && d'.site == d.site && d'.siteOpSeq == d.siteOpSeq && d'.lastHlc == d.lastHlc
  }

  lemma CompleteFilled(reg: Registry, op: Op)
    requires Synced(reg)
    ensures Complete(reg, op) == op.(cols := Filled(op))
  {
    assert Completes(Defaults(reg, op.table), op.table);
    assert Complete(reg, op).cols == Filled(op);
  }

  lemma MissingIff(reg: Registry, op: Op)
    requires Synced(reg) && !op.table.OtherT?
    ensures (exists c :: c in reg.tables[op.table] && c !in Filled(op)) <==> !(ShapeOf(op.table).All() - Newer(op.table) <= op.cols.Keys)
  {
    var columns, sh := reg.tables[op.table], ShapeOf(op.table);
    assert Shaped(columns, sh);
    DeclaredKeys(columns, sh);
    if !(sh.All() - Newer(op.table) <= op.cols.Keys) {
      var c :| c in sh.All() && c !in Newer(op.table) && c !in op.cols;
      assert c in columns && c !in Filled(op);
    }
  }

  lemma ValidateIff(reg: Registry, op: Op)
    requires Synced(reg)
    ensures Validate(reg, Complete(reg, op)) ==
            if Formed(op) then Basics.None else Basics.Some(WhyNot(op))
  {
    CompleteFilled(reg, op);
    if !op.table.OtherT? {
      MissingIff(reg, op);
    }
  }

  lemma StoredIs(reg: Registry, op: Op)
    requires Synced(reg) && !op.table.OtherT?
    ensures Normalize(reg, Complete(reg, op)) == op.(cols := Stored(op))
    ensures WellTyped(reg, Complete(reg, op)) <==> ShapeOf(op.table).Reads(Filled(op))
  {
    CompleteFilled(reg, op);
    var columns, sh := reg.tables[op.table], ShapeOf(op.table);
    assert Shaped(columns, sh);
    DeclaredKeys(columns, sh);
    TypedReads(columns, sh, Filled(op));
    assert Normalize(reg, Complete(reg, op)).cols == Stored(op);
  }

  lemma SameTests(reg: Registry, d: Db, op: Op)
    requires Synced(reg)
    ensures Reconcile.Beats(d.mirror, Complete(reg, op)) <==> Ahead(d, op)
    ensures Logged(d.log, op.site, op.opSeq) <==> Seen(d, op)
  {
  }

  lemma OneRefused(reg: Registry, d: Db, op: Op)
    requires Synced(reg) && !Formed(op)
    ensures Takes(d, op, Admit(reg, d, op), RejectionOf(reg, d, op))
  {
    CompleteFilled(reg, op);
    ValidateIff(reg, op);
  }

  lemma OneTakes(reg: Registry, d: Db, op: Op)
    requires Synced(reg)
    ensures Takes(d, op, Admit(reg, d, op), RejectionOf(reg, d, op))
  {
    if Formed(op) {
      CompleteFilled(reg, op);
      ValidateIff(reg, op);
      StoredIs(reg, op);
      SameTests(reg, d, op);
      AdmitOutcome(reg, d, op, Complete(reg, op));
    } else {
      OneRefused(reg, d, op);
    }
  }

  /** What admitting a valid op does, on every branch. */
  lemma AdmitOutcome(reg: Registry, d: Db, op: Op, o: Op)
    requires o == Complete(reg, op) && Validate(reg, o) == Basics.None
    ensures var seen, ahead := Logged(d.log, o.site, o.opSeq), Reconcile.Beats(d.mirror, o);
            && RejectionOf(reg, d, op) == (if !seen && ahead && !WellTyped(reg, o) then [Rejection(o.site, o.opSeq, BadType)] else [])
            && Admit(reg, d, op) ==
               if seen || (ahead && !WellTyped(reg, o)) then d
               else d.(lastSeq := d.lastSeq + 1, log := d.log + [Entry(d.lastSeq + 1, o)],
                       mirror := if ahead then d.mirror[RowOf(o) := Normalize(reg, o)] else d.mirror)
  {
  }

  // ---- a batch ----

  /** Each op of a batch in turn, on the state the ones before it left. */
  lemma PushTakes(db: Db, ops: seq<Op>, i: nat)
    requires i < |ops|
    ensures var before, after := AdmitAll(FOREST_NOTE, db, ops[..i]), AdmitAll(FOREST_NOTE, db, ops[..i + 1]);
            var told, all := RejectAll(FOREST_NOTE, db, ops[..i]), RejectAll(FOREST_NOTE, db, ops[..i + 1]);
            told <= all && Takes(before, ops[i], after, all[|told|..])
  {
    ForestNoteSynced();
    assert ops[..i + 1][..i] == ops[..i];
    var told := RejectAll(FOREST_NOTE, db, ops[..i]);
    var mid := AdmitAll(FOREST_NOTE, db, ops[..i]);
    OneTakes(FOREST_NOTE, mid, ops[i]);
    assert (told + RejectionOf(FOREST_NOTE, mid, ops[i]))[|told|..] == RejectionOf(FOREST_NOTE, mid, ops[i]);
  }

  /** A push of one op, whole: nothing but the changelog, the row and the sender's cursor and clock can change. */
  lemma PushOne(db: Db, device: string, op: Op, now: int)
    ensures var d := ApplyBatch(FOREST_NOTE, db, device, [op], now);
            Takes(db, op, d.(cursors := db.cursors, lastHlc := db.lastHlc), RejectAll(FOREST_NOTE, db, [op]))
  {
    ForestNoteSynced();
    assert [op][..0] == [];
    OneTakes(FOREST_NOTE, db, op);
    assert AdmitAll(FOREST_NOTE, db, [op]) == Admit(FOREST_NOTE, db, op);
    assert RejectAll(FOREST_NOTE, db, [op]) == [] + RejectionOf(FOREST_NOTE, db, op);
  }

  // ---- what the mirror holds, and what may be authored ----

  /** In every run each mirror row has the columns of its table, each of the kind it is read as, and no others. */
  lemma RunReads(site: string, steps: seq<Step>, r: Row)
    requires r in Run(FOREST_NOTE, Start(site), steps).db.mirror
    ensures var w := Run(FOREST_NOTE, Start(site), steps).db.mirror[r];
            && w.table == r.table && w.pk == r.pk && !r.table.OtherT?
            && Ulid.IsULID(r.pk) && Ulid.IsULID(w.site) && w.opSeq > 0
            && w.cols.Keys == ShapeOf(r.table).All() && ShapeOf(r.table).Reads(w.cols)
  {
    ForestNoteSynced();
    RunTyped(FOREST_NOTE, site, steps);
    var w := Run(FOREST_NOTE, Start(site), steps).db.mirror[r];
    var columns, sh := FOREST_NOTE.tables[w.table], ShapeOf(w.table);
    assert Shaped(columns, sh);
    DeclaredKeys(columns, sh);
    TypedReads(columns, sh, w.cols);
    assert Normalize(FOREST_NOTE, w).cols == w.cols;
  }

  /** Acceptable, for the runs whose mirror depends on the acceptable ops alone, are the formed ops whose columns all read. */
  lemma AcceptableIff(op: Op)
    ensures Acceptable(FOREST_NOTE, Complete(FOREST_NOTE, op)) <==> Formed(op) && ShapeOf(op.table).Reads(Filled(op))
  {
    ForestNoteSynced();
    ValidateIff(FOREST_NOTE, op);
    if Formed(op) {
      StoredIs(FOREST_NOTE, op);
    }
  }

  /** The server may author an op on a known table under a canonical key whose columns all read. */
  lemma AuthorableIff(site: string, op: Op)
    ensures Authorable(FOREST_NOTE, site, op) <==>
            && !op.table.OtherT? && Ulid.IsULID(op.pk) && Ulid.IsULID(site)
            && ShapeOf(op.table).All() - Newer(op.table) <= op.cols.Keys && ShapeOf(op.table).Reads(Filled(op))
  {
    var o := op.(site := site, opSeq := 1);
    assert Complete(FOREST_NOTE, op).(site := site, opSeq := 1) == Complete(FOREST_NOTE, o);
    assert Filled(o) == Filled(op);
    AcceptableIff(o);
  }

  /** A delete is an op on a synced table whose deletion time is there and not null. */
  lemma TombstoneIff(op: Op)
    ensures Tombstone(FOREST_NOTE, op) <==> !op.table.OtherT? && DeletedAt in op.cols && op.cols[DeletedAt] != Null
  {
    TombstoneTables(op.table);
  }
}
