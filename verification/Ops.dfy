/**
 The op model and the last-writer-wins order. An op is a full-row upsert; its identity is
 (site, opSeq) and its ordering key is (ts, opSeq, site).
 */
module Ops {
  import opened Basics
  import opened Text
  import Ulid

  /**
   A JSON value as the column that carries it sees it. In a column of bytes a string that decodes as
   base64 is `Blob` and any other string is `Str`; in every other column a string is `Str`.
   */
  datatype Value = Null | Num(n: int) | Str(s: string) | Blob(bytes: seq<int>) | Other

  /** The synced tables; anything else a client may name is `OtherT`. */
  datatype TableName = FolderT | NotebookT | PageT | StrokeT | TextBoxT | ServerTextT | ClientTextT | OtherT(name: string)

  /** The declared columns; forward-compatible extras are `OtherCol`. */
  datatype ColName =
    | AspectLongAxis | BorderWidth | BrushKind | BrushSeed | BrushVersion | Color | CreatedAt | DeletedAt | FolderId
    | FontName | FontSize | Height | ModelName | NameCol | NotebookId | OcrAt | PageHeight | PageId | PageWidth
    | ParentFolderId | PenWidthMax | PenWidthMin | PointDynamics | Points | SortOrder | Template | TemplatePitchMm
    | TextContent | Weight | Width | X | Y | Z | OtherCol(name: string)

  datatype ColType = IntCol | NullIntCol | TextCol | NullTextCol | BytesCol | NullBytesCol

  /** The synced schema: columns per table, the soft-delete column, and values filled in for older clients. */
  datatype Registry = Registry(tables: map<TableName, map<ColName, ColType>>,
                               tombstones: map<TableName, ColName>,
                               defaults: map<TableName, map<ColName, Value>>)

  datatype Row = Row(table: TableName, pk: string)

  datatype Op = Op(table: TableName, pk: string, site: string, opSeq: int, ts: int, cols: map<ColName, Value>)

  datatype Reason = UnknownTable | BadPk | BadSite | BadOpSeq | MissingColumn | BadType

  function RowOf(op: Op): Row {
    Row(op.table, op.pk)
  }

  predicate SameId(a: Op, b: Op) {
    a.site == b.site && a.opSeq == b.opSeq
  }

  // ---- the order ----

  predicate Less(a: Op, b: Op) {
    if a.ts != b.ts then a.ts < b.ts
    else if a.opSeq != b.opSeq then a.opSeq < b.opSeq
    else StrLess(a.site, b.site)
  }

  lemma LessIrreflexive(a: Op, b: Op)
    requires a.ts == b.ts && SameId(a, b)
    ensures !Less(a, b)
  {
    StrLessIrreflexive(a.site);
  }

  /** Strict total order on keys: two ops that do not beat each other have the same key. */
  lemma LessConnected(a: Op, b: Op)
    requires !Less(a, b) && !Less(b, a)
    ensures a.ts == b.ts && SameId(a, b)
  {
    StrLessConnected(a.site, b.site);
  }

  /** a <= b <= c gives a <= c, where x <= y is "y does not lose to x". */
  lemma LeqTransitive(a: Op, b: Op, c: Op)
    requires !Less(b, a) && !Less(c, b)
    ensures !Less(c, a)
  {
    if a.ts == b.ts == c.ts && a.opSeq == b.opSeq == c.opSeq {
      StrNotLessTransitive(a.site, b.site, c.site);
    }
  }

  lemma LessAsymmetric(a: Op, b: Op)
    requires Less(a, b)
    ensures !Less(b, a)
  {
    if a.ts == b.ts && a.opSeq == b.opSeq && StrLess(b.site, a.site) {
      StrLessTransitive(a.site, b.site, a.site);
      StrLessIrreflexive(a.site);
    }
  }

  // ---- completion, validation, materialisation ----

  function Columns(reg: Registry, table: TableName): map<ColName, ColType> {
    if table in reg.tables then reg.tables[table] else map[]
  }

  function Defaults(reg: Registry, table: TableName): map<ColName, Value> {
    if table in reg.defaults then reg.defaults[table] else map[]
  }

  /** Fill in the columns an older client omits; present columns are never overwritten. */
  function Complete(reg: Registry, op: Op): Op {
    op.(cols := Defaults(reg, op.table) + op.cols)
  }

  lemma CompleteIdempotent(reg: Registry, op: Op)
    ensures Complete(reg, Complete(reg, op)) == Complete(reg, op)
  {
    var d := Defaults(reg, op.table);
    assert d + (d + op.cols) == d + op.cols;
  }

  /** Keep only the columns the table declares. */
  function Normalize(reg: Registry, op: Op): Op {
    op.(cols := map name | name in op.cols && name in Columns(reg, op.table) :: op.cols[name])
  }

  function Validate(reg: Registry, op: Op): Option<Reason> {
    if op.table !in reg.tables then Some(UnknownTable)
    else if !Ulid.IsULID(op.pk) then Some(BadPk)
    else if !Ulid.IsULID(op.site) then Some(BadSite)
    else if op.opSeq <= 0 then Some(BadOpSeq)
    else if exists c :: c in reg.tables[op.table] && c !in op.cols then Some(MissingColumn)
    else None
  }

  predicate TypeOk(ty: ColType, v: Value) {
    match ty
    case IntCol => v.Num?
    case NullIntCol => v.Null? || v.Num?
    case TextCol => v.Str?
    case NullTextCol => v.Null? || v.Str?
    case BytesCol => v.Blob?
    case NullBytesCol => v.Null? || v.Blob?
  }

  /** What materialising a winning op checks: every declared column has its declared type. */
  predicate WellTyped(reg: Registry, op: Op) {
    forall c :: c in Columns(reg, op.table) ==> c in op.cols && TypeOk(Columns(reg, op.table)[c], op.cols[c])
  }

  predicate Tombstone(reg: Registry, op: Op) {
    op.table in reg.tombstones && reg.tombstones[op.table] in op.cols && !op.cols[reg.tombstones[op.table]].Null?
  }

  /** The soft-delete column of a table is one of its columns. */
  predicate RegistryOk(reg: Registry) {
    forall t :: t in reg.tombstones ==> reg.tombstones[t] in Columns(reg, t)
  }

  lemma NormalizeTombstone(reg: Registry, op: Op)
    requires RegistryOk(reg)
    ensures Tombstone(reg, Normalize(reg, op)) == Tombstone(reg, op)
  {
  }

  lemma NormalizeIdempotent(reg: Registry, op: Op)
    ensures Normalize(reg, Normalize(reg, op)) == Normalize(reg, op)
  {
    assert Normalize(reg, Normalize(reg, op)).cols == Normalize(reg, op).cols;
  }
}
