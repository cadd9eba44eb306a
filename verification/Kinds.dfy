/**
 What a push accepts under the synced schema, and what it then stores, told column by column:
 the columns every table must carry, the kind of value each is read as, and the values an older
 client leaves out.
 */
module Kinds {
  import opened Ops
  import opened Schema

  type Cols = map<ColName, Value>

  predicate IsNumber(cols: Cols, c: ColName) {
    c in cols && cols[c].Num?
  }

  predicate IsText(cols: Cols, c: ColName) {
    c in cols && cols[c].Str?
  }

  predicate IsBytes(cols: Cols, c: ColName) {
    c in cols && cols[c].Blob?
  }

  predicate IsNumberOrNull(cols: Cols, c: ColName) {
    c in cols && (cols[c].Null? || cols[c].Num?)
  }

  predicate IsTextOrNull(cols: Cols, c: ColName) {
    c in cols && (cols[c].Null? || cols[c].Str?)
  }

  predicate IsBytesOrNull(cols: Cols, c: ColName) {
    c in cols && (cols[c].Null? || cols[c].Blob?)
  }

  /** The columns of a table, by the kind of value each is read as. */
  datatype Shape = Shape(numbers: set<ColName>, texts: set<ColName>, nullableNumbers: set<ColName>, nullableTexts: set<ColName>,
                         bytes: set<ColName>, nullableBytes: set<ColName>)
  {
    function All(): set<ColName> {
      numbers + texts + nullableNumbers + nullableTexts + bytes + nullableBytes
    }

    /** Every column holds a value of its kind. */
    ghost predicate Reads(cols: Cols) {
      && (forall c :: c in numbers ==> IsNumber(cols, c))
      && (forall c :: c in texts ==> IsText(cols, c))
      && (forall c :: c in nullableNumbers ==> IsNumberOrNull(cols, c))
      && (forall c :: c in nullableTexts ==> IsTextOrNull(cols, c))
      && (forall c :: c in bytes ==> IsBytes(cols, c))
      && (forall c :: c in nullableBytes ==> IsBytesOrNull(cols, c))
    }
  }

  const FOLDER := Shape({SortOrder, CreatedAt}, {NameCol}, {DeletedAt}, {ParentFolderId}, {}, {})

  const NOTEBOOK := Shape({SortOrder, CreatedAt}, {NameCol}, {DeletedAt, AspectLongAxis, PageWidth, PageHeight}, {FolderId}, {}, {})

  const PAGE := Shape({SortOrder, CreatedAt}, {NotebookId}, {DeletedAt, TemplatePitchMm}, {Template}, {}, {})

  const STROKE := Shape({Color, PenWidthMin, PenWidthMax, BrushVersion, BrushSeed, Z, CreatedAt}, {PageId, BrushKind},
                        {DeletedAt}, {}, {Points}, {PointDynamics})

  const TEXT_BOX := Shape({X, Y, Width, Height, FontSize, Color, Weight, BorderWidth, Z, CreatedAt},
                          {PageId, TextContent, FontName}, {DeletedAt}, {}, {}, {})

  const PAGE_TEXT := Shape({OcrAt, CreatedAt}, {TextContent}, {DeletedAt}, {ModelName}, {}, {})

  function ShapeOf(t: TableName): Shape
    requires !t.OtherT?
  {
    match t
    case FolderT => FOLDER
    case NotebookT => NOTEBOOK
    case PageT => PAGE
    case StrokeT => STROKE
    case TextBoxT => TEXT_BOX
    case ServerTextT => PAGE_TEXT
    case ClientTextT => PAGE_TEXT
  }

  /** The columns an older client leaves out. */
  function Newer(t: TableName): set<ColName> {
    if t == NotebookT then {PageWidth, PageHeight}
    else if t == StrokeT then {BrushKind, BrushVersion, BrushSeed, PointDynamics}
    else {}
  }

  /** What such a column is taken to hold. */
  function OlderValue(c: ColName): Value {
    if c == BrushKind then Str("fountain")
    else if c == BrushVersion then Num(1)
    else if c == BrushSeed then Num(0)
    else Null
  }

  // ---- the schema says the same ----

  /** A column map declares these columns, each with the type of its kind, and no others. */
  ghost predicate Shaped(columns: map<ColName, ColType>, sh: Shape) {
    && OfType(columns, sh.numbers, IntCol) && OfType(columns, sh.texts, TextCol)
    && OfType(columns, sh.nullableNumbers, NullIntCol) && OfType(columns, sh.nullableTexts, NullTextCol)
    && OfType(columns, sh.bytes, BytesCol) && OfType(columns, sh.nullableBytes, NullBytesCol)
    && NoOthers(columns, sh)
  }

  ghost predicate OfType(columns: map<ColName, ColType>, names: set<ColName>, ty: ColType) {
    forall c :: c in names ==> c in columns && columns[c] == ty
  }

  ghost predicate NoOthers(columns: map<ColName, ColType>, sh: Shape) {
    forall c :: c in columns ==> c in sh.All()
  }

  lemma FolderKeys()
    ensures NoOthers(FOLDER_COLUMNS, FOLDER)
  {
  }

  lemma FolderDeclares()
    ensures Shaped(FOLDER_COLUMNS, FOLDER)
  {
    FolderKeys();
  }

  lemma NotebookKeys()
    ensures NoOthers(NOTEBOOK_COLUMNS, NOTEBOOK)
  {
  }

  lemma NotebookNumbers()
    ensures OfType(NOTEBOOK_COLUMNS, NOTEBOOK.numbers, IntCol)
  {
  }

  lemma NotebookTexts()
    ensures OfType(NOTEBOOK_COLUMNS, NOTEBOOK.texts, TextCol)
  {
  }

  lemma NotebookDeclares()
    ensures Shaped(NOTEBOOK_COLUMNS, NOTEBOOK)
  {
    NotebookKeys();
    NotebookNumbers();
    NotebookTexts();
  }

  lemma PageKeys()
    ensures NoOthers(PAGE_COLUMNS, PAGE)
  {
  }

  lemma PageDeclares()
    ensures Shaped(PAGE_COLUMNS, PAGE)
  {
    PageKeys();
  }

  lemma StrokeKeys()
    ensures NoOthers(STROKE_COLUMNS, STROKE)
  {
  }

  lemma StrokeNumbers()
    ensures OfType(STROKE_COLUMNS, STROKE.numbers, IntCol)
  {
  }

  lemma StrokeTexts()
    ensures OfType(STROKE_COLUMNS, STROKE.texts, TextCol)
  {
  }

  lemma StrokeDeclares()
    ensures Shaped(STROKE_COLUMNS, STROKE)
  {
    StrokeKeys();
    StrokeNumbers();
    StrokeTexts();
  }

  lemma BoxKeys()
    ensures NoOthers(TEXT_BOX_COLUMNS, TEXT_BOX)
  {
  }

  lemma BoxNumbers()
    ensures OfType(TEXT_BOX_COLUMNS, TEXT_BOX.numbers, IntCol)
  {
  }

  lemma BoxTexts()
    ensures OfType(TEXT_BOX_COLUMNS, TEXT_BOX.texts, TextCol)
  {
  }

  lemma BoxDeclares()
    ensures Shaped(TEXT_BOX_COLUMNS, TEXT_BOX)
  {
    BoxKeys();
    BoxNumbers();
    BoxTexts();
  }

  lemma TextKeys()
    ensures NoOthers(PAGE_TEXT_COLUMNS, PAGE_TEXT)
  {
  }

  lemma TextDeclares()
    ensures Shaped(PAGE_TEXT_COLUMNS, PAGE_TEXT)
  {
    TextKeys();
  }

  lemma DeclaredKeys(columns: map<ColName, ColType>, sh: Shape)
    requires Shaped(columns, sh)
    ensures columns.Keys == sh.All()
  {
  }

  lemma TypedReads(columns: map<ColName, ColType>, sh: Shape, cols: Cols)
    requires Shaped(columns, sh)
    ensures sh.Reads(cols) <==> forall c :: c in columns ==> c in cols && TypeOk(columns[c], cols[c])
  {
    if sh.Reads(cols) {
      forall c | c in columns
        ensures c in cols && TypeOk(columns[c], cols[c])
      {
        assert c in sh.All();
      }
    }
  }

  lemma FolderTable()
    ensures FolderT in FOREST_NOTE.tables && FOREST_NOTE.tables[FolderT] == FOLDER_COLUMNS
  {
  }

  lemma NotebookTable()
    ensures NotebookT in FOREST_NOTE.tables && FOREST_NOTE.tables[NotebookT] == NOTEBOOK_COLUMNS
  {
  }

  lemma PageTable()
    ensures PageT in FOREST_NOTE.tables && FOREST_NOTE.tables[PageT] == PAGE_COLUMNS
  {
  }

  lemma StrokeTable()
    ensures StrokeT in FOREST_NOTE.tables && FOREST_NOTE.tables[StrokeT] == STROKE_COLUMNS
  {
  }

  lemma TextBoxTable()
    ensures TextBoxT in FOREST_NOTE.tables && FOREST_NOTE.tables[TextBoxT] == TEXT_BOX_COLUMNS
  {
  }

  lemma ServerTextTable()
    ensures ServerTextT in FOREST_NOTE.tables && FOREST_NOTE.tables[ServerTextT] == PAGE_TEXT_COLUMNS
  {
  }

  lemma ClientTextTable()
    ensures ClientTextT in FOREST_NOTE.tables && FOREST_NOTE.tables[ClientTextT] == PAGE_TEXT_COLUMNS
  {
  }

  lemma OtherTable(t: TableName)
    ensures t in FOREST_NOTE.tables ==> !t.OtherT?
  {
  }

  lemma SchemaDeclares(t: TableName)
    requires !t.OtherT?
    ensures t in FOREST_NOTE.tables && Shaped(FOREST_NOTE.tables[t], ShapeOf(t))
  {
    match t
    case FolderT =>
      FolderTable();
      FolderDeclares();
    case NotebookT =>
      NotebookTable();
      NotebookDeclares();
    case PageT =>
      PageTable();
      PageDeclares();
    case StrokeT =>
      StrokeTable();
      StrokeDeclares();
    case TextBoxT =>
      TextBoxTable();
      BoxDeclares();
    case ServerTextT =>
      ServerTextTable();
      TextDeclares();
    case ClientTextT =>
      ClientTextTable();
      TextDeclares();
  }

  /** Exactly the newer columns have a default, and it is the value they are taken to hold. */
  ghost predicate Completes(defaults: map<ColName, Value>, t: TableName) {
    defaults.Keys == Newer(t) && forall c :: c in Newer(t) ==> defaults[c] == OlderValue(c)
  }

  lemma NotebookCompletes()
    ensures Completes(NOTEBOOK_DEFAULTS, NotebookT)
  {
  }

  lemma StrokeOlder()
    ensures STROKE_DEFAULTS.Keys == {BrushKind, BrushVersion, BrushSeed, PointDynamics}
    ensures STROKE_DEFAULTS[BrushKind] == Str("fountain") && STROKE_DEFAULTS[BrushVersion] == Num(1)
    ensures STROKE_DEFAULTS[BrushSeed] == Num(0) && STROKE_DEFAULTS[PointDynamics] == Null
  {
  }

  lemma StrokeCompletes(d: map<ColName, Value>)
    requires d.Keys == {BrushKind, BrushVersion, BrushSeed, PointDynamics}
    requires d[BrushKind] == Str("fountain") && d[BrushVersion] == Num(1) && d[BrushSeed] == Num(0) && d[PointDynamics] == Null
    ensures Completes(d, StrokeT)
  {
  }

  lemma DefaultTables()
    ensures NotebookT in FOREST_NOTE.defaults && FOREST_NOTE.defaults[NotebookT] == NOTEBOOK_DEFAULTS
    ensures StrokeT in FOREST_NOTE.defaults && FOREST_NOTE.defaults[StrokeT] == STROKE_DEFAULTS
    ensures forall t :: t in FOREST_NOTE.defaults ==> t == NotebookT || t == StrokeT
  {
  }

  lemma CompletesTable(reg: Registry, t: TableName)
    requires NotebookT in reg.defaults && Completes(reg.defaults[NotebookT], NotebookT)
    requires StrokeT in reg.defaults && Completes(reg.defaults[StrokeT], StrokeT)
    requires forall x :: x in reg.defaults ==> x == NotebookT || x == StrokeT
    ensures Completes(Defaults(reg, t), t)
  {
    if t != NotebookT && t != StrokeT {
      assert Defaults(reg, t) == map[] && Newer(t) == {};
    }
  }

  lemma OlderValues(t: TableName)
    ensures Completes(Defaults(FOREST_NOTE, t), t)
  {
    DefaultTables();
    NotebookCompletes();
    StrokeOlder();
    StrokeCompletes(STROKE_DEFAULTS);
    CompletesTable(FOREST_NOTE, t);
  }

  lemma TombstoneTables(t: TableName)
    ensures t in FOREST_NOTE.tombstones <==> !t.OtherT?
    ensures t in FOREST_NOTE.tombstones ==> FOREST_NOTE.tombstones[t] == DeletedAt
  {
  }
}
