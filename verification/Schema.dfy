/** The synced schema: columns, soft-delete columns and the values filled in for older clients. */
module Schema {
  import opened Ops

  const FOLDER_COLUMNS := map[
    CreatedAt := IntCol, DeletedAt := NullIntCol, NameCol := TextCol,
    ParentFolderId := NullTextCol, SortOrder := IntCol]

  const NOTEBOOK_COLUMNS := map[
    AspectLongAxis := NullIntCol, CreatedAt := IntCol, DeletedAt := NullIntCol,
    FolderId := NullTextCol, NameCol := TextCol, PageHeight := NullIntCol,
    PageWidth := NullIntCol, SortOrder := IntCol]

  const PAGE_COLUMNS := map[
    CreatedAt := IntCol, DeletedAt := NullIntCol, NotebookId := TextCol,
    SortOrder := IntCol, Template := NullTextCol, TemplatePitchMm := NullIntCol]

  const PAGE_TEXT_COLUMNS := map[
    CreatedAt := IntCol, DeletedAt := NullIntCol, ModelName := NullTextCol,
    OcrAt := IntCol, TextContent := TextCol]

  const STROKE_COLUMNS := map[
    BrushKind := TextCol, BrushSeed := IntCol, BrushVersion := IntCol,
    Color := IntCol, CreatedAt := IntCol, DeletedAt := NullIntCol,
    PageId := TextCol, PenWidthMax := IntCol, PenWidthMin := IntCol,
    PointDynamics := NullBytesCol, Points := BytesCol, Z := IntCol]

  const TEXT_BOX_COLUMNS := map[
    BorderWidth := IntCol, Color := IntCol, CreatedAt := IntCol,
    DeletedAt := NullIntCol, FontName := TextCol, FontSize := IntCol,
    Height := IntCol, PageId := TextCol, TextContent := TextCol, Weight := IntCol,
    Width := IntCol, X := IntCol, Y := IntCol, Z := IntCol]

  /** What rows of clients of the previous schema are completed with. */
  const NOTEBOOK_DEFAULTS := map[PageWidth := Null, PageHeight := Null]

  const STROKE_DEFAULTS := map[BrushKind := Str("fountain"), BrushVersion := Num(1), BrushSeed := Num(0), PointDynamics := Null]

  /** The synced schema. */
  const FOREST_NOTE := Registry(
    map[FolderT := FOLDER_COLUMNS, NotebookT := NOTEBOOK_COLUMNS, PageT := PAGE_COLUMNS, StrokeT := STROKE_COLUMNS,
        TextBoxT := TEXT_BOX_COLUMNS, ServerTextT := PAGE_TEXT_COLUMNS, ClientTextT := PAGE_TEXT_COLUMNS],
    map[FolderT := DeletedAt, NotebookT := DeletedAt, PageT := DeletedAt, StrokeT := DeletedAt,
        TextBoxT := DeletedAt, ServerTextT := DeletedAt, ClientTextT := DeletedAt],
    map[NotebookT := NOTEBOOK_DEFAULTS, StrokeT := STROKE_DEFAULTS])
}
