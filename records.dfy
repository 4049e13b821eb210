/** The tool's three record types. All three are plain values: they are
    created once and never updated after construction. */
module Records {

  /** One migration source file found on disk. */
  datatype MigrationFileEntry = MigrationFileEntry(
    Path: string,
    Timestamp: string,  // fourteen digits (yyyyMMddHHmmss), or empty
    Name: string,       // migration name without the timestamp
    IsDesigner: bool)   // the companion ".Designer" file

  /** One migration as listed in the window. */
  datatype MigrationItem = MigrationItem(
    Timestamp: string,
    Name: string,
    Display: string,
    FilePath: string)

  /** One column of the reconstructed schema. */
  datatype ColumnInfo = ColumnInfo(
    Table: string,
    Column: string,
    ClrType: string,
    IsNullable: bool)
}
