/** Tokens, words and statements of the migration DSL, and the checks made on identifiers and type names. */
module MigrationSyntax {
  import opened Unicode
  import opened Wrappers

  datatype Modifier = PrimaryKey | NotNull | Unique

  datatype Word =
    | TableCreate
    | DeclareColumn
    | ColumnAdd
    | ColumnDrop
    | ColumnRename
    | IndexCreate(unique: bool)
    | IndexDrop
    | Modify(modifier: Modifier)
    | Default
    | TableDrop

  // Newlines, doc comments and the end of the file are Ignored; numbers, references and the rest are Other.
  datatype Token = Literal(value: string) | Symbol(word: string) | Ignored | Other

  datatype Column = Column(
    name: string,
    typeName: string,
    primaryKey: bool,
    notNull: bool,
    unique: bool,
    default: Option<string>)

  datatype CreateTable = CreateTable(name: string, columns: seq<Column>)

  datatype Statement =
    | Create(create: CreateTable)
    | AddColumn(table: string, column: Column)
    | DropColumn(table: string, name: string)
    | RenameColumn(table: string, oldName: string, newName: string)
    | CreateIndex(name: string, table: string, on: string, unique: bool)
    | DropIndex(name: string, table: string)
    | DropTable(table: string)

  datatype DslError =
    | UnsupportedToken
    | UnsupportedWord
    | MissingLiteral
    | BadIdentifier
    | BadTypeName
    | MixedCreateAndDrop
    | ColumnBeforeTable
    | TableWithoutColumns
    | ModifierBeforeColumn
    | TargetNoLongerColumn
    | NoStatements
    | UnusedLiteral
    | SqliteAddPrimaryKey
    | SqliteAddUnique
    | SqliteAddNotNullWithoutDefault

  function ParseWord(word: string): Option<Word> {
    if word == "table_create" then Some(TableCreate)
    else if word == "column" then Some(DeclareColumn)
    else if word == "column_add" then Some(ColumnAdd)
    else if word == "column_drop" then Some(ColumnDrop)
    else if word == "column_rename" then Some(ColumnRename)
    else if word == "index_create" then Some(IndexCreate(false))
    else if word == "unique_index_create" then Some(IndexCreate(true))
    else if word == "index_drop" then Some(IndexDrop)
    else if word == "primary_key" then Some(Modify(PrimaryKey))
    else if word == "not_null" then Some(Modify(NotNull))
    else if word == "unique" then Some(Modify(Unique))
    else if word == "default" then Some(Default)
    else if word == "table_drop" then Some(TableDrop)
    else None
  }

  /** Non-empty, and equal to its own trimmed form. */
  predicate IsTrimmed(value: string) {
    value != [] && !IsWhitespace(value[0]) && !IsWhitespace(value[|value| - 1])
  }

  predicate ValidIdentifier(value: string) {
    && IsTrimmed(value)
    && '.' !in value
    && forall c | c in value :: !IsControl(c)
  }

  predicate HasPair(value: string, first: char, second: char) {
    exists i | 0 <= i < |value| - 1 :: value[i] == first && value[i + 1] == second
  }

  predicate ForbiddenInType(c: char) {
    IsControl(c) || c == '\'' || c == '"' || c == '`' || c == ';' || c == '\\'
  }

  predicate ValidTypeName(value: string) {
    && IsTrimmed(value)
    && !HasPair(value, '-', '-') && !HasPair(value, '/', '*') && !HasPair(value, '*', '/')
    && forall c | c in value :: !ForbiddenInType(c)
  }

  function NewColumn(name: string, typeName: string): Column {
    Column(name, typeName, false, false, false, None)
  }
}
