/** The SQL text of a list of statements, given as plain text, identifiers and values that the
    adapter then quotes. */
module MigrationSql {
  import opened Wrappers
  import opened MigrationSyntax

  datatype SqlAdapter = Sqlite | Postgres | Mysql

  datatype Part = Text(text: string) | Identifier(name: string) | Value(value: string)

  function IdentifierQuote(adapter: SqlAdapter): char {
    if adapter.Mysql? then '`' else '"'
  }

  /** `str::replace` of one character by a string. */
  function Replace(s: string, c: char, replacement: string): string {
    if s == [] then [] else (if s[0] == c then replacement else [s[0]]) + Replace(s[1..], c, replacement)
  }

  function QuoteIdentifier(adapter: SqlAdapter, identifier: string): string {
    var q := IdentifierQuote(adapter);
    [q] + Replace(identifier, q, [q, q]) + [q]
  }

  function StringLiteral(adapter: SqlAdapter, value: string): string {
    var escaped := if adapter.Mysql?
                   then Replace(Replace(value, '\\', "\\\\"), '\'', "\\'")
                   else Replace(value, '\'', "''");
    ['\''] + escaped + ['\'']
  }

  function RenderPart(adapter: SqlAdapter, part: Part): string {
    match part
    case Text(text) => text
    case Identifier(name) => QuoteIdentifier(adapter, name)
    case Value(value) => StringLiteral(adapter, value)
  }

  function RenderParts(adapter: SqlAdapter, parts: seq<Part>): string {
    if parts == [] then [] else RenderPart(adapter, parts[0]) + RenderParts(adapter, parts[1..])
  }

  lemma {:induction false} RenderConcat(adapter: SqlAdapter, a: seq<Part>, b: seq<Part>)
    ensures RenderParts(adapter, a + b) == RenderParts(adapter, a) + RenderParts(adapter, b)
  {
    if a == [] {
      assert a + b == b;
    } else {
      assert (a + b)[1..] == a[1..] + b;
      RenderConcat(adapter, a[1..], b);
    }
  }

  /** The part of a column definition that is neither its name nor its default. */
  function ColumnText(column: Column): string {
    " " + column.typeName
    + (if column.primaryKey then " primary key" else "")
    + (if column.notNull then " not null" else "")
    + (if column.unique then " unique" else "")
  }

  function ColumnParts(column: Column): seq<Part> {
    [Identifier(column.name), Text(ColumnText(column))]
    + (if column.default.Some? then [Text(" default "), Value(column.default.value)] else [])
  }

  function ColumnsParts(columns: seq<Column>): seq<Part> {
    if columns == [] then []
    else [Text("  ")] + ColumnParts(columns[0])
         + [Text(if |columns| == 1 then "\n" else ",\n")] + ColumnsParts(columns[1..])
  }

  /** A statement without its terminator. */
  function StatementParts(adapter: SqlAdapter, statement: Statement): seq<Part> {
    match statement
    case Create(create) =>
      [Text("create table "), Identifier(create.name), Text(" (\n")] + ColumnsParts(create.columns) + [Text(")")]
    case AddColumn(table, column) =>
      [Text("alter table "), Identifier(table), Text(" add column ")] + ColumnParts(column)
    case DropColumn(table, name) =>
      [Text("alter table "), Identifier(table), Text(" drop column "), Identifier(name)]
    case RenameColumn(table, oldName, newName) =>
      [Text("alter table "), Identifier(table), Text(" rename column "), Identifier(oldName),
       Text(" to "), Identifier(newName)]
    case CreateIndex(name, table, on, unique) =>
      [Text(if unique then "create unique index " else "create index "), Identifier(name),
       Text(" on "), Identifier(table), Text(" ("), Identifier(on), Text(")")]
    case DropIndex(name, table) =>
      [Text("drop index "), Identifier(name)]
      + (if adapter.Mysql? then [Text(" on "), Identifier(table)] else [])
    case DropTable(table) => [Text("drop table "), Identifier(table)]
  }

  const TERMINATOR := [Text(";\n")]

  /** The whole file: terminated statements with an empty line between them. */
  function FileParts(adapter: SqlAdapter, statements: seq<Statement>): seq<Part> {
    if statements == [] then []
    else StatementParts(adapter, statements[0]) + TERMINATOR
         + (if |statements| == 1 then [] else [Text("\n")] + FileParts(adapter, statements[1..]))
  }

  function Rendered(adapter: SqlAdapter, statements: seq<Statement>): string {
    RenderParts(adapter, FileParts(adapter, statements))
  }

  /** SQLite's ADD COLUMN takes no primary key, no unique, and a not null only with a default. */
  function AddColumnError(adapter: SqlAdapter, statement: Statement): Option<DslError> {
    if !adapter.Sqlite? || !statement.AddColumn? then None
    else if statement.column.primaryKey then Some(SqliteAddPrimaryKey)
    else if statement.column.unique then Some(SqliteAddUnique)
    else if statement.column.notNull && statement.column.default.None? then Some(SqliteAddNotNullWithoutDefault)
    else None
  }

  predicate Renderable(adapter: SqlAdapter, statements: seq<Statement>) {
    forall i | 0 <= i < |statements| :: AddColumnError(adapter, statements[i]).None?
  }

  predicate ValidColumn(column: Column) {
    ValidIdentifier(column.name) && ValidTypeName(column.typeName)
  }

  /** The statements the compiler can produce: checked names and types, no table without columns. */
  predicate ValidStatement(statement: Statement) {
    match statement
    case Create(create) =>
      ValidIdentifier(create.name) && create.columns != [] && forall c | c in create.columns :: ValidColumn(c)
    case AddColumn(table, column) => ValidIdentifier(table) && ValidColumn(column)
    case DropColumn(table, name) => ValidIdentifier(table) && ValidIdentifier(name)
    case RenameColumn(table, oldName, newName) =>
      ValidIdentifier(table) && ValidIdentifier(oldName) && ValidIdentifier(newName)
    case CreateIndex(name, table, on, _) => ValidIdentifier(name) && ValidIdentifier(table) && ValidIdentifier(on)
    case DropIndex(name, table) => ValidIdentifier(name) && ValidIdentifier(table)
    case DropTable(table) => ValidIdentifier(table)
  }
}
