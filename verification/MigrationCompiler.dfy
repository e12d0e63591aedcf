/** The migration compiler as the source writes it: fields updated word by word and SQL appended to
    one string. Its result is the two-pass reading of the file, rendered. */
module MigrationCompiler {
  import opened Wrappers
  import opened MigrationSyntax
  import opened MigrationReading
  import opened MigrationOnePass
  import opened MigrationSql
  import opened MigrationSqlReading

  /** What a file compiles to, or None when it is refused. */
  function Compiled(adapter: SqlAdapter, tokens: seq<Token>): Option<string> {
    match Reading(tokens)
    case None => None
    case Some(statements) => if Renderable(adapter, statements) then Some(Rendered(adapter, statements)) else None
  }

  /** One word: it takes its literals and is applied. */
  function Stepped(core: Core, stack: seq<string>, word: Word): Option<(Core, seq<string>)> {
    if |stack| < Arity(word) then None
    else
      var split := |stack| - Arity(word);
      var op := MakeOp(word, stack[split..]);
      if !ValidOp(op) then None
      else match Apply(core, op) { case None => None case Some(next) => Some((next, stack[..split])) }
  }

  /** Compiling the rest of a file, up to the statement list. */
  function RunTokens(core: Core, stack: seq<string>, tokens: seq<Token>): Option<seq<Statement>> {
    match Bind(tokens, stack)
    case None => None
    case Some((ops, leftover)) => if leftover != [] then None else Run(core, ops)
  }

  lemma RunTokensStep(core: Core, stack: seq<string>, tokens: seq<Token>)
    requires tokens != []
    ensures match tokens[0] {
              case Literal(value) => RunTokens(core, stack, tokens) == RunTokens(core, stack + [value], tokens[1..])
              case Ignored => RunTokens(core, stack, tokens) == RunTokens(core, stack, tokens[1..])
              case Other => RunTokens(core, stack, tokens).None?
              case Symbol(text) =>
                RunTokens(core, stack, tokens) ==
                match ParseWord(text) {
                  case None => None
                  case Some(word) =>
                    match Stepped(core, stack, word) {
                      case None => None
                      case Some((next, rest)) => RunTokens(next, rest, tokens[1..])
                    }
                }
            }
  {
    if tokens[0].Symbol? && TakeOperands(tokens[0].word, stack).Some? {
      var (op, rest) := TakeOperands(tokens[0].word, stack).value;
      if Bind(tokens[1..], rest).Some? {
        var ops := Bind(tokens[1..], rest).value.0;
        assert ([op] + ops)[1..] == ops;
      }
    }
  }

  predicate Pending(core: Core) {
    core.statements != [] || core.currentCreate.Some?
  }

  lemma {:induction false} RunGrows(core: Core, ops: seq<Op>)
    requires Consistent(core) && Run(core, ops).Some? && (Pending(core) || ops != [])
    ensures Run(core, ops).value != []
    decreases |ops|
  {
    if ops != [] {
      ApplyKeepsConsistent(core, ops[0]);
      RunGrows(Apply(core, ops[0]).value, ops[1..]);
    }
  }

  /** From the start the compiler's statement list is the reading's. */
  lemma RunTokensIsReading(tokens: seq<Token>)
    ensures Reading(tokens)
         == match RunTokens(START, [], tokens) {
              case None => None
              case Some(statements) => if statements == [] then None else Some(statements)
            }
  {
    var bound := Bind(tokens, []);
    if bound.Some? {
      var ops := bound.value.0;
      RunAgreesWithReading(START, ops);
      if Group(ops).Some? {
        assert [] + Group(ops).value == Group(ops).value;
      }
      if ops != [] && Run(START, ops).Some? {
        RunGrows(START, ops);
      }
    }
  }

  lemma {:induction false} BoundOpsAreValid(tokens: seq<Token>, stack: seq<string>)
    requires Bind(tokens, stack).Some?
    ensures forall op | op in Bind(tokens, stack).value.0 :: ValidOp(op)
  {
    if tokens != [] {
      match tokens[0]
      case Literal(value) => BoundOpsAreValid(tokens[1..], stack + [value]);
      case Ignored => BoundOpsAreValid(tokens[1..], stack);
      case Symbol(text) => BoundOpsAreValid(tokens[1..], TakeOperands(text, stack).value.1);
    }
  }

  lemma {:induction false} RunKeepsValid(core: Core, ops: seq<Op>)
    requires AllValid(core) && Run(core, ops).Some? && forall op | op in ops :: ValidOp(op)
    ensures forall s | s in Run(core, ops).value :: ValidStatement(s)
    decreases |ops|
  {
    if ops != [] {
      ApplyKeepsValid(core, ops[0]);
      RunKeepsValid(Apply(core, ops[0]).value, ops[1..]);
    }
  }

  /** End to end: the SQL a file compiles to reads back as the statements the file stands for, if and only if
      no type name opens a comment or quote that this adapter alone knows, and no default holds a NUL where
      the adapter's database ends the text at one. */
  lemma CompiledSqlReadsBack(adapter: SqlAdapter, tokens: seq<Token>)
    requires Compiled(adapter, tokens).Some?
    ensures ReadStatements(adapter, Compiled(adapter, tokens).value) == Expected(adapter, Reading(tokens).value)
       <==> forall s | s in Reading(tokens).value :: TypesStayPlain(adapter, s) && DefaultsSeen(adapter, s)
  {
    BoundOpsAreValid(tokens, []);
    var ops := Bind(tokens, []).value.0;
    RunTokensIsReading(tokens);
    RunKeepsValid(START, ops);
    RenderedSqlReadsBack(adapter, Reading(tokens).value);
  }

  // ----- the appended string is the rendering of the parts -----

  lemma RenderTwo(adapter: SqlAdapter, parts: seq<Part>)
    requires |parts| == 2
    ensures RenderParts(adapter, parts) == RenderPart(adapter, parts[0]) + RenderPart(adapter, parts[1])
  {
    assert parts[1..][1..] == [];
    assert RenderParts(adapter, parts[1..]) == RenderPart(adapter, parts[1]) + [];
  }

  lemma RenderFour(adapter: SqlAdapter, parts: seq<Part>)
    requires |parts| == 4
    ensures RenderParts(adapter, parts)
         == RenderPart(adapter, parts[0]) + RenderPart(adapter, parts[1])
            + RenderPart(adapter, parts[2]) + RenderPart(adapter, parts[3])
  {
    RenderTwo(adapter, parts[..2]);
    RenderTwo(adapter, parts[2..]);
    assert parts == parts[..2] + parts[2..];
    RenderConcat(adapter, parts[..2], parts[2..]);
  }

  lemma RenderSix(adapter: SqlAdapter, parts: seq<Part>)
    requires |parts| == 6
    ensures RenderParts(adapter, parts)
         == RenderPart(adapter, parts[0]) + RenderPart(adapter, parts[1])
            + RenderPart(adapter, parts[2]) + RenderPart(adapter, parts[3])
            + RenderPart(adapter, parts[4]) + RenderPart(adapter, parts[5])
  {
    RenderFour(adapter, parts[..4]);
    RenderTwo(adapter, parts[4..]);
    assert parts == parts[..4] + parts[4..];
    RenderConcat(adapter, parts[..4], parts[4..]);
  }

  lemma RenderSeven(adapter: SqlAdapter, parts: seq<Part>)
    requires |parts| == 7
    ensures RenderParts(adapter, parts)
         == RenderPart(adapter, parts[0]) + RenderPart(adapter, parts[1])
            + RenderPart(adapter, parts[2]) + RenderPart(adapter, parts[3])
            + RenderPart(adapter, parts[4]) + RenderPart(adapter, parts[5]) + RenderPart(adapter, parts[6])
  {
    RenderSix(adapter, parts[..6]);
    assert parts == parts[..6] + [parts[6]];
    RenderConcat(adapter, parts[..6], [parts[6]]);
    assert RenderParts(adapter, [parts[6]]) == RenderPart(adapter, parts[6]) + [];
  }

  lemma RenderThree(adapter: SqlAdapter, parts: seq<Part>)
    requires |parts| == 3
    ensures RenderParts(adapter, parts)
         == RenderPart(adapter, parts[0]) + RenderPart(adapter, parts[1]) + RenderPart(adapter, parts[2])
  {
    RenderTwo(adapter, parts[..2]);
    assert parts == parts[..2] + [parts[2]];
    RenderConcat(adapter, parts[..2], [parts[2]]);
    assert RenderParts(adapter, [parts[2]]) == RenderPart(adapter, parts[2]) + [];
  }

  lemma RenderDefinition(adapter: SqlAdapter, column: Column)
    ensures RenderParts(adapter, ColumnParts(column))
         == QuoteIdentifier(adapter, column.name) + ColumnText(column)
            + if column.default.Some? then " default " + StringLiteral(adapter, column.default.value) else ""
  {
    hide QuoteIdentifier, StringLiteral, ColumnText;
    if column.default.Some? {
      RenderFour(adapter, ColumnParts(column));
    } else {
      RenderTwo(adapter, ColumnParts(column));
    }
  }

  lemma RenderAddColumn(adapter: SqlAdapter, table: string, column: Column)
    ensures RenderParts(adapter, StatementParts(adapter, AddColumn(table, column)))
         == "alter table " + QuoteIdentifier(adapter, table) + " add column " + RenderParts(adapter, ColumnParts(column))
  {
    var head := [Text("alter table "), Identifier(table), Text(" add column ")];
    RenderThree(adapter, head);
    RenderConcat(adapter, head, ColumnParts(column));
  }

  lemma RenderCreate(adapter: SqlAdapter, create: CreateTable)
    ensures RenderParts(adapter, StatementParts(adapter, Create(create)))
         == "create table " + QuoteIdentifier(adapter, create.name) + " (\n"
            + RenderParts(adapter, ColumnsParts(create.columns)) + ")"
  {
    var head := [Text("create table "), Identifier(create.name), Text(" (\n")];
    RenderThree(adapter, head);
    RenderConcat(adapter, head, ColumnsParts(create.columns));
    RenderConcat(adapter, head + ColumnsParts(create.columns), [Text(")")]);
    assert RenderParts(adapter, [Text(")")]) == ")" + [];
  }

  lemma RenderColumnsStep(adapter: SqlAdapter, columns: seq<Column>)
    requires columns != []
    ensures RenderParts(adapter, ColumnsParts(columns))
         == "  " + RenderParts(adapter, ColumnParts(columns[0])) + (if |columns| == 1 then "\n" else ",\n")
            + RenderParts(adapter, ColumnsParts(columns[1..]))
  {
    var indent, body, rest := [Text("  ")], ColumnParts(columns[0]), ColumnsParts(columns[1..]);
    var end := [Text(if |columns| == 1 then "\n" else ",\n")];
    assert RenderParts(adapter, indent) == "  " && RenderParts(adapter, end) == end[0].text;
    hide RenderParts, ColumnParts;
    RenderConcat(adapter, indent, body);
    RenderConcat(adapter, indent + body, end);
    RenderConcat(adapter, indent + body + end, rest);
  }

  lemma RenderNoColumns(adapter: SqlAdapter)
    ensures RenderParts(adapter, ColumnsParts([])) == []
  {
  }

  /** What is still to be appended before statement number index. */
  function RenderedFrom(adapter: SqlAdapter, statements: seq<Statement>, index: nat): string
    requires index <= |statements|
  {
    (if 0 < index < |statements| then "\n" else "") + Rendered(adapter, statements[index..])
  }

  lemma RenderedFromEnds(adapter: SqlAdapter, statements: seq<Statement>)
    ensures RenderedFrom(adapter, statements, 0) == Rendered(adapter, statements)
    ensures RenderedFrom(adapter, statements, |statements|) == ""
  {
    assert statements[0..] == statements;
  }

  lemma RenderedFromStep(adapter: SqlAdapter, statements: seq<Statement>, index: nat)
    requires index < |statements|
    ensures RenderedFrom(adapter, statements, index)
         == (if index > 0 then "\n" else "")
            + RenderParts(adapter, StatementParts(adapter, statements[index]) + TERMINATOR)
            + RenderedFrom(adapter, statements, index + 1)
  {
    hide *;
    var now, rest := statements[index..], statements[index + 1..];
    assert now[1..] == rest && now[0] == statements[index];
    RenderedFromIs(adapter, statements, index);
    RenderedFromIs(adapter, statements, index + 1);
    RenderedFromFirst(adapter, now);
  }

  lemma RenderedFromIs(adapter: SqlAdapter, statements: seq<Statement>, index: nat)
    requires index <= |statements|
    ensures RenderedFrom(adapter, statements, index)
         == (if 0 < index < |statements| then "\n" else "") + Rendered(adapter, statements[index..])
  {
    hide Rendered;
  }

  lemma RenderedFromFirst(adapter: SqlAdapter, statements: seq<Statement>)
    requires statements != []
    ensures Rendered(adapter, statements)
         == RenderParts(adapter, StatementParts(adapter, statements[0]) + TERMINATOR)
            + ((if |statements| > 1 then "\n" else "") + Rendered(adapter, statements[1..]))
  {
    NothingRendered(adapter, statements[1..]);
    hide *;
    FileFromStatement(adapter, statements);
  }

  lemma NothingRendered(adapter: SqlAdapter, statements: seq<Statement>)
    ensures statements == [] ==> Rendered(adapter, statements) == ""
  {
  }

  /** Three pops, last to first, take the last three. */
  lemma IndexStepped(core: Core, stack: seq<string>, unique: bool)
    requires Consistent(core)
    ensures Stepped(core, stack, Word.IndexCreate(unique))
         == if |stack| < 3 || Finished(core).None? then None
            else
              var n, done := |stack|, Finished(core).value;
              var name, table, on := stack[n - 3], stack[n - 2], stack[n - 1];
              if !ValidIdentifier(name) || !ValidIdentifier(table) || !ValidIdentifier(on) then None
              else Some((done.(statements := done.statements + [CreateIndex(name, table, on, unique)],
                               lastColumnTarget := None),
                         stack[..n - 3]))
    ensures var stepped := Stepped(core, stack, Word.IndexCreate(unique));
            stepped.Some? ==> Consistent(stepped.value.0)
  {
    hide ValidIdentifier;
    if |stack| >= 3 {
      var args := stack[|stack| - 3..];
      var op := IndexCreateOp(args[0], args[1], args[2], unique);
      hide Consistent;
      if Apply(core, op).Some? { ApplyKeepsConsistent(core, op); }
    }
  }

  lemma LastTwo(stack: seq<string>, first: string, second: string)
    requires |stack| >= 2 && stack[|stack| - 1] == second && stack[..|stack| - 1][|stack| - 2] == first
    ensures stack[|stack| - 2..] == [first, second]
    ensures stack[..|stack| - 1][..|stack| - 2] == stack[..|stack| - 2]
  {
  }

  lemma LastThree(stack: seq<string>, first: string, second: string, third: string)
    requires |stack| >= 3 && stack[|stack| - 1] == third
    requires stack[..|stack| - 1][|stack| - 2] == second
    requires stack[..|stack| - 1][..|stack| - 2][|stack| - 3] == first
    ensures stack[|stack| - 3..] == [first, second, third]
  {
  }

  class Compiler {
    const adapter: SqlAdapter
    var stack: seq<string>
    var statements: seq<Statement>
    var currentCreate: Option<CreateTable>
    var lastColumnTarget: Option<ColumnTarget>
    var sawCreate: bool
    var sawDrop: bool

    function View(): Core
      reads this
    {
      Core(statements, currentCreate, lastColumnTarget, sawCreate, sawDrop)
    }

    ghost predicate Valid()
      reads this
    {
      Consistent(View())
    }

    /** What one word did, given the state it started from. */
    ghost predicate Took(core: Core, before: seq<string>, word: Word, r: Result<(), DslError>)
      reads this
    {
      && (r.Ok? <==> Stepped(core, before, word).Some?)
      && (r.Ok? ==> Valid() && View() == Stepped(core, before, word).value.0 && stack == Stepped(core, before, word).value.1)
      && r != Err(TargetNoLongerColumn)
    }

    constructor (adapter: SqlAdapter)
      ensures Valid() && this.adapter == adapter && View() == START && stack == []
    {
      this.adapter := adapter;
      stack := [];
      statements := [];
      currentCreate := None;
      lastColumnTarget := None;
      sawCreate := false;
      sawDrop := false;
    }

    method PopString() returns (r: Result<string, DslError>)
      modifies this`stack
      ensures old(stack) == [] ==> r == Err(MissingLiteral) && stack == []
      ensures old(stack) != [] ==> r == Ok(old(stack)[|old(stack)| - 1]) && stack == old(stack)[..|old(stack)| - 1]
    {
      if stack == [] {
        return Err(MissingLiteral);
      }
      r := Ok(stack[|stack| - 1]);
      stack := stack[..|stack| - 1];
    }

    method FinishCurrentCreate() returns (r: Result<(), DslError>)
      modifies this`currentCreate, this`statements
      ensures r.Ok? <==> Finished(old(View())).Some?
      ensures r.Ok? ==> View() == Finished(old(View())).value
      ensures r != Err(TargetNoLongerColumn)
    {
      match currentCreate {
        case None =>
        case Some(create) =>
          currentCreate := None;
          if create.columns == [] {
            return Err(TableWithoutColumns);
          }
          statements := statements + [Create(create)];
      }
      r := Ok(());
    }

    method TableCreate() returns (r: Result<(), DslError>)
      requires Valid()
      modifies this
      ensures Took(old(View()), old(stack), Word.TableCreate, r)
      ensures old(sawDrop) ==> r == Err(MixedCreateAndDrop)
    {
      hide ValidIdentifier, ValidTypeName;
      if sawDrop { return Err(MixedCreateAndDrop); }
      lastColumnTarget := None;
      var finished := FinishCurrentCreate();
      if finished.Err? { return finished; }
      var name := PopString();
      if name.Err? { return Err(name.error); }
      if !ValidIdentifier(name.value) { return Err(BadIdentifier); }
      currentCreate := Some(CreateTable(name.value, []));
      lastColumnTarget := None;
      sawCreate := true;
      assert stack == old(stack)[..|old(stack)| - 1];
      r := Ok(());
    }

    method DeclareColumn() returns (r: Result<(), DslError>)
      requires Valid()
      modifies this
      ensures Took(old(View()), old(stack), Word.DeclareColumn, r)
      ensures old(currentCreate).None? ==> r == Err(ColumnBeforeTable)
    {
      hide ValidIdentifier, ValidTypeName;
      if currentCreate.None? { return Err(ColumnBeforeTable); }
      var typeName := PopString();
      if typeName.Err? { return Err(typeName.error); }
      var name := PopString();
      if name.Err? { return Err(name.error); }
      LastTwo(old(stack), name.value, typeName.value);
      if !ValidIdentifier(name.value) { return Err(BadIdentifier); }
      if !ValidTypeName(typeName.value) { return Err(BadTypeName); }
      var create := currentCreate.value;
      currentCreate := Some(create.(columns := create.columns + [NewColumn(name.value, typeName.value)]));
      lastColumnTarget := Some(CurrentCreate);
      assert stack == old(stack)[..|old(stack)| - 2];
      r := Ok(());
    }

    method ColumnAdd() returns (r: Result<(), DslError>)
      requires Valid()
      modifies this
      ensures Took(old(View()), old(stack), Word.ColumnAdd, r)
    {
      hide ValidIdentifier, ValidTypeName;
      var finished := FinishCurrentCreate();
      if finished.Err? { return finished; }
      var typeName := PopString();
      if typeName.Err? { return Err(typeName.error); }
      var name := PopString();
      if name.Err? { return Err(name.error); }
      var table := PopString();
      if table.Err? { return Err(table.error); }
      LastThree(old(stack), table.value, name.value, typeName.value);
      if !ValidIdentifier(table.value) || !ValidIdentifier(name.value) { return Err(BadIdentifier); }
      if !ValidTypeName(typeName.value) { return Err(BadTypeName); }
      lastColumnTarget := Some(AtStatement(|statements|));
      statements := statements + [AddColumn(table.value, NewColumn(name.value, typeName.value))];
      assert stack == old(stack)[..|old(stack)| - 3];
      r := Ok(());
    }

    method ColumnDrop() returns (r: Result<(), DslError>)
      requires Valid()
      modifies this
      ensures Took(old(View()), old(stack), Word.ColumnDrop, r)
    {
      hide ValidIdentifier, ValidTypeName;
      var finished := FinishCurrentCreate();
      if finished.Err? { return finished; }
      lastColumnTarget := None;
      var name := PopString();
      if name.Err? { return Err(name.error); }
      var table := PopString();
      if table.Err? { return Err(table.error); }
      LastTwo(old(stack), table.value, name.value);
      if !ValidIdentifier(table.value) || !ValidIdentifier(name.value) { return Err(BadIdentifier); }
      statements := statements + [DropColumn(table.value, name.value)];
      assert stack == old(stack)[..|old(stack)| - 2];
      r := Ok(());
    }

    method ColumnRename() returns (r: Result<(), DslError>)
      requires Valid()
      modifies this
      ensures Took(old(View()), old(stack), Word.ColumnRename, r)
    {
      hide ValidIdentifier, ValidTypeName;
      var finished := FinishCurrentCreate();
      if finished.Err? { return finished; }
      lastColumnTarget := None;
      var newName := PopString();
      if newName.Err? { return Err(newName.error); }
      var oldName := PopString();
      if oldName.Err? { return Err(oldName.error); }
      var table := PopString();
      if table.Err? { return Err(table.error); }
      LastThree(old(stack), table.value, oldName.value, newName.value);
      if !ValidIdentifier(table.value) || !ValidIdentifier(oldName.value) || !ValidIdentifier(newName.value) {
        return Err(BadIdentifier);
      }
      statements := statements + [RenameColumn(table.value, oldName.value, newName.value)];
      assert stack == old(stack)[..|old(stack)| - 3];
      r := Ok(());
    }

    method IndexCreate(unique: bool) returns (r: Result<(), DslError>)
      requires Valid()
      modifies this
      ensures Took(old(View()), old(stack), Word.IndexCreate(unique), r)
    {
      hide ValidIdentifier, Stepped, Finished, Consistent;
      IndexStepped(View(), stack, unique);
      var finished := FinishCurrentCreate();
      if finished.Err? { return finished; }
      lastColumnTarget := None;
      var on := PopString();
      if on.Err? { return Err(on.error); }
      var table := PopString();
      if table.Err? { return Err(table.error); }
      var name := PopString();
      if name.Err? { return Err(name.error); }
      LastThree(old(stack), name.value, table.value, on.value);
      if !ValidIdentifier(name.value) || !ValidIdentifier(table.value) || !ValidIdentifier(on.value) {
        return Err(BadIdentifier);
      }
      statements := statements + [CreateIndex(name.value, table.value, on.value, unique)];
      assert stack == old(stack)[..|old(stack)| - 3];
      r := Ok(());
    }

    method IndexDrop() returns (r: Result<(), DslError>)
      requires Valid()
      modifies this
      ensures Took(old(View()), old(stack), Word.IndexDrop, r)
    {
      hide ValidIdentifier, ValidTypeName;
      var finished := FinishCurrentCreate();
      if finished.Err? { return finished; }
      lastColumnTarget := None;
      var table := PopString();
      if table.Err? { return Err(table.error); }
      var name := PopString();
      if name.Err? { return Err(name.error); }
      LastTwo(old(stack), name.value, table.value);
      if !ValidIdentifier(name.value) || !ValidIdentifier(table.value) { return Err(BadIdentifier); }
      statements := statements + [DropIndex(name.value, table.value)];
      assert stack == old(stack)[..|old(stack)| - 2];
      r := Ok(());
    }

    method ModifyLastColumn(op: Op) returns (r: Result<(), DslError>)
      requires Valid() && IsModifier(op)
      modifies this
      ensures stack == old(stack)
      ensures r.Ok? <==> ModifyTarget(old(View()), op).Some?
      ensures r.Ok? ==> Valid() && View() == ModifyTarget(old(View()), op).value
      ensures r.Err? ==> r.error == ModifierBeforeColumn && old(lastColumnTarget).None?
    {
      match lastColumnTarget {
        case Some(CurrentCreate) =>
          if currentCreate.None? { return Err(TargetNoLongerColumn); }
          var create := currentCreate.value;
          if create.columns == [] { return Err(ModifierBeforeColumn); }
          var last := |create.columns| - 1;
          currentCreate := Some(create.(columns := create.columns[last := Modified(create.columns[last], op)]));
        case Some(AtStatement(index)) =>
          if index >= |statements| || !statements[index].AddColumn? { return Err(TargetNoLongerColumn); }
          var statement := statements[index];
          statements := statements[index := statement.(column := Modified(statement.column, op))];
        case None => return Err(ModifierBeforeColumn);
      }
      r := Ok(());
    }

    method Default() returns (r: Result<(), DslError>)
      requires Valid()
      modifies this
      ensures Took(old(View()), old(stack), Word.Default, r)
      ensures old(lastColumnTarget).None? ==> r == Err(ModifierBeforeColumn)
    {
      if lastColumnTarget.None? { return Err(ModifierBeforeColumn); }
      var literal := PopString();
      if literal.Err? { return Err(literal.error); }
      r := ModifyLastColumn(DefaultOp(literal.value));
    }

    method TableDrop() returns (r: Result<(), DslError>)
      requires Valid()
      modifies this
      ensures Took(old(View()), old(stack), Word.TableDrop, r)
      ensures old(sawCreate) ==> r == Err(MixedCreateAndDrop)
    {
      hide ValidIdentifier, ValidTypeName;
      if sawCreate || currentCreate.Some? { return Err(MixedCreateAndDrop); }
      lastColumnTarget := None;
      var table := PopString();
      if table.Err? { return Err(table.error); }
      if !ValidIdentifier(table.value) { return Err(BadIdentifier); }
      statements := statements + [DropTable(table.value)];
      sawDrop := true;
      assert stack == old(stack)[..|old(stack)| - 1];
      r := Ok(());
    }

    method ExecuteWord(text: string) returns (r: Result<(), DslError>)
      requires Valid()
      modifies this
      ensures ParseWord(text).None? ==> r == Err(UnsupportedWord)
      ensures ParseWord(text).Some? ==> Took(old(View()), old(stack), ParseWord(text).value, r)
    {
      match ParseWord(text) {
        case None => r := Err(UnsupportedWord);
        case Some(TableCreate) => r := TableCreate();
        case Some(DeclareColumn) => r := DeclareColumn();
        case Some(ColumnAdd) => r := ColumnAdd();
        case Some(ColumnDrop) => r := ColumnDrop();
        case Some(ColumnRename) => r := ColumnRename();
        case Some(IndexCreate(unique)) => r := IndexCreate(unique);
        case Some(IndexDrop) => r := IndexDrop();
        case Some(Modify(modifier)) => r := ModifyLastColumn(ModifyOp(modifier));
        case Some(Default) => r := Default();
        case Some(TableDrop) => r := TableDrop();
      }
    }

    method Compile(tokens: seq<Token>) returns (r: Result<string, DslError>)
      requires Valid() && View() == START && stack == []
      modifies this
      ensures r.Ok? <==> Compiled(adapter, tokens).Some?
      ensures r.Ok? ==> r.value == Compiled(adapter, tokens).value
      ensures r != Err(TargetNoLongerColumn)
    {
      hide Reading, RunTokens, Stepped, ParseWord, Renderable, Rendered, Consistent;
      RunTokensIsReading(tokens);
      var i := 0;
      assert tokens[0..] == tokens;
      while i < |tokens|
        invariant i <= |tokens| && Valid()
        invariant RunTokens(View(), stack, tokens[i..]) == RunTokens(START, [], tokens)
      {
        RunTokensStep(View(), stack, tokens[i..]);
        assert tokens[i..][1..] == tokens[i + 1..];
        match tokens[i] {
          case Literal(value) => stack := stack + [value];
          case Ignored =>
          case Other => return Err(UnsupportedToken);
          case Symbol(text) =>
            var stepped := ExecuteWord(text);
            if stepped.Err? { return Err(stepped.error); }
        }
        i := i + 1;
      }
      assert tokens[i..] == [];
      r := Finish();
    }

    method Finish() returns (r: Result<string, DslError>)
      requires Valid()
      modifies this
      ensures var read := RunTokens(old(View()), old(stack), []);
              var accepted := read.Some? && read.value != [] && Renderable(adapter, read.value);
              && (r.Ok? <==> accepted)
              && (r.Ok? ==> r.value == Rendered(adapter, read.value))
      ensures r != Err(TargetNoLongerColumn)
    {
      var finished := FinishCurrentCreate();
      if finished.Err? { return Err(finished.error); }
      if statements == [] { return Err(NoStatements); }
      if stack != [] { return Err(UnusedLiteral); }
      r := RenderSql();
    }

    method RenderSql() returns (r: Result<string, DslError>)
      ensures r.Ok? <==> Renderable(adapter, statements)
      ensures r.Ok? ==> r.value == Rendered(adapter, statements)
      ensures r.Err? ==> exists s | s in statements :: AddColumnError(adapter, s) == Some(r.error)
    {
      hide RenderParts, StatementParts, Rendered, RenderedFrom, FileParts;
      var sql := "";
      var index := 0;
      RenderedFromEnds(adapter, statements);
      while index < |statements|
        invariant index <= |statements|
        invariant forall k | 0 <= k < index :: AddColumnError(adapter, statements[k]).None?
        invariant sql + RenderedFrom(adapter, statements, index) == Rendered(adapter, statements)
      {
        RenderedFromStep(adapter, statements, index);
        if index > 0 { sql := sql + "\n"; }
        var statement := statements[index];
        if AddColumnError(adapter, statement).Some? {
          return Err(AddColumnError(adapter, statement).value);
        }
        var text := RenderStatement(statement);
        sql := sql + text;
        index := index + 1;
      }
      r := Ok(sql);
    }

    method RenderStatement(statement: Statement) returns (sql: string)
      ensures sql == RenderParts(adapter, StatementParts(adapter, statement) + TERMINATOR)
    {
      RenderTerminated(adapter, StatementParts(adapter, statement));
      match statement {
        case Create(create) =>
          sql := RenderCreateTable(create);
        case AddColumn(table, column) =>
          sql := "alter table " + QuoteIdentifier(adapter, table) + " add column ";
          var definition := RenderColumnDefinition(column);
          RenderAddColumn(adapter, table, column);
          sql := sql + definition;
        case DropColumn(table, name) =>
          sql := "alter table " + QuoteIdentifier(adapter, table) + " drop column " + QuoteIdentifier(adapter, name);
          RenderFour(adapter, StatementParts(adapter, statement));
        case RenameColumn(table, oldName, newName) =>
          sql := "alter table " + QuoteIdentifier(adapter, table) + " rename column " + QuoteIdentifier(adapter, oldName)
                 + " to " + QuoteIdentifier(adapter, newName);
          RenderSix(adapter, StatementParts(adapter, statement));
        case CreateIndex(name, table, on, unique) =>
          sql := if unique then "create unique index " else "create index ";
          sql := sql + QuoteIdentifier(adapter, name) + " on " + QuoteIdentifier(adapter, table)
                 + " (" + QuoteIdentifier(adapter, on) + ")";
          RenderSeven(adapter, StatementParts(adapter, statement));
        case DropIndex(name, table) =>
          if adapter.Mysql? {
            sql := "drop index " + QuoteIdentifier(adapter, name) + " on " + QuoteIdentifier(adapter, table);
            RenderFour(adapter, StatementParts(adapter, statement));
          } else {
            sql := "drop index " + QuoteIdentifier(adapter, name);
            RenderTwo(adapter, StatementParts(adapter, statement));
          }
        case DropTable(table) =>
          sql := "drop table " + QuoteIdentifier(adapter, table);
          RenderTwo(adapter, StatementParts(adapter, statement));
      }
      sql := sql + ";\n";
    }

    method RenderCreateTable(create: CreateTable) returns (sql: string)
      ensures sql == RenderParts(adapter, StatementParts(adapter, Create(create)))
    {
      hide RenderParts, ColumnsParts, ColumnParts, StatementParts, QuoteIdentifier;
      sql := "create table " + QuoteIdentifier(adapter, create.name) + " (\n";
      ghost var head := sql;
      var index := 0;
      assert create.columns[0..] == create.columns;
      while index < |create.columns|
        invariant index <= |create.columns|
        invariant sql + RenderParts(adapter, ColumnsParts(create.columns[index..]))
               == head + RenderParts(adapter, ColumnsParts(create.columns))
      {
        RenderColumnsStep(adapter, create.columns[index..]);
        assert create.columns[index..][1..] == create.columns[index + 1..];
        sql := sql + "  ";
        var definition := RenderColumnDefinition(create.columns[index]);
        sql := sql + definition;
        if index + 1 == |create.columns| {
          sql := sql + "\n";
        } else {
          sql := sql + ",\n";
        }
        index := index + 1;
      }
      assert create.columns[index..] == [];
      RenderNoColumns(adapter);
      RenderCreate(adapter, create);
      sql := sql + ")";
    }

    method RenderColumnDefinition(column: Column) returns (sql: string)
      ensures sql == RenderParts(adapter, ColumnParts(column))
    {
      hide QuoteIdentifier, StringLiteral, RenderParts, ColumnParts;
      RenderDefinition(adapter, column);
      sql := QuoteIdentifier(adapter, column.name) + " " + column.typeName;
      if column.primaryKey { sql := sql + " primary key"; }
      if column.notNull { sql := sql + " not null"; }
      if column.unique { sql := sql + " unique"; }
      assert sql == QuoteIdentifier(adapter, column.name) + ColumnText(column);
      hide ColumnText;
      if column.default.Some? {
        sql := sql + " default " + StringLiteral(adapter, column.default.value);
      }
    }
  }
}
