/** What a migration file means, read in two plain passes: first every word takes its literals from
    the stack, then the resulting operations are grouped into statements by a small grammar. */
module MigrationReading {
  import opened Wrappers
  import opened MigrationSyntax

  /** A word together with the literals it took, in the order they were written. */
  datatype Op =
    | TableCreateOp(name: string)
    | ColumnOp(name: string, typeName: string)
    | ColumnAddOp(table: string, name: string, typeName: string)
    | ColumnDropOp(table: string, name: string)
    | ColumnRenameOp(table: string, oldName: string, newName: string)
    | IndexCreateOp(name: string, table: string, on: string, unique: bool)
    | IndexDropOp(name: string, table: string)
    | ModifyOp(modifier: Modifier)
    | DefaultOp(value: string)
    | TableDropOp(table: string)

  function Arity(word: Word): nat {
    match word
    case TableCreate | Default | TableDrop => 1
    case DeclareColumn | ColumnDrop | IndexDrop => 2
    case ColumnAdd | ColumnRename | IndexCreate(_) => 3
    case Modify(_) => 0
  }

  function MakeOp(word: Word, args: seq<string>): Op
    requires |args| == Arity(word)
  {
    match word
    case TableCreate => TableCreateOp(args[0])
    case DeclareColumn => ColumnOp(args[0], args[1])
    case ColumnAdd => ColumnAddOp(args[0], args[1], args[2])
    case ColumnDrop => ColumnDropOp(args[0], args[1])
    case ColumnRename => ColumnRenameOp(args[0], args[1], args[2])
    case IndexCreate(unique) => IndexCreateOp(args[0], args[1], args[2], unique)
    case IndexDrop => IndexDropOp(args[0], args[1])
    case Modify(modifier) => ModifyOp(modifier)
    case Default => DefaultOp(args[0])
    case TableDrop => TableDropOp(args[0])
  }

  function Operands(op: Op): seq<string> {
    match op
    case TableCreateOp(name) => [name]
    case ColumnOp(name, typeName) => [name, typeName]
    case ColumnAddOp(table, name, typeName) => [table, name, typeName]
    case ColumnDropOp(table, name) => [table, name]
    case ColumnRenameOp(table, oldName, newName) => [table, oldName, newName]
    case IndexCreateOp(name, table, on, _) => [name, table, on]
    case IndexDropOp(name, table) => [name, table]
    case ModifyOp(_) => []
    case DefaultOp(value) => [value]
    case TableDropOp(table) => [table]
  }

  predicate ValidOp(op: Op) {
    match op
    case TableCreateOp(name) => ValidIdentifier(name)
    case ColumnOp(name, typeName) => ValidIdentifier(name) && ValidTypeName(typeName)
    case ColumnAddOp(table, name, typeName) =>
      ValidIdentifier(table) && ValidIdentifier(name) && ValidTypeName(typeName)
    case ColumnDropOp(table, name) => ValidIdentifier(table) && ValidIdentifier(name)
    case ColumnRenameOp(table, oldName, newName) =>
      ValidIdentifier(table) && ValidIdentifier(oldName) && ValidIdentifier(newName)
    case IndexCreateOp(name, table, on, _) =>
      ValidIdentifier(name) && ValidIdentifier(table) && ValidIdentifier(on)
    case IndexDropOp(name, table) => ValidIdentifier(name) && ValidIdentifier(table)
    case ModifyOp(_) | DefaultOp(_) => true
    case TableDropOp(table) => ValidIdentifier(table)
  }

  /** Pass one: a word takes the literals that were written last and not yet taken. The result holds
      the operations in order and the literals no word took. */
  function Bind(tokens: seq<Token>, stack: seq<string>): Option<(seq<Op>, seq<string>)> {
    if tokens == [] then Some(([], stack))
    else match tokens[0]
      case Literal(value) => Bind(tokens[1..], stack + [value])
      case Ignored => Bind(tokens[1..], stack)
      case Other => None
      case Symbol(text) =>
        match TakeOperands(text, stack)
        case None => None
        case Some((op, rest)) =>
          match Bind(tokens[1..], rest)
          case None => None
          case Some((ops, leftover)) => Some(([op] + ops, leftover))
  }

  function TakeOperands(text: string, stack: seq<string>): Option<(Op, seq<string>)> {
    match ParseWord(text)
    case None => None
    case Some(word) =>
      if |stack| < Arity(word) then None
      else
        var split := |stack| - Arity(word);
        var op := MakeOp(word, stack[split..]);
        if ValidOp(op) then Some((op, stack[..split])) else None
  }

  predicate IsModifier(op: Op) {
    op.ModifyOp? || op.DefaultOp?
  }

  function Modified(column: Column, op: Op): Column
    requires IsModifier(op)
  {
    match op
    case ModifyOp(PrimaryKey) => column.(primaryKey := true)
    case ModifyOp(NotNull) => column.(notNull := true)
    case ModifyOp(Unique) => column.(unique := true)
    case DefaultOp(value) => column.(default := Some(value))
  }

  /** The modifiers right after a column belong to it. */
  function ReadModifiers(column: Column, ops: seq<Op>): (r: (Column, seq<Op>))
    ensures |r.1| <= |ops|
    decreases |ops|
  {
    if ops != [] && IsModifier(ops[0])
    then ReadModifiers(Modified(column, ops[0]), ops[1..])
    else (column, ops)
  }

  /** The columns right after a table_create belong to it. */
  function ReadColumns(ops: seq<Op>): (r: (seq<Column>, seq<Op>))
    ensures |r.1| <= |ops|
    ensures r.0 != [] ==> |r.1| < |ops|
    decreases |ops|
  {
    if ops != [] && ops[0].ColumnOp? then
      var (column, afterModifiers) := ReadModifiers(NewColumn(ops[0].name, ops[0].typeName), ops[1..]);
      var (columns, rest) := ReadColumns(afterModifiers);
      ([column] + columns, rest)
    else ([], ops)
  }

  function Prepend(statement: Statement, tail: Option<seq<Statement>>): Option<seq<Statement>> {
    match tail
    case None => None
    case Some(statements) => Some([statement] + statements)
  }

  /** Pass two: one statement for each declaring operation, in the order they were written. */
  function Group(ops: seq<Op>): Option<seq<Statement>>
    decreases |ops|
  {
    if ops == [] then Some([])
    else match ops[0]
      case TableCreateOp(name) =>
        var (columns, rest) := ReadColumns(ops[1..]);
        if columns == [] then None else Prepend(Create(CreateTable(name, columns)), Group(rest))
      case ColumnAddOp(table, name, typeName) =>
        var (column, rest) := ReadModifiers(NewColumn(name, typeName), ops[1..]);
        Prepend(AddColumn(table, column), Group(rest))
      case ColumnDropOp(table, name) => Prepend(DropColumn(table, name), Group(ops[1..]))
      case ColumnRenameOp(table, oldName, newName) =>
        Prepend(RenameColumn(table, oldName, newName), Group(ops[1..]))
      case IndexCreateOp(name, table, on, unique) =>
        Prepend(CreateIndex(name, table, on, unique), Group(ops[1..]))
      case IndexDropOp(name, table) => Prepend(DropIndex(name, table), Group(ops[1..]))
      case TableDropOp(table) => Prepend(DropTable(table), Group(ops[1..]))
      case ColumnOp(_, _) | ModifyOp(_) | DefaultOp(_) => None
  }

  predicate HasTableCreate(ops: seq<Op>) {
    exists i | 0 <= i < |ops| :: ops[i].TableCreateOp?
  }

  predicate HasTableDrop(ops: seq<Op>) {
    exists i | 0 <= i < |ops| :: ops[i].TableDropOp?
  }

  /** The statements a whole file stands for, or None when the file is not acceptable. */
  function Reading(tokens: seq<Token>): Option<seq<Statement>> {
    match Bind(tokens, [])
    case None => None
    case Some((ops, leftover)) =>
      if leftover != [] || ops == [] || (HasTableCreate(ops) && HasTableDrop(ops)) then None
      else Group(ops)
  }

  // ----- statements follow their declaring words -----

  predicate IsDeclaration(op: Op) {
    !IsModifier(op) && !op.ColumnOp?
  }

  function Declarations(ops: seq<Op>): seq<Op> {
    if ops == [] then []
    else if IsDeclaration(ops[0]) then [ops[0]] + Declarations(ops[1..])
    else Declarations(ops[1..])
  }

  /** The declaring operation a statement came from. */
  function DeclarationOf(statement: Statement): Op {
    match statement
    case Create(create) => TableCreateOp(create.name)
    case AddColumn(table, column) => ColumnAddOp(table, column.name, column.typeName)
    case DropColumn(table, name) => ColumnDropOp(table, name)
    case RenameColumn(table, oldName, newName) => ColumnRenameOp(table, oldName, newName)
    case CreateIndex(name, table, on, unique) => IndexCreateOp(name, table, on, unique)
    case DropIndex(name, table) => IndexDropOp(name, table)
    case DropTable(table) => TableDropOp(table)
  }

  lemma {:induction false} ModifiersKeepDeclarations(column: Column, ops: seq<Op>)
    ensures var (after, rest) := ReadModifiers(column, ops);
            && after.name == column.name && after.typeName == column.typeName
            && Declarations(rest) == Declarations(ops)
            && (rest == [] || !IsModifier(rest[0]))
    decreases |ops|
  {
    if ops != [] && IsModifier(ops[0]) {
      ModifiersKeepDeclarations(Modified(column, ops[0]), ops[1..]);
    }
  }

  lemma {:induction false} ColumnsKeepDeclarations(ops: seq<Op>)
    ensures Declarations(ReadColumns(ops).1) == Declarations(ops)
    decreases |ops|
  {
    if ops != [] && ops[0].ColumnOp? {
      var column := NewColumn(ops[0].name, ops[0].typeName);
      ModifiersKeepDeclarations(column, ops[1..]);
      ColumnsKeepDeclarations(ReadModifiers(column, ops[1..]).1);
    }
  }

  /** Each statement comes from the declaration at its place. */
  predicate Follow(statements: seq<Statement>, declarations: seq<Op>) {
    && |statements| == |declarations|
    && forall i | 0 <= i < |statements| :: DeclarationOf(statements[i]) == declarations[i]
  }

  lemma FollowPrepended(statement: Statement, statements: seq<Statement>, op: Op, declarations: seq<Op>)
    requires DeclarationOf(statement) == op && Follow(statements, declarations)
    ensures Follow([statement] + statements, [op] + declarations)
  {
    hide DeclarationOf;
  }

  /** The deferred CREATE TABLE never reorders: statement i comes from declaring word i. */
  lemma {:induction false} StatementsFollowDeclarations(ops: seq<Op>)
    requires Group(ops).Some?
    ensures Follow(Group(ops).value, Declarations(ops))
    decreases |ops|
  {
    if ops != [] {
      var op := ops[0];
      hide Follow;
      if op.TableCreateOp? {
        ColumnsKeepDeclarations(ops[1..]);
        var rest := ReadColumns(ops[1..]).1;
        StatementsFollowDeclarations(rest);
        FollowPrepended(Group(ops).value[0], Group(rest).value, op, Declarations(rest));
      } else if op.ColumnAddOp? {
        var column := NewColumn(op.name, op.typeName);
        ModifiersKeepDeclarations(column, ops[1..]);
        var rest := ReadModifiers(column, ops[1..]).1;
        StatementsFollowDeclarations(rest);
        FollowPrepended(Group(ops).value[0], Group(rest).value, op, Declarations(rest));
      } else {
        StatementsFollowDeclarations(ops[1..]);
        FollowPrepended(Group(ops).value[0], Group(ops[1..]).value, op, Declarations(ops[1..]));
      }
    }
  }

  // ----- every literal is used -----
  // Uses are counted for one string w at a time.

  function Count(strings: seq<string>, w: string): nat {
    if strings == [] then 0 else (if strings[0] == w then 1 else 0) + Count(strings[1..], w)
  }

  lemma {:induction false} CountConcat(a: seq<string>, b: seq<string>, w: string)
    ensures Count(a + b, w) == Count(a, w) + Count(b, w)
  {
    if a == [] {
      assert a + b == b;
    } else {
      assert (a + b)[1..] == a[1..] + b;
      CountConcat(a[1..], b, w);
    }
  }

  function Written(tokens: seq<Token>, w: string): nat {
    if tokens == [] then 0
    else (if tokens[0] == Literal(w) then 1 else 0) + Written(tokens[1..], w)
  }

  function Taken(ops: seq<Op>, w: string): nat {
    if ops == [] then 0 else Count(Operands(ops[0]), w) + Taken(ops[1..], w)
  }

  lemma OperandsTaken(text: string, stack: seq<string>)
    requires TakeOperands(text, stack).Some?
    ensures var (op, rest) := TakeOperands(text, stack).value;
            stack == rest + Operands(op)
  {
    hide ParseWord, ValidOp;
  }

  lemma TakenOperands(text: string, stack: seq<string>, w: string)
    requires TakeOperands(text, stack).Some?
    ensures var (op, rest) := TakeOperands(text, stack).value;
            Count(stack, w) == Count(rest, w) + Count(Operands(op), w)
  {
    OperandsTaken(text, stack);
    hide TakeOperands, Count, Operands;
    var (op, rest) := TakeOperands(text, stack).value;
    CountConcat(rest, Operands(op), w);
  }

  /** No literal is lost or taken twice by the words: what was written is what the operations hold
      plus what is left over. */
  lemma {:induction false} BindConservesLiterals(tokens: seq<Token>, stack: seq<string>, w: string)
    requires Bind(tokens, stack).Some?
    ensures var (ops, leftover) := Bind(tokens, stack).value;
            Count(stack, w) + Written(tokens, w) == Taken(ops, w) + Count(leftover, w)
  {
    if tokens == [] {
    } else if tokens[0].Literal? {
      BindConservesLiterals(tokens[1..], stack + [tokens[0].value], w);
      CountConcat(stack, [tokens[0].value], w);
    } else if tokens[0].Ignored? {
      BindConservesLiterals(tokens[1..], stack, w);
    } else {
      TakenOperands(tokens[0].word, stack, w);
      BindConservesLiterals(tokens[1..], TakeOperands(tokens[0].word, stack).value.1, w);
      var ops := Bind(tokens, stack).value.0;
      assert ops[1..] == Bind(tokens[1..], TakeOperands(tokens[0].word, stack).value.1).value.0;
    }
  }

  function DefaultHolds(default: Option<string>, w: string): nat {
    if default == Some(w) then 1 else 0
  }

  function ColumnHolds(column: Column, w: string): nat {
    Count([column.name, column.typeName], w) + DefaultHolds(column.default, w)
  }

  function ColumnsHold(columns: seq<Column>, w: string): nat {
    if columns == [] then 0 else ColumnHolds(columns[0], w) + ColumnsHold(columns[1..], w)
  }

  function StatementHolds(statement: Statement, w: string): nat {
    match statement
    case Create(create) => Count([create.name], w) + ColumnsHold(create.columns, w)
    case AddColumn(table, column) => Count([table], w) + ColumnHolds(column, w)
    case DropColumn(table, name) => Count([table, name], w)
    case RenameColumn(table, oldName, newName) => Count([table, oldName, newName], w)
    case CreateIndex(name, table, on, _) => Count([name, table, on], w)
    case DropIndex(name, table) => Count([name, table], w)
    case DropTable(table) => Count([table], w)
  }

  function Held(statements: seq<Statement>, w: string): nat {
    if statements == [] then 0 else StatementHolds(statements[0], w) + Held(statements[1..], w)
  }

  /** How often w is a default value that a later default word of the same column overwrites. */
  function Overwritten(ops: seq<Op>, current: Option<string>, w: string): nat {
    if ops == [] then 0
    else match ops[0]
      case ModifyOp(_) => Overwritten(ops[1..], current, w)
      case DefaultOp(value) => DefaultHolds(current, w) + Overwritten(ops[1..], Some(value), w)
      case _ => Overwritten(ops[1..], None, w)
  }

  lemma {:induction false} ModifiersConserve(column: Column, ops: seq<Op>, w: string)
    ensures var (after, rest) := ReadModifiers(column, ops);
            ColumnHolds(after, w) + Taken(rest, w) + Overwritten(ops, column.default, w)
            == ColumnHolds(column, w) + Taken(ops, w) + Overwritten(rest, None, w)
    decreases |ops|
  {
    if ops != [] && IsModifier(ops[0]) {
      ModifiersConserve(Modified(column, ops[0]), ops[1..], w);
      ModifierUse(column, ops[0], w);
    }
  }

  lemma ModifierUse(column: Column, op: Op, w: string)
    requires IsModifier(op)
    ensures ColumnHolds(column, w) + Count(Operands(op), w)
         == ColumnHolds(Modified(column, op), w) + (if op.DefaultOp? then DefaultHolds(column.default, w) else 0)
    ensures op.ModifyOp? ==> Modified(column, op).default == column.default
  {
  }

  lemma {:induction false} ColumnsConserve(ops: seq<Op>, w: string)
    ensures var (columns, rest) := ReadColumns(ops);
            ColumnsHold(columns, w) + Taken(rest, w) + Overwritten(ops, None, w)
            == Taken(ops, w) + Overwritten(rest, None, w)
    decreases |ops|
  {
    if ops != [] && ops[0].ColumnOp? {
      var column := NewColumn(ops[0].name, ops[0].typeName);
      ModifiersConserve(column, ops[1..], w);
      var (after, afterModifiers) := ReadModifiers(column, ops[1..]);
      ColumnsConserve(afterModifiers, w);
      var columns := ReadColumns(ops).0;
      assert columns[0] == after && columns[1..] == ReadColumns(afterModifiers).0;
    }
  }

  lemma HeldPrepend(statement: Statement, tail: Option<seq<Statement>>, w: string)
    requires tail.Some?
    ensures Held(Prepend(statement, tail).value, w) == StatementHolds(statement, w) + Held(tail.value, w)
  {
    assert ([statement] + tail.value)[1..] == tail.value;
  }

  lemma {:induction false} GroupConserves(ops: seq<Op>, w: string)
    requires Group(ops).Some?
    ensures Taken(ops, w) == Held(Group(ops).value, w) + Overwritten(ops, None, w)
    decreases |ops|
  {
    if ops != [] {
      var op := ops[0];
      if op.TableCreateOp? {
        ColumnsConserve(ops[1..], w);
        var (columns, rest) := ReadColumns(ops[1..]);
        GroupConserves(rest, w);
        HeldPrepend(Create(CreateTable(op.name, columns)), Group(rest), w);
      } else if op.ColumnAddOp? {
        var column := NewColumn(op.name, op.typeName);
        ModifiersConserve(column, ops[1..], w);
        var (after, rest) := ReadModifiers(column, ops[1..]);
        GroupConserves(rest, w);
        HeldPrepend(AddColumn(op.table, after), Group(rest), w);
        CountConcat([op.table], [op.name, op.typeName], w);
        assert Operands(op) == [op.table] + [op.name, op.typeName];
      } else {
        GroupConserves(ops[1..], w);
        HeldPrepend(Group(ops).value[0], Group(ops[1..]), w);
      }
    }
  }

  /** Some column is given a default twice. */
  predicate RepeatsDefault(ops: seq<Op>) {
    ops != [] && ((ops[0].DefaultOp? && LeadsWithDefault(ops[1..])) || RepeatsDefault(ops[1..]))
  }

  /** A default word comes before any word that is not a modifier. */
  predicate LeadsWithDefault(ops: seq<Op>) {
    ops != [] && (ops[0].DefaultOp? || (ops[0].ModifyOp? && LeadsWithDefault(ops[1..])))
  }

  lemma {:induction false} NothingOverwritten(ops: seq<Op>, current: Option<string>, w: string)
    requires !RepeatsDefault(ops) && !(current.Some? && LeadsWithDefault(ops))
    ensures Overwritten(ops, current, w) == 0
  {
    if ops != [] {
      var next := if ops[0].ModifyOp? then current else if ops[0].DefaultOp? then Some(ops[0].value) else None;
      NothingOverwritten(ops[1..], next, w);
    }
  }

  lemma {:induction false} SomethingOverwritten(ops: seq<Op>, current: Option<string>) returns (w: string)
    requires RepeatsDefault(ops) || (current.Some? && LeadsWithDefault(ops))
    ensures Overwritten(ops, current, w) > 0
  {
    if current.Some? && ops[0].DefaultOp? {
      w := current.value;
    } else {
      var next := if ops[0].ModifyOp? then current else if ops[0].DefaultOp? then Some(ops[0].value) else None;
      w := SomethingOverwritten(ops[1..], next);
    }
  }

  /** Every literal of an accepted file ends up in the statements, once for each time it was
      written, if and only if no column is given a default twice. */
  lemma LiteralsUsedExactlyOnce(tokens: seq<Token>)
    requires Reading(tokens).Some?
    ensures (forall w :: Written(tokens, w) == Held(Reading(tokens).value, w))
       <==> !RepeatsDefault(Bind(tokens, []).value.0)
  {
    var ops := Bind(tokens, []).value.0;
    forall w ensures Written(tokens, w) == Held(Reading(tokens).value, w) + Overwritten(ops, None, w) {
      BindConservesLiterals(tokens, [], w);
      GroupConserves(ops, w);
    }
    if RepeatsDefault(ops) {
      var w := SomethingOverwritten(ops, None);
      assert Written(tokens, w) != Held(Reading(tokens).value, w);
    } else {
      forall w ensures Overwritten(ops, None, w) == 0 {
        NothingOverwritten(ops, None, w);
      }
    }
  }
}
