/** The compiler's own way of working, on values: one operation at a time, with CREATE TABLE held back
    until its columns are known and a pointer to the column that modifiers change. It agrees with the
    two-pass reading on every list of operations. */
module MigrationOnePass {
  import opened Wrappers
  import opened MigrationSyntax
  import opened MigrationReading
  import opened MigrationSql

  datatype ColumnTarget = CurrentCreate | AtStatement(index: nat)

  /** The compiler's fields, without the literal stack. */
  datatype Core = Core(
    statements: seq<Statement>,
    currentCreate: Option<CreateTable>,
    lastColumnTarget: Option<ColumnTarget>,
    sawCreate: bool,
    sawDrop: bool)

  const START := Core([], None, None, false, false)

  /** The held-back CREATE TABLE joins the statements; it must have columns by then. */
  function Finished(core: Core): Option<Core> {
    match core.currentCreate
    case None => Some(core)
    case Some(create) =>
      if create.columns == [] then None
      else Some(core.(statements := core.statements + [Create(create)], currentCreate := None))
  }

  function Emit(core: Core, statement: Statement, target: Option<ColumnTarget>): Option<Core> {
    match Finished(core)
    case None => None
    case Some(done) => Some(done.(statements := done.statements + [statement], lastColumnTarget := target))
  }

  function ModifyTarget(core: Core, op: Op): Option<Core>
    requires IsModifier(op)
  {
    match core.lastColumnTarget
    case None => None
    case Some(CurrentCreate) =>
      if core.currentCreate.None? || core.currentCreate.value.columns == [] then None
      else
        var create := core.currentCreate.value;
        var last := |create.columns| - 1;
        Some(core.(currentCreate := Some(create.(columns := create.columns[last := Modified(create.columns[last], op)]))))
    case Some(AtStatement(index)) =>
      if index < |core.statements| && core.statements[index].AddColumn? then
        var statement := core.statements[index];
        Some(core.(statements := core.statements[index := statement.(column := Modified(statement.column, op))]))
      else None
  }

  function Apply(core: Core, op: Op): Option<Core> {
    match op
    case TableCreateOp(name) =>
      if core.sawDrop || Finished(core).None? then None
      else Some(Finished(core).value.(currentCreate := Some(CreateTable(name, [])), lastColumnTarget := None, sawCreate := true))
    case ColumnOp(name, typeName) =>
      if core.currentCreate.None? then None
      else
        var create := core.currentCreate.value;
        Some(core.(currentCreate := Some(create.(columns := create.columns + [NewColumn(name, typeName)])),
                   lastColumnTarget := Some(CurrentCreate)))
    case ColumnAddOp(table, name, typeName) =>
      if Finished(core).None? then None
      else Emit(core, AddColumn(table, NewColumn(name, typeName)), Some(AtStatement(|Finished(core).value.statements|)))
    case ColumnDropOp(table, name) => Emit(core, DropColumn(table, name), None)
    case ColumnRenameOp(table, oldName, newName) => Emit(core, RenameColumn(table, oldName, newName), None)
    case IndexCreateOp(name, table, on, unique) => Emit(core, CreateIndex(name, table, on, unique), None)
    case IndexDropOp(name, table) => Emit(core, DropIndex(name, table), None)
    case ModifyOp(_) | DefaultOp(_) => ModifyTarget(core, op)
    case TableDropOp(table) =>
      if core.sawCreate || core.currentCreate.Some? then None
      else Some(core.(statements := core.statements + [DropTable(table)], lastColumnTarget := None, sawDrop := true))
  }

  function Run(core: Core, ops: seq<Op>): Option<seq<Statement>>
    decreases |ops|
  {
    if ops == [] then
      match Finished(core) { case None => None case Some(done) => Some(done.statements) }
    else
      match Apply(core, ops[0]) { case None => None case Some(next) => Run(next, ops[1..]) }
  }

  /** What every step keeps. The pointer always names the last declared column, so the source's
      "target is no longer a column" failures cannot happen. */
  predicate Consistent(core: Core) {
    && (core.currentCreate.Some? ==> core.sawCreate)
    && !(core.sawCreate && core.sawDrop)
    && (core.currentCreate.Some? ==>
          core.lastColumnTarget == if core.currentCreate.value.columns == [] then None else Some(CurrentCreate))
    && (core.currentCreate.None? && core.lastColumnTarget.Some? ==>
          && core.statements != []
          && core.lastColumnTarget == Some(AtStatement(|core.statements| - 1))
          && core.statements[|core.statements| - 1].AddColumn?)
  }

  predicate AllValid(core: Core) {
    && (forall s | s in core.statements :: ValidStatement(s))
    && (core.currentCreate.Some? ==>
          && ValidIdentifier(core.currentCreate.value.name)
          && forall c | c in core.currentCreate.value.columns :: ValidColumn(c))
  }

  lemma ApplyKeepsConsistent(core: Core, op: Op)
    requires Consistent(core) && Apply(core, op).Some?
    ensures Consistent(Apply(core, op).value)
  {
  }

  lemma ModifierNeverMissesItsTarget(core: Core, op: Op)
    requires Consistent(core) && IsModifier(op)
    ensures ModifyTarget(core, op).Some? <==> core.lastColumnTarget.Some?
  {
  }

  lemma EmitKeepsValid(core: Core, statement: Statement, target: Option<ColumnTarget>)
    requires AllValid(core) && ValidStatement(statement) && Emit(core, statement, target).Some?
    ensures AllValid(Emit(core, statement, target).value)
  {
  }

  lemma ApplyKeepsValid(core: Core, op: Op)
    requires AllValid(core) && ValidOp(op) && Apply(core, op).Some?
    ensures AllValid(Apply(core, op).value)
  {
    match op
    case TableCreateOp(_) | ColumnOp(_, _) | TableDropOp(_) =>
    case ModifyOp(_) | DefaultOp(_) => ModifyKeepsValid(core, op);
    case ColumnAddOp(table, name, typeName) =>
      EmitKeepsValid(core, AddColumn(table, NewColumn(name, typeName)), Some(AtStatement(|Finished(core).value.statements|)));
    case ColumnDropOp(table, name) => EmitKeepsValid(core, DropColumn(table, name), None);
    case ColumnRenameOp(table, oldName, newName) => EmitKeepsValid(core, RenameColumn(table, oldName, newName), None);
    case IndexCreateOp(name, table, on, unique) => EmitKeepsValid(core, CreateIndex(name, table, on, unique), None);
    case IndexDropOp(name, table) => EmitKeepsValid(core, DropIndex(name, table), None);
  }

  lemma ModifyKeepsValid(core: Core, op: Op)
    requires AllValid(core) && IsModifier(op) && ModifyTarget(core, op).Some?
    ensures AllValid(ModifyTarget(core, op).value)
  {
    var next := ModifyTarget(core, op).value;
    if core.lastColumnTarget.value.CurrentCreate? {
      var columns := core.currentCreate.value.columns;
      assert ValidColumn(columns[|columns| - 1]);
      forall c | c in next.currentCreate.value.columns ensures ValidColumn(c) {
        assert c in columns || c == Modified(columns[|columns| - 1], op);
      }
    } else {
      var index := core.lastColumnTarget.value.index;
      assert ValidStatement(core.statements[index]);
      forall s | s in next.statements ensures ValidStatement(s) {
        assert s in core.statements || s == next.statements[index];
      }
    }
  }

  // ----- agreement with the two-pass reading -----

  function Append(statements: seq<Statement>, tail: Option<seq<Statement>>): Option<seq<Statement>> {
    match tail
    case None => None
    case Some(rest) => Some(statements + rest)
  }

  /** The two-pass reading of the remaining operations, continued from the middle of a file. */
  function Continue(core: Core, ops: seq<Op>): Option<seq<Statement>>
    requires Consistent(core)
  {
    match core.currentCreate
    case Some(create) =>
      if create.columns == [] then ContinueColumns(core.statements, create, ops)
      else
        var last := |create.columns| - 1;
        var (column, rest) := ReadModifiers(create.columns[last], ops);
        ContinueColumns(core.statements, create.(columns := create.columns[last := column]), rest)
    case None =>
      if core.lastColumnTarget.None? then Append(core.statements, Group(ops))
      else
        var last := |core.statements| - 1;
        var (column, rest) := ReadModifiers(core.statements[last].column, ops);
        Append(core.statements[..last] + [core.statements[last].(column := column)], Group(rest))
  }

  function ContinueColumns(statements: seq<Statement>, create: CreateTable, ops: seq<Op>): Option<seq<Statement>> {
    var (columns, rest) := ReadColumns(ops);
    var all := create.columns + columns;
    if all == [] then None else Append(statements + [Create(create.(columns := all))], Group(rest))
  }

  predicate Mixed(core: Core, ops: seq<Op>) {
    (core.sawCreate || HasTableCreate(ops)) && (core.sawDrop || HasTableDrop(ops))
  }

  lemma MixedStep(core: Core, ops: seq<Op>)
    requires ops != []
    ensures HasTableCreate(ops) <==> ops[0].TableCreateOp? || HasTableCreate(ops[1..])
    ensures HasTableDrop(ops) <==> ops[0].TableDropOp? || HasTableDrop(ops[1..])
  {
    assert forall i | 0 <= i < |ops| - 1 :: ops[1..][i] == ops[i + 1];
    if HasTableCreate(ops[1..]) {
      var i :| 0 <= i < |ops[1..]| && ops[1..][i].TableCreateOp?;
      assert ops[i + 1].TableCreateOp?;
    }
    if HasTableDrop(ops[1..]) {
      var i :| 0 <= i < |ops[1..]| && ops[1..][i].TableDropOp?;
      assert ops[i + 1].TableDropOp?;
    }
  }

  lemma AppendPrepend(statements: seq<Statement>, statement: Statement, tail: Option<seq<Statement>>)
    ensures Append(statements, Prepend(statement, tail)) == Append(statements + [statement], tail)
  {
    if tail.Some? {
      assert statements + ([statement] + tail.value) == (statements + [statement]) + tail.value;
    }
  }

  lemma ContinueAtDeclaration(core: Core, ops: seq<Op>)
    requires Consistent(core) && (ops == [] || IsDeclaration(ops[0]))
    ensures Continue(core, ops)
         == match Finished(core) { case None => None case Some(done) => Append(done.statements, Group(ops)) }
  {
    match core.currentCreate
    case Some(create) =>
      assert create.columns + [] == create.columns;
      if create.columns != [] {
        var last := |create.columns| - 1;
        assert create.columns[last := create.columns[last]] == create.columns;
      }
    case None =>
      if core.lastColumnTarget.Some? {
        var last := |core.statements| - 1;
        assert core.statements[..last] + [core.statements[last]] == core.statements;
      }
  }

  lemma ContinueModifier(core: Core, ops: seq<Op>)
    requires Consistent(core) && ops != [] && IsModifier(ops[0])
    ensures match Apply(core, ops[0]) {
              case Some(next) => Consistent(next) && Continue(core, ops) == Continue(next, ops[1..])
              case None => Continue(core, ops).None?
            }
  {
    if core.lastColumnTarget.Some? {
      var next := Apply(core, ops[0]).value;
      if core.currentCreate.Some? {
        var columns := core.currentCreate.value.columns;
        var last := |columns| - 1;
        var column := ReadModifiers(columns[last], ops).0;
        assert next.currentCreate.value.columns[last := column] == columns[last := column];
      } else {
        var last := |core.statements| - 1;
        assert next.statements[..last] == core.statements[..last];
      }
    }
  }

  lemma ContinueColumn(core: Core, ops: seq<Op>)
    requires Consistent(core) && ops != [] && ops[0].ColumnOp?
    ensures match Apply(core, ops[0]) {
              case Some(next) => Consistent(next) && Continue(core, ops) == Continue(next, ops[1..])
              case None => Continue(core, ops).None?
            }
  {
    if core.currentCreate.Some? {
      var next, columns := Apply(core, ops[0]).value, core.currentCreate.value.columns;
      var (column, afterModifiers) := ReadModifiers(NewColumn(ops[0].name, ops[0].typeName), ops[1..]);
      var more := ReadColumns(afterModifiers).0;
      assert columns + ([column] + more) == next.currentCreate.value.columns[|columns| := column] + more;
      if columns != [] {
        assert columns[|columns| - 1 := columns[|columns| - 1]] == columns;
      }
    }
  }

  /** Continuing past one operation is the same before and after the compiler takes it; where the
      compiler refuses, so does the reading, or the file mixes creates and drops. */
  lemma ContinueStep(core: Core, ops: seq<Op>)
    requires Consistent(core) && ops != []
    ensures match Apply(core, ops[0]) {
              case Some(next) => Consistent(next) && Continue(core, ops) == Continue(next, ops[1..])
              case None =>
                || Continue(core, ops).None?
                || (core.sawDrop && ops[0].TableCreateOp?) || (core.sawCreate && ops[0].TableDropOp?)
            }
  {
    if IsModifier(ops[0]) {
      ContinueModifier(core, ops);
    } else if ops[0].ColumnOp? {
      ContinueColumn(core, ops);
    } else {
      ContinueAtDeclaration(core, ops);
      if Apply(core, ops[0]).Some? {
        ContinueDeclaration(core, ops);
      }
    }
  }

  lemma ContinueDeclaration(core: Core, ops: seq<Op>)
    requires Consistent(core) && ops != [] && IsDeclaration(ops[0]) && Apply(core, ops[0]).Some?
    ensures Finished(core).Some?
    ensures var next := Apply(core, ops[0]).value;
            Consistent(next) && Continue(next, ops[1..]) == Append(Finished(core).value.statements, Group(ops))
  {
    ApplyKeepsConsistent(core, ops[0]);
    if ops[0].TableCreateOp? {
      ContinueTableCreate(core, ops);
    } else if ops[0].ColumnAddOp? {
      ContinueColumnAdd(core, ops);
    } else {
      ContinuePlain(core, ops);
    }
  }

  lemma ContinueTableCreate(core: Core, ops: seq<Op>)
    requires Consistent(core) && ops != [] && ops[0].TableCreateOp? && Apply(core, ops[0]).Some?
    requires Consistent(Apply(core, ops[0]).value)
    ensures Continue(Apply(core, ops[0]).value, ops[1..]) == Append(Finished(core).value.statements, Group(ops))
  {
    var (columns, rest) := ReadColumns(ops[1..]);
    assert [] + columns == columns;
    AppendPrepend(Finished(core).value.statements, Create(CreateTable(ops[0].name, columns)), Group(rest));
  }

  lemma ContinueColumnAdd(core: Core, ops: seq<Op>)
    requires Consistent(core) && ops != [] && ops[0].ColumnAddOp? && Apply(core, ops[0]).Some?
    requires Consistent(Apply(core, ops[0]).value)
    ensures Continue(Apply(core, ops[0]).value, ops[1..]) == Append(Finished(core).value.statements, Group(ops))
  {
    var next, statements := Apply(core, ops[0]).value, Finished(core).value.statements;
    var (column, rest) := ReadModifiers(NewColumn(ops[0].name, ops[0].typeName), ops[1..]);
    assert next.statements[..|statements|] == statements;
    AppendPrepend(statements, AddColumn(ops[0].table, column), Group(rest));
  }

  /** The declarations that take no columns or modifiers. */
  function PlainStatement(op: Op): Statement
    requires IsDeclaration(op) && !op.TableCreateOp? && !op.ColumnAddOp?
  {
    match op
    case ColumnDropOp(table, name) => DropColumn(table, name)
    case ColumnRenameOp(table, oldName, newName) => RenameColumn(table, oldName, newName)
    case IndexCreateOp(name, table, on, unique) => CreateIndex(name, table, on, unique)
    case IndexDropOp(name, table) => DropIndex(name, table)
    case TableDropOp(table) => DropTable(table)
  }

  lemma ApplyPlain(core: Core, op: Op)
    requires Consistent(core) && IsDeclaration(op) && !op.TableCreateOp? && !op.ColumnAddOp?
    requires Apply(core, op).Some?
    ensures Finished(core).Some?
    ensures var next := Apply(core, op).value;
            && next.statements == Finished(core).value.statements + [PlainStatement(op)]
            && next.currentCreate.None? && next.lastColumnTarget.None?
  {
  }

  lemma ContinuePlain(core: Core, ops: seq<Op>)
    requires Consistent(core) && ops != [] && Apply(core, ops[0]).Some?
    requires IsDeclaration(ops[0]) && !ops[0].TableCreateOp? && !ops[0].ColumnAddOp?
    requires Consistent(Apply(core, ops[0]).value)
    ensures Finished(core).Some?
    ensures Continue(Apply(core, ops[0]).value, ops[1..]) == Append(Finished(core).value.statements, Group(ops))
  {
    ApplyPlain(core, ops[0]);
    assert Group(ops) == Prepend(PlainStatement(ops[0]), Group(ops[1..]));
    AppendPrepend(Finished(core).value.statements, PlainStatement(ops[0]), Group(ops[1..]));
  }

  lemma {:induction false} RunAgreesWithReading(core: Core, ops: seq<Op>)
    requires Consistent(core)
    ensures Run(core, ops) == if Mixed(core, ops) then None else Continue(core, ops)
    decreases |ops|
  {
    if ops == [] {
      ContinueAtDeclaration(core, ops);
      if Finished(core).Some? {
        assert Finished(core).value.statements + [] == Finished(core).value.statements;
      }
    } else {
      ContinueStep(core, ops);
      MixedStep(core, ops);
      if Apply(core, ops[0]).Some? {
        RunAgreesWithReading(Apply(core, ops[0]).value, ops[1..]);
      }
    }
  }
}
