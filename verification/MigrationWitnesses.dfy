/** Files that compile and show where the reading of the source, or of its SQL, falls short. */
module MigrationWitnesses {
  import opened Wrappers
  import opened MigrationSyntax
  import opened MigrationReading
  import opened MigrationSql
  import opened MigrationSqlReading
  import opened MigrationCompiler

  /** A table `t` with one column `a`, and what more is written behind it. */
  function OneColumn(typeName: string, more: seq<Token>): seq<Token> {
    [Literal("t"), Symbol("table_create"), Literal("a"), Literal(typeName), Symbol("column")] + more
  }

  lemma BindLiteral(value: string, rest: seq<Token>, stack: seq<string>)
    ensures Bind([Literal(value)] + rest, stack) == Bind(rest, stack + [value])
  {
    assert ([Literal(value)] + rest)[1..] == rest;
  }

  lemma BindWord(word: string, rest: seq<Token>, stack: seq<string>, op: Op, left: seq<string>)
    requires TakeOperands(word, stack) == Some((op, left)) && Bind(rest, left).Some?
    ensures Bind([Symbol(word)] + rest, stack)
         == Some(([op] + Bind(rest, left).value.0, Bind(rest, left).value.1))
  {
    assert ([Symbol(word)] + rest)[1..] == rest;
    hide TakeOperands;
  }

  lemma WordsTake(typeName: string, value: string)
    requires ValidTypeName(typeName)
    ensures TakeOperands("table_create", ["t"]) == Some((TableCreateOp("t"), []))
    ensures TakeOperands("column", ["a", typeName]) == Some((ColumnOp("a", typeName), []))
    ensures TakeOperands("default", [value]) == Some((DefaultOp(value), []))
  {
    hide ValidTypeName;
    assert ValidIdentifier("t") && ValidIdentifier("a");
    assert ["t"][0..] == ["t"] && ["t"][..0] == [];
    assert ["a", typeName][0..] == ["a", typeName] && ["a", typeName][..0] == [];
    assert [value][0..] == [value] && [value][..0] == [];
  }

  lemma OneColumnBinds(typeName: string, more: seq<Token>)
    requires ValidTypeName(typeName) && Bind(more, []).Some?
    ensures Bind(OneColumn(typeName, more), [])
         == Some(([TableCreateOp("t"), ColumnOp("a", typeName)] + Bind(more, []).value.0, Bind(more, []).value.1))
  {
    hide Bind, TakeOperands, ValidTypeName;
    WordsTake(typeName, "");
    var last := [Symbol("column")] + more;
    var columns := [Literal("a")] + ([Literal(typeName)] + last);
    var create := [Symbol("table_create")] + columns;
    assert OneColumn(typeName, more) == [Literal("t")] + create;
    assert [] + ["t"] == ["t"] && [] + ["a"] == ["a"] && ["a"] + [typeName] == ["a", typeName];
    BindWord("column", more, ["a", typeName], ColumnOp("a", typeName), []);
    BindLiteral(typeName, last, ["a"]);
    BindLiteral("a", [Literal(typeName)] + last, []);
    BindWord("table_create", columns, ["t"], TableCreateOp("t"), []);
    BindLiteral("t", create, []);
    var ops: seq<Op> := Bind(more, []).value.0;
    assert [TableCreateOp("t")] + ([ColumnOp("a", typeName)] + ops)
        == [TableCreateOp("t"), ColumnOp("a", typeName)] + ops;
  }

  /** Every type name that passes its check can be the only one of a file that compiles. */
  lemma EveryTypeCompiles(adapter: SqlAdapter, typeName: string)
    requires ValidTypeName(typeName)
    ensures Compiled(adapter, OneColumn(typeName, [])).Some?
    ensures Reading(OneColumn(typeName, [])) == Some([Create(CreateTable("t", [NewColumn("a", typeName)]))])
  {
    OneColumnBinds(typeName, []);
    OneColumnGroups(typeName, [], NewColumn("a", typeName));
    hide Bind, Group, ValidTypeName, Rendered;
    var ops := [TableCreateOp("t"), ColumnOp("a", typeName)];
    assert ops + [] == ops;
  }

  /** Modifiers alone behind the column: one statement, with the column they lead to. */
  lemma OneColumnGroups(typeName: string, modifiers: seq<Op>, column: Column)
    requires ReadModifiers(NewColumn("a", typeName), modifiers) == (column, [])
    ensures Group([TableCreateOp("t"), ColumnOp("a", typeName)] + modifiers)
         == Some([Create(CreateTable("t", [column]))])
  {
    hide ReadModifiers;
    var ops := [TableCreateOp("t"), ColumnOp("a", typeName)] + modifiers;
    assert ops[1..] == [ColumnOp("a", typeName)] + modifiers && ops[1..][1..] == modifiers;
    assert ReadColumns([]) == ([], []);
    assert [column] + [] == [column];
    assert ReadColumns(ops[1..]) == ([column], []);
    var statement := Create(CreateTable("t", [column]));
    assert [statement] + [] == [statement];
  }

  /** The file compiles, to SQL that does not read back as its statements. */
  predicate Misread(adapter: SqlAdapter, tokens: seq<Token>) {
    && Compiled(adapter, tokens).Some?
    && ReadStatements(adapter, Compiled(adapter, tokens).value) != Expected(adapter, Reading(tokens).value)
  }

  /** A valid type name gives such a file exactly when it opens a quote or comment. */
  lemma TypeIsMisreadIff(adapter: SqlAdapter, typeName: string)
    requires ValidTypeName(typeName)
    ensures Misread(adapter, OneColumn(typeName, [])) <==> !StaysPlain(adapter, typeName)
  {
    EveryTypeCompiles(adapter, typeName);
    CompiledSqlReadsBack(adapter, OneColumn(typeName, []));
    var statement := Create(CreateTable("t", [NewColumn("a", typeName)]));
    assert TypeNames(statement) == [typeName] && ColumnsOf(statement) == [NewColumn("a", typeName)];
    hide Compiled, ReadStatements, Expected, StaysPlain, Reading, TypeNames, ColumnsOf;
    assert TypesStayPlain(adapter, statement) <==> StaysPlain(adapter, typeName) by { assert typeName in [typeName]; }
    assert DefaultsSeen(adapter, statement);
    assert statement in [statement];
  }

  /** So there are such files in every dialect. */
  lemma EveryDialectIsMisread()
    ensures Misread(Mysql, OneColumn("#", []))
    ensures Misread(Sqlite, OneColumn("[", []))
    ensures Misread(Postgres, OneColumn("$$", [])) && Misread(Postgres, OneColumn("$a$", []))
  {
    hide *;
    ShortTypesAreValid();
    OpenersAreNotPlain();
    DollarsOpen();
    TypeIsMisreadIff(Mysql, "#");
    TypeIsMisreadIff(Sqlite, "[");
    TypeIsMisreadIff(Postgres, "$$");
    TypeIsMisreadIff(Postgres, "$a$");
  }

  lemma ShortTypesAreValid()
    ensures ValidTypeName("#") && ValidTypeName("[") && ValidTypeName("$$") && ValidTypeName("$a$") && ValidTypeName("a$$")
  {
  }

  lemma OpenersAreNotPlain()
    ensures !StaysPlain(Mysql, "#") && !StaysPlain(Sqlite, "[")
  {
    assert '#' in "#" && '[' in "[";
    hide HoldsDollar;
  }

  lemma DollarsOpen()
    ensures !StaysPlain(Postgres, "$$") && !StaysPlain(Postgres, "$a$")
  {
    assert TagLength("$$"[1..]) == 0 && OpensDollar("$$");
    var tagged := "$a$";
    assert tagged[1..][0] == 'a' && tagged[1..][1..][0] == '$';
    assert TagLength(tagged[1..]) == 1 && OpensDollar(tagged);
  }

  /** Behind a letter the dollar signs belong to the word, and the file is read as written. */
  lemma DollarsInAWordAreRead()
    ensures Compiled(Postgres, OneColumn("a$$", [])).Some? && !Misread(Postgres, OneColumn("a$$", []))
  {
    ShortTypesAreValid();
    DollarsInAWordStayPlain();
    hide *;
    EveryTypeCompiles(Postgres, "a$$");
    TypeIsMisreadIff(Postgres, "a$$");
  }

  lemma DollarsInAWordStayPlain()
    ensures StaysPlain(Postgres, "a$$")
  {
    var word := "a$$";
    assert word[1..] == "$$" && "$$"[1..] == "$" && "$"[1..] == "";
    assert !HoldsDollar(true, "$");
  }

  /** A column with a default is misread exactly when the database does not see all of the default. */
  lemma DefaultIsMisreadIff(adapter: SqlAdapter, value: string)
    ensures Misread(adapter, OneColumn("text", [Literal(value), Symbol("default")])) <==> !IsSeen(adapter, value)
  {
    var tokens := OneColumn("text", [Literal(value), Symbol("default")]);
    var column := NewColumn("a", "text").(default := Some(value));
    DefaultReads(value);
    TextStaysPlain(adapter);
    hide Reading, Rendered, StaysPlain, Lex, LexSeen, ReadStatements, Expected, IsSeen;
    CompiledSqlReadsBack(adapter, tokens);
    var statement := Create(CreateTable("t", [column]));
    assert TypeNames(statement) == ["text"] && ColumnsOf(statement) == [column];
    assert column in ColumnsOf(statement) && statement in [statement];
    assert DefaultsSeen(adapter, statement) <==> IsSeen(adapter, value);
  }

  /** There are such files where a text ends at its first NUL. */
  lemma NulIsMisread()
    ensures Misread(Sqlite, OneColumn("text", [Literal("x\0y"), Symbol("default")]))
    ensures Misread(Postgres, OneColumn("text", [Literal("x\0y"), Symbol("default")]))
  {
    assert "x\0y"[1] == NUL;
    assert !IsSeen(Sqlite, "x\0y") && !IsSeen(Postgres, "x\0y");
    hide *;
    DefaultIsMisreadIff(Sqlite, "x\0y");
    DefaultIsMisreadIff(Postgres, "x\0y");
  }

  lemma TextStaysPlain(adapter: SqlAdapter)
    ensures StaysPlain(adapter, "text")
  {
    NoDollarSign(false, "text");
  }

  lemma DefaultReads(value: string)
    ensures Reading(OneColumn("text", [Literal(value), Symbol("default")]))
         == Some([Create(CreateTable("t", [NewColumn("a", "text").(default := Some(value))]))])
  {
    hide *;
    NothingBinds();
    TextIsValid();
    DefaultBinds(value, [], [], []);
    var more := [Literal(value), Symbol("default")];
    assert more + [] == more && [DefaultOp(value)] + [] == [DefaultOp(value)];
    OneColumnBinds("text", more);
    DefaultGroups(value);
    ReadingIs(OneColumn("text", more), [TableCreateOp("t"), ColumnOp("a", "text")] + [DefaultOp(value)]);
  }

  lemma DefaultGroups(value: string)
    ensures var ops := [TableCreateOp("t"), ColumnOp("a", "text")] + [DefaultOp(value)];
            && Group(ops) == Some([Create(CreateTable("t", [NewColumn("a", "text").(default := Some(value))]))])
            && !HasTableDrop(ops)
  {
    var plain := NewColumn("a", "text");
    var changed := plain.(default := Some(value));
    assert [DefaultOp(value)][1..] == [] && ReadModifiers(changed, []) == (changed, []);
    OneColumnGroups("text", [DefaultOp(value)], changed);
    hide Group, ReadModifiers;
  }

  const TWICE: seq<Token> := [Literal("x"), Symbol("default"), Literal("y"), Symbol("default")]

  /** A file with a default given twice compiles, and not every literal of it is used. */
  lemma RepeatedDefaultCompiles(adapter: SqlAdapter)
    ensures var tokens := OneColumn("text", TWICE);
            && Compiled(adapter, tokens).Some?
            && exists w :: Written(tokens, w) != Held(Reading(tokens).value, w)
  {
    TwiceReads();
    hide Reading, Rendered;
    LiteralsUsedExactlyOnce(OneColumn("text", TWICE));
  }

  lemma TwiceReads()
    ensures var tokens := OneColumn("text", TWICE);
            && Reading(tokens) == Some([Create(CreateTable("t", [NewColumn("a", "text").(default := Some("y"))]))])
            && RepeatsDefault(Bind(tokens, []).value.0)
  {
    hide *;
    TwiceBinds();
    TwiceGroups();
    TextIsValid();
    OneColumnBinds("text", TWICE);
    ReadingIs(OneColumn("text", TWICE), [TableCreateOp("t"), ColumnOp("a", "text")] + [DefaultOp("x"), DefaultOp("y")]);
  }

  lemma TextIsValid()
    ensures ValidTypeName("text")
  {
  }

  lemma ReadingIs(tokens: seq<Token>, ops: seq<Op>)
    requires Bind(tokens, []) == Some((ops, [])) && ops != [] && !HasTableDrop(ops)
    ensures Reading(tokens) == Group(ops)
  {
    hide Bind, Group;
  }

  lemma TwiceGroups()
    ensures var ops := [TableCreateOp("t"), ColumnOp("a", "text")] + [DefaultOp("x"), DefaultOp("y")];
            && Group(ops) == Some([Create(CreateTable("t", [NewColumn("a", "text").(default := Some("y"))]))])
            && RepeatsDefault(ops) && !HasTableDrop(ops)
  {
    var plain := NewColumn("a", "text");
    var first, second := plain.(default := Some("x")), plain.(default := Some("y"));
    var both := [DefaultOp("x"), DefaultOp("y")];
    assert both[1..] == [DefaultOp("y")] && [DefaultOp("y")][1..] == [];
    assert ReadModifiers(second, []) == (second, []);
    assert ReadModifiers(first, [DefaultOp("y")]) == (second, []);
    OneColumnGroups("text", both, second);
    hide Group, ReadModifiers;
    var ops := [TableCreateOp("t"), ColumnOp("a", "text")] + both;
    assert ops[1..][1..] == both;
    assert RepeatsDefault(both);
    assert RepeatsDefault(ops[1..]);
  }

  lemma TwiceBinds()
    ensures Bind(TWICE, []) == Some(([DefaultOp("x"), DefaultOp("y")], []))
  {
    NothingBinds();
    DefaultBinds("y", [], [], []);
    hide Bind, TakeOperands, ValidTypeName;
    assert [Literal("y"), Symbol("default")] + [] == [Literal("y"), Symbol("default")];
    assert [DefaultOp("y")] + [] == [DefaultOp("y")];
    DefaultBinds("x", [Literal("y"), Symbol("default")], [DefaultOp("y")], []);
    assert [Literal("x"), Symbol("default")] + [Literal("y"), Symbol("default")] == TWICE;
    assert [DefaultOp("x")] + [DefaultOp("y")] == [DefaultOp("x"), DefaultOp("y")];
  }

  lemma {:induction false} DefaultBinds(value: string, rest: seq<Token>, ops: seq<Op>, leftover: seq<string>)
    requires Bind(rest, []) == Some((ops, leftover))
    ensures Bind([Literal(value), Symbol("default")] + rest, []) == Some(([DefaultOp(value)] + ops, leftover))
  {
    assert ValidTypeName("text");
    WordsTake("text", value);
    hide Bind, TakeOperands, ValidTypeName;
    assert [Literal(value), Symbol("default")] + rest == [Literal(value)] + ([Symbol("default")] + rest);
    assert [] + [value] == [value];
    BindWord("default", rest, [value], DefaultOp(value), []);
    BindLiteral(value, [Symbol("default")] + rest, []);
  }

  lemma NothingBinds()
    ensures Bind([], []) == Some(([], []))
  {
  }
}
