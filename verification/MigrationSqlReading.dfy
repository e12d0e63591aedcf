/** A reader of SQL text that knows quotes and comments, and the theorem that it finds exactly the
    rendered statements: every identifier and default ends at its own closing quote and decodes to
    the original text. Quotes double inside themselves (SQL-92 sections 5.2 and 5.3); MySQL strings
    also take backslash escapes. Comments are `--` and slash-star, and `#` in MySQL; SQLite also
    quotes identifiers in square brackets, and PostgreSQL strings between dollar signs with an optional
    tag, where no identifier is under way. For both of them the text of a file ends at its first NUL. */
module MigrationSqlReading {
  import opened Unicode
  import opened Wrappers
  import opened MigrationSyntax
  import opened MigrationSql

  datatype Lexeme = Raw(c: char) | Quoted(open: char, text: string) | Comment | Unterminated

  predicate IsQuote(c: char) {
    c == '\'' || c == '"' || c == '`'
  }

  /** A character that leaves plain SQL text in one dialect only. */
  predicate IsDialectOpener(adapter: SqlAdapter, c: char) {
    (adapter.Mysql? && c == '#') || (adapter.Sqlite? && c == '[')
  }

  /** What a backslash escape stands for in a MySQL string. */
  function Unescape(c: char): string {
    match c
    case '0' => [0 as char]
    case 'b' => [8 as char]
    case 'n' => "\n"
    case 'r' => "\r"
    case 't' => "\t"
    case 'Z' => [26 as char]
    case '%' => "\\%"
    case '_' => "\\_"
    case _ => [c]
  }

  /** The text up to the closing quote q, and what follows it. */
  function ReadQuoted(q: char, backslash: bool, s: string): (r: Option<(string, string)>)
    ensures r.Some? ==> |r.value.1| < |s|
    decreases |s|
  {
    if s == [] then None
    else if backslash && s[0] == '\\' then
      if |s| == 1 then None else Joined(Unescape(s[1]), ReadQuoted(q, backslash, s[2..]))
    else if s[0] == q then
      if |s| > 1 && s[1] == q then Joined([q], ReadQuoted(q, backslash, s[2..])) else Some(([], s[1..]))
    else Joined([s[0]], ReadQuoted(q, backslash, s[1..]))
  }

  function Joined(prefix: string, read: Option<(string, string)>): (r: Option<(string, string)>)
  {
    match read
    case None => None
    case Some((text, rest)) => Some((prefix + text, rest))
  }

  function AfterChar(c: char, s: string): (r: string)
    ensures |r| <= |s|
  {
    if s == [] then [] else if s[0] == c then s[1..] else AfterChar(c, s[1..])
  }

  /** PostgreSQL's block comments nest; `depth` counts those that are open besides the outermost. */
  function AfterBlockComment(nests: bool, depth: nat, s: string): (r: string)
    ensures |r| <= |s|
    decreases |s|
  {
    if |s| < 2 then []
    else if s[0] == '*' && s[1] == '/' then
      if depth == 0 then s[2..] else AfterBlockComment(nests, depth - 1, s[2..])
    else if nests && s[0] == '/' && s[1] == '*' then AfterBlockComment(nests, depth + 1, s[2..])
    else AfterBlockComment(nests, depth, s[1..])
  }

  function ReadBracketed(s: string): (r: Option<(string, string)>)
    ensures r.Some? ==> |r.value.1| < |s|
  {
    if s == [] then None
    else if s[0] == ']' then Some(([], s[1..]))
    else Joined([s[0]], ReadBracketed(s[1..]))
  }

  predicate StartsWith(s: string, a: char, b: char) {
    |s| > 1 && s[0] == a && s[1] == b
  }

  // ----- dollar quotes -----

  predicate IsWordStart(c: char) {
    'a' <= c <= 'z' || 'A' <= c <= 'Z' || c == '_' || c as int >= 0x80
  }

  /** What the tag of a dollar quote is made of, after its first character. */
  predicate IsTagChar(c: char) {
    IsWordStart(c) || '0' <= c <= '9'
  }

  /** Whether an identifier is under way behind c, if `word` says whether one was before it. */
  function WordAfter(word: bool, c: char): bool {
    IsWordStart(c) || (word && (IsTagChar(c) || c == '$'))
  }

  function TagLength(s: string): (n: nat)
    ensures n <= |s|
  {
    if s == [] || !IsTagChar(s[0]) then 0 else 1 + TagLength(s[1..])
  }

  /** The text starts with the delimiter of a dollar quote: two dollar signs around a tag, or around nothing. */
  predicate OpensDollar(s: string) {
    && s != [] && s[0] == '$'
    && var n := TagLength(s[1..]);
    && n + 1 < |s| && s[n + 1] == '$' && (n > 0 ==> IsWordStart(s[1]))
  }

  function Delimiter(s: string): string
    requires OpensDollar(s)
  {
    s[..TagLength(s[1..]) + 2]
  }

  function ReadDollar(delimiter: string, s: string): (r: Option<(string, string)>)
    ensures r.Some? ==> |r.value.1| <= |s|
  {
    if |s| < |delimiter| then None
    else if s[..|delimiter|] == delimiter then Some(([], s[|delimiter|..]))
    else if s == [] then None
    else Joined([s[0]], ReadDollar(delimiter, s[1..]))
  }

  // ----- lexing -----

  /** MySQL wants a blank behind the two dashes. */
  predicate OpensLineComment(adapter: SqlAdapter, s: string) {
    || (StartsWith(s, '-', '-') && (adapter.Mysql? && |s| > 2 ==> IsSpace(s[2]) || IsControl(s[2])))
    || (adapter.Mysql? && s != [] && s[0] == '#')
  }

  /** `word` says whether the text before s ends in an unfinished identifier. */
  function Lex(adapter: SqlAdapter, word: bool, s: string): seq<Lexeme>
    decreases |s|
  {
    if s == [] then []
    else if IsQuote(s[0]) then
      match ReadQuoted(s[0], adapter.Mysql? && s[0] != '`', s[1..]) {
        case None => [Unterminated]
        case Some((text, rest)) => [Quoted(s[0], text)] + Lex(adapter, false, rest)
      }
    else if adapter.Sqlite? && s[0] == '[' then
      match ReadBracketed(s[1..]) {
        case None => [Unterminated]
        case Some((text, rest)) => [Quoted('[', text)] + Lex(adapter, false, rest)
      }
    else if adapter.Postgres? && !word && OpensDollar(s) then
      match ReadDollar(Delimiter(s), s[|Delimiter(s)|..]) {
        case None => [Unterminated]
        case Some((text, rest)) => [Quoted('$', text)] + Lex(adapter, false, rest)
      }
    else if OpensLineComment(adapter, s) then
      [Comment] + Lex(adapter, false, AfterChar('\n', s[1..]))
    else if StartsWith(s, '/', '*') then
      [Comment] + Lex(adapter, false, AfterBlockComment(adapter.Postgres?, 0, s[2..]))
    else [Raw(s[0])] + Lex(adapter, WordAfter(word, s[0]), s[1..])
  }

  predicate IsSpace(c: char) {
    c == ' ' || 0x09 <= c as int <= 0x0D
  }

  predicate IsBlank(lexeme: Lexeme) {
    lexeme.Comment? || (lexeme.Raw? && IsSpace(lexeme.c))
  }

  /** The statements of a lexed file: semicolons outside quotes end them, blanks between them are dropped. */
  function Split(lexemes: seq<Lexeme>, current: seq<Lexeme>): seq<seq<Lexeme>>
    decreases |lexemes|
  {
    if lexemes == [] then (if current == [] then [] else [current])
    else if lexemes[0] == Raw(';') then [current] + Split(lexemes[1..], [])
    else if current == [] && IsBlank(lexemes[0]) then Split(lexemes[1..], [])
    else Split(lexemes[1..], current + [lexemes[0]])
  }

  const NUL := 0 as char

  function UpToNul(s: string): (r: string)
    ensures NUL !in r && r <= s
  {
    if s == [] || s[0] == NUL then [] else [s[0]] + UpToNul(s[1..])
  }

  /** What the database sees of a text: MySQL is given its length, the others stop at a NUL. */
  function Seen(adapter: SqlAdapter, sql: string): string {
    if adapter.Mysql? then sql else UpToNul(sql)
  }

  /** Nothing of the text is cut off. */
  predicate IsSeen(adapter: SqlAdapter, text: string) {
    adapter.Mysql? || NUL !in text
  }

  function LexSeen(adapter: SqlAdapter, sql: string): seq<Lexeme> {
    Lex(adapter, false, Seen(adapter, sql))
  }

  function ReadStatements(adapter: SqlAdapter, sql: string): seq<seq<Lexeme>> {
    Split(LexSeen(adapter, sql), [])
  }

  // ----- what a reader should find -----

  function Raws(text: string): (r: seq<Lexeme>)
    ensures |r| == |text| && forall i | 0 <= i < |text| :: r[i] == Raw(text[i])
  {
    if text == [] then [] else [Raw(text[0])] + Raws(text[1..])
  }

  function PartLexemes(adapter: SqlAdapter, part: Part): seq<Lexeme> {
    match part
    case Text(text) => Raws(text)
    case Identifier(name) => [Quoted(IdentifierQuote(adapter), name)]
    case Value(value) => [Quoted('\'', value)]
  }

  function Lexemes(adapter: SqlAdapter, parts: seq<Part>): seq<Lexeme> {
    if parts == [] then [] else PartLexemes(adapter, parts[0]) + Lexemes(adapter, parts[1..])
  }

  lemma {:induction false} LexemesConcat(adapter: SqlAdapter, a: seq<Part>, b: seq<Part>)
    ensures Lexemes(adapter, a + b) == Lexemes(adapter, a) + Lexemes(adapter, b)
  {
    if a == [] {
      assert a + b == b;
    } else {
      assert (a + b)[1..] == a[1..] + b;
      LexemesConcat(adapter, a[1..], b);
    }
  }

  /** One list of lexemes for each statement, in order. */
  function Expected(adapter: SqlAdapter, statements: seq<Statement>): seq<seq<Lexeme>> {
    seq(|statements|, i requires 0 <= i < |statements| => Lexemes(adapter, StatementParts(adapter, statements[i])))
  }

  // ----- quoting round trips -----

  lemma {:induction false} DoubledQuoteRoundTrip(q: char, text: string, rest: string)
    requires rest == [] || rest[0] != q
    ensures ReadQuoted(q, false, Replace(text, q, [q, q]) + [q] + rest) == Some((text, rest))
  {
    var s := Replace(text, q, [q, q]) + [q] + rest;
    if text == [] {
      assert s[1..] == rest;
    } else {
      DoubledQuoteRoundTrip(q, text[1..], rest);
      var tail := Replace(text[1..], q, [q, q]) + [q] + rest;
      if text[0] == q {
        assert s == [q, q] + tail;
        assert s[2..] == tail;
      } else {
        assert s == [text[0]] + tail;
        assert s[1..] == tail;
      }
      assert [text[0]] + text[1..] == text;
    }
  }

  /** The two replacements of a MySQL literal, one character at a time. */
  function Escaped(text: string): string {
    if text == [] then []
    else (if text[0] == '\\' then "\\\\" else if text[0] == '\'' then "\\'" else [text[0]]) + Escaped(text[1..])
  }

  lemma {:induction false} EscapedByReplacing(text: string)
    ensures Replace(Replace(text, '\\', "\\\\"), '\'', "\\'") == Escaped(text)
  {
    if text != [] {
      EscapedByReplacing(text[1..]);
      var head := if text[0] == '\\' then "\\\\" else [text[0]];
      var tail := Replace(text[1..], '\\', "\\\\");
      assert (head + tail)[1..] == head[1..] + tail;
      if text[0] == '\\' {
        assert (head[1..] + tail)[1..] == tail;
      } else {
        assert head[1..] + tail == tail;
      }
    }
  }

  lemma {:induction false} EscapedRoundTrip(text: string, rest: string)
    requires rest == [] || rest[0] != '\''
    ensures ReadQuoted('\'', true, Escaped(text) + ['\''] + rest) == Some((text, rest))
  {
    var s := Escaped(text) + ['\''] + rest;
    if text == [] {
      assert s[1..] == rest;
    } else {
      EscapedRoundTrip(text[1..], rest);
      assert [text[0]] + text[1..] == text;
      EscapedFirst(text, rest);
    }
  }

  lemma EscapedFirst(text: string, rest: string)
    requires text != []
    ensures ReadQuoted('\'', true, Escaped(text) + ['\''] + rest)
         == Joined([text[0]], ReadQuoted('\'', true, Escaped(text[1..]) + ['\''] + rest))
  {
    EscapedStarts(text);
    hide *;
    var tail := Escaped(text[1..]) + ['\''] + rest;
    if text[0] == '\\' || text[0] == '\'' {
      assert Escaped(text) + ['\''] + rest == ['\\', text[0]] + tail;
      ReadEscape(text[0], tail);
    } else {
      assert Escaped(text) + ['\''] + rest == [text[0]] + tail;
      ReadPlain(text[0], tail);
    }
  }

  lemma ReadEscape(c: char, tail: string)
    requires c == '\\' || c == '\''
    ensures ReadQuoted('\'', true, ['\\', c] + tail) == Joined([c], ReadQuoted('\'', true, tail))
  {
    assert (['\\', c] + tail)[2..] == tail;
    assert Unescape(c) == [c];
    hide Joined, Unescape;
  }

  lemma ReadPlain(c: char, tail: string)
    requires c != '\\' && c != '\''
    ensures ReadQuoted('\'', true, [c] + tail) == Joined([c], ReadQuoted('\'', true, tail))
  {
    assert ([c] + tail)[1..] == tail;
    hide Joined;
  }

  lemma EscapedStarts(text: string)
    requires text != []
    ensures Escaped(text)
         == (if text[0] == '\\' || text[0] == '\'' then ['\\', text[0]] else [text[0]]) + Escaped(text[1..])
  {
  }

  // ----- plain text -----

  /** A dollar quote opens somewhere in the text. */
  predicate HoldsDollar(word: bool, text: string)
    decreases |text|
  {
    text != [] && ((!word && OpensDollar(text)) || HoldsDollar(WordAfter(word, text[0]), text[1..]))
  }

  /** Text that stays outside quotes and comments wherever it is put after other plain text, and
      ends no statement. */
  predicate PlainText(adapter: SqlAdapter, text: string) {
    && text != [] && text[0] != '-' && text[0] != '*'
    && (forall i | 0 <= i < |text| ::
          !IsQuote(text[i]) && !IsDialectOpener(adapter, text[i]) && text[i] != ';')
    && !HasPair(text, '-', '-') && !HasPair(text, '/', '*')
    && !(adapter.Postgres? && HoldsDollar(false, text))
  }

  /** Nothing that was begun before s goes on in it: no comment, quote, identifier or tag. */
  predicate CompletesNothing(s: string) {
    s == [] || (s[0] != '-' && s[0] != '*' && s[0] != '$' && !IsTagChar(s[0]))
  }

  predicate CompletesNoQuote(s: string) {
    s == [] || !IsQuote(s[0])
  }

  lemma WordForgotten(adapter: SqlAdapter, word: bool, s: string)
    requires CompletesNothing(s)
    ensures Lex(adapter, word, s) == Lex(adapter, false, s)
  {
  }

  lemma {:induction false} TagStays(text: string, rest: string)
    requires CompletesNothing(rest)
    ensures TagLength(text + rest) == TagLength(text)
  {
    if text == [] {
      assert text + rest == rest;
    } else {
      assert (text + rest)[1..] == text[1..] + rest;
      TagStays(text[1..], rest);
    }
  }

  lemma DollarStays(text: string, rest: string)
    requires text != [] && CompletesNothing(rest)
    ensures OpensDollar(text + rest) <==> OpensDollar(text)
  {
    assert (text + rest)[1..] == text[1..] + rest;
    TagStays(text[1..], rest);
  }

  predicate HoldsNoOpening(adapter: SqlAdapter, text: string) {
    forall i | 0 <= i < |text| :: !IsQuote(text[i]) && !IsDialectOpener(adapter, text[i])
  }

  lemma {:induction false} LexText(adapter: SqlAdapter, word: bool, text: string, rest: string)
    requires HoldsNoOpening(adapter, text)
    requires !HasPair(text, '-', '-') && !HasPair(text, '/', '*')
    requires !(adapter.Postgres? && HoldsDollar(word, text))
    requires CompletesNothing(rest)
    ensures Lex(adapter, word, text + rest) == Raws(text) + Lex(adapter, false, rest)
    decreases |text|
  {
    hide *;
    if text == [] {
      assert text + rest == rest && Raws(text) == [];
      WordForgotten(adapter, word, rest);
    } else {
      var s := text + rest;
      StaysInRest(adapter, word, text);
      StaysInFront(adapter, word, text, rest);
      LexText(adapter, WordAfter(word, text[0]), text[1..], rest);
      assert s[0] == text[0] && s[1..] == text[1..] + rest;
      LexPlain(adapter, word, s);
      RawsOf(text);
      var raws, after := Raws(text[1..]), Lex(adapter, false, rest);
      assert [Raw(text[0])] + (raws + after) == [Raw(text[0])] + raws + after;
    }
  }

  lemma RawsOf(text: string)
    requires text != []
    ensures Raws(text) == [Raw(text[0])] + Raws(text[1..])
  {
  }

  lemma StaysInRest(adapter: SqlAdapter, word: bool, text: string)
    requires text != [] && HoldsNoOpening(adapter, text) && !HasPair(text, '-', '-') && !HasPair(text, '/', '*')
    requires !(adapter.Postgres? && HoldsDollar(word, text))
    ensures !IsQuote(text[0]) && !IsDialectOpener(adapter, text[0]) && HoldsNoOpening(adapter, text[1..])
    ensures !HasPair(text[1..], '-', '-') && !HasPair(text[1..], '/', '*')
    ensures !(adapter.Postgres? && HoldsDollar(WordAfter(word, text[0]), text[1..]))
  {
    assert forall i | 0 <= i < |text| - 1 :: text[1..][i] == text[i + 1];
  }

  lemma StaysInFront(adapter: SqlAdapter, word: bool, text: string, rest: string)
    requires text != [] && !HasPair(text, '-', '-') && !HasPair(text, '/', '*')
    requires !(adapter.Postgres? && HoldsDollar(word, text))
    requires CompletesNothing(rest)
    ensures var s := text + rest;
            !StartsWith(s, '-', '-') && !StartsWith(s, '/', '*') && !(adapter.Postgres? && !word && OpensDollar(s))
  {
    hide OpensDollar;
    DollarStays(text, rest);
    if |text| > 1 { assert (text + rest)[1] == text[1]; }
  }

  /** A character that opens nothing. */
  lemma LexPlain(adapter: SqlAdapter, word: bool, s: string)
    requires s != [] && !IsQuote(s[0]) && !IsDialectOpener(adapter, s[0])
    requires !StartsWith(s, '-', '-') && !StartsWith(s, '/', '*') && !(adapter.Postgres? && !word && OpensDollar(s))
    ensures Lex(adapter, word, s) == [Raw(s[0])] + Lex(adapter, WordAfter(word, s[0]), s[1..])
  {
    hide OpensDollar;
  }

  // ----- what a NUL cuts off -----

  lemma {:induction false} UpToNulPast(a: string, b: string)
    requires NUL !in a
    ensures UpToNul(a + b) == a + UpToNul(b)
  {
    if a == [] {
      assert a + b == b;
    } else {
      assert a[0] in a && (a + b)[1..] == a[1..] + b;
      UpToNulPast(a[1..], b);
    }
  }

  lemma SeenPast(adapter: SqlAdapter, a: string, b: string)
    requires IsSeen(adapter, a)
    ensures Seen(adapter, a + b) == a + Seen(adapter, b)
    ensures Seen(adapter, b) == [] || (b != [] && Seen(adapter, b)[0] == b[0])
  {
    if !adapter.Mysql? { UpToNulPast(a, b); }
  }

  lemma {:induction false} ReplaceNoNul(s: string, c: char, replacement: string)
    requires NUL !in s && NUL !in replacement
    ensures NUL !in Replace(s, c, replacement)
  {
    if s != [] {
      assert s[0] in s;
      ReplaceNoNul(s[1..], c, replacement);
    }
  }

  predicate LexemeHoldsNoNul(lexeme: Lexeme) {
    match lexeme
    case Raw(c) => c != NUL
    case Quoted(_, text) => NUL !in text
    case _ => true
  }

  predicate HoldNoNul(lexemes: seq<Lexeme>) {
    forall l | l in lexemes :: LexemeHoldsNoNul(l)
  }

  lemma {:induction false} ReadQuotedNoNul(q: char, s: string)
    requires NUL !in s && ReadQuoted(q, false, s).Some?
    ensures NUL !in ReadQuoted(q, false, s).value.0 && NUL !in ReadQuoted(q, false, s).value.1
    decreases |s|
  {
    assert s[0] in s;
    if s[0] != q {
      ReadQuotedNoNul(q, s[1..]);
    } else if |s| > 1 && s[1] == q {
      ReadQuotedNoNul(q, s[2..]);
    }
  }

  lemma {:induction false} ReadBracketedNoNul(s: string)
    requires NUL !in s && ReadBracketed(s).Some?
    ensures NUL !in ReadBracketed(s).value.0 && NUL !in ReadBracketed(s).value.1
  {
    assert s[0] in s;
    if s[0] != ']' { ReadBracketedNoNul(s[1..]); }
  }

  lemma {:induction false} ReadDollarNoNul(delimiter: string, s: string)
    requires NUL !in s && ReadDollar(delimiter, s).Some?
    ensures NUL !in ReadDollar(delimiter, s).value.0 && NUL !in ReadDollar(delimiter, s).value.1
  {
    if s[..|delimiter|] != delimiter {
      assert s[0] in s;
      ReadDollarNoNul(delimiter, s[1..]);
    }
  }

  lemma {:induction false} AfterCharNoNul(c: char, s: string)
    requires NUL !in s
    ensures NUL !in AfterChar(c, s)
  {
    if s != [] { AfterCharNoNul(c, s[1..]); }
  }

  lemma {:induction false} AfterBlockNoNul(nests: bool, depth: nat, s: string)
    requires NUL !in s
    ensures NUL !in AfterBlockComment(nests, depth, s)
    decreases |s|
  {
    if |s| >= 2 {
      if s[0] == '*' && s[1] == '/' {
        if depth > 0 { AfterBlockNoNul(nests, depth - 1, s[2..]); }
      } else if nests && s[0] == '/' && s[1] == '*' {
        AfterBlockNoNul(nests, depth + 1, s[2..]);
      } else {
        AfterBlockNoNul(nests, depth, s[1..]);
      }
    }
  }

  lemma {:induction false} LexHoldsNoNul(adapter: SqlAdapter, word: bool, s: string)
    requires !adapter.Mysql? && NUL !in s
    ensures HoldNoNul(Lex(adapter, word, s))
    decreases |s|
  {
    hide ReadQuoted, ReadBracketed, ReadDollar, AfterChar, AfterBlockComment, WordAfter;
    if s == [] {
    } else if IsQuote(s[0]) {
      var read := ReadQuoted(s[0], false, s[1..]);
      if read.Some? {
        ReadQuotedNoNul(s[0], s[1..]);
        LexHoldsNoNul(adapter, false, read.value.1);
      }
    } else if adapter.Sqlite? && s[0] == '[' {
      var read := ReadBracketed(s[1..]);
      if read.Some? {
        ReadBracketedNoNul(s[1..]);
        LexHoldsNoNul(adapter, false, read.value.1);
      }
    } else if adapter.Postgres? && !word && OpensDollar(s) {
      var rest := s[|Delimiter(s)|..];
      var read := ReadDollar(Delimiter(s), rest);
      if read.Some? {
        ReadDollarNoNul(Delimiter(s), rest);
        LexHoldsNoNul(adapter, false, read.value.1);
      }
    } else if OpensLineComment(adapter, s) {
      AfterCharNoNul('\n', s[1..]);
      LexHoldsNoNul(adapter, false, AfterChar('\n', s[1..]));
    } else if StartsWith(s, '/', '*') {
      AfterBlockNoNul(adapter.Postgres?, 0, s[2..]);
      LexHoldsNoNul(adapter, false, AfterBlockComment(adapter.Postgres?, 0, s[2..]));
    } else {
      assert s[0] in s;
      LexHoldsNoNul(adapter, WordAfter(word, s[0]), s[1..]);
    }
  }

  /** No lexeme of what is seen holds a NUL. */
  lemma SeenHoldsNoNul(adapter: SqlAdapter, sql: string)
    requires !adapter.Mysql?
    ensures HoldNoNul(LexSeen(adapter, sql))
  {
    LexHoldsNoNul(adapter, false, UpToNul(sql));
  }

  /** A quoted part is one lexeme, with its text, exactly when the text is seen whole. */
  lemma QuotedSeenIff(adapter: SqlAdapter, quoted: string, lexeme: Lexeme, rest: string)
    requires lexeme.Quoted? && CompletesNoQuote(rest)
    requires IsSeen(adapter, lexeme.text) ==> IsSeen(adapter, quoted)
    requires forall tail | CompletesNoQuote(tail) :: Lex(adapter, false, quoted + tail) == [lexeme] + Lex(adapter, false, tail)
    ensures LexSeen(adapter, quoted + rest) == [lexeme] + LexSeen(adapter, rest) <==> IsSeen(adapter, lexeme.text)
  {
    hide Lex, UpToNul;
    if IsSeen(adapter, lexeme.text) {
      SeenPast(adapter, quoted, rest);
      assert CompletesNoQuote(Seen(adapter, rest));
    } else {
      SeenHoldsNoNul(adapter, quoted + rest);
      assert ([lexeme] + LexSeen(adapter, rest))[0] == lexeme && !LexemeHoldsNoNul(lexeme);
      hide LexSeen;
      assert lexeme !in LexSeen(adapter, quoted + rest);
    }
  }

  /** A quoted identifier is read as its name exactly when all of it is seen, as is every name that passed
      its check. */
  lemma LexIdentifier(adapter: SqlAdapter, name: string, rest: string)
    requires CompletesNoQuote(rest)
    ensures LexSeen(adapter, QuoteIdentifier(adapter, name) + rest)
         == [Quoted(IdentifierQuote(adapter), name)] + LexSeen(adapter, rest)
       <==> IsSeen(adapter, name)
    ensures ValidIdentifier(name) ==> IsSeen(adapter, name)
  {
    hide Lex, LexSeen, Replace;
    forall tail | CompletesNoQuote(tail)
      ensures Lex(adapter, false, QuoteIdentifier(adapter, name) + tail)
           == [Quoted(IdentifierQuote(adapter), name)] + Lex(adapter, false, tail)
    {
      IdentifierLexeme(adapter, name, tail);
    }
    QuotedNoNul(adapter, name);
    hide QuoteIdentifier;
    QuotedSeenIff(adapter, QuoteIdentifier(adapter, name), Quoted(IdentifierQuote(adapter), name), rest);
  }

  lemma QuotedNoNul(adapter: SqlAdapter, text: string)
    ensures IsSeen(adapter, text) ==> IsSeen(adapter, QuoteIdentifier(adapter, text))
    ensures IsSeen(adapter, text) ==> IsSeen(adapter, StringLiteral(adapter, text))
  {
    if !adapter.Mysql? && NUL !in text {
      ReplaceNoNul(text, '"', ['"', '"']);
      ReplaceNoNul(text, '\'', "''");
    }
  }

  /** A literal, which nothing checks, is read as its text exactly when all of it is seen. */
  lemma LexValue(adapter: SqlAdapter, value: string, rest: string)
    requires CompletesNoQuote(rest)
    ensures LexSeen(adapter, StringLiteral(adapter, value) + rest) == [Quoted('\'', value)] + LexSeen(adapter, rest)
       <==> IsSeen(adapter, value)
  {
    hide Lex, LexSeen, Replace;
    forall tail | CompletesNoQuote(tail)
      ensures Lex(adapter, false, StringLiteral(adapter, value) + tail) == [Quoted('\'', value)] + Lex(adapter, false, tail)
    {
      ValueLexeme(adapter, value, tail);
    }
    QuotedNoNul(adapter, value);
    hide StringLiteral;
    QuotedSeenIff(adapter, StringLiteral(adapter, value), Quoted('\'', value), rest);
  }

  lemma IdentifierLexeme(adapter: SqlAdapter, name: string, rest: string)
    requires CompletesNoQuote(rest)
    ensures Lex(adapter, false, QuoteIdentifier(adapter, name) + rest)
         == [Quoted(IdentifierQuote(adapter), name)] + Lex(adapter, false, rest)
  {
    var q := IdentifierQuote(adapter);
    var s := QuoteIdentifier(adapter, name) + rest;
    assert s[1..] == Replace(name, q, [q, q]) + [q] + rest;
    DoubledQuoteRoundTrip(q, name, rest);
  }

  lemma ValueLexeme(adapter: SqlAdapter, value: string, rest: string)
    requires CompletesNoQuote(rest)
    ensures Lex(adapter, false, StringLiteral(adapter, value) + rest) == [Quoted('\'', value)] + Lex(adapter, false, rest)
  {
    var s := StringLiteral(adapter, value) + rest;
    if adapter.Mysql? {
      EscapedByReplacing(value);
      assert s[1..] == Escaped(value) + ['\''] + rest;
      EscapedRoundTrip(value, rest);
    } else {
      assert s[1..] == Replace(value, '\'', ['\'', '\'']) + ['\''] + rest;
      DoubledQuoteRoundTrip('\'', value, rest);
    }
  }

  /** A part that can stand behind another: its text starts neither a word nor a tag. */
  predicate Follows(part: Part) {
    part.Text? ==> CompletesNothing(part.text)
  }

  /** Quoted parts are followed by text, and every text is plain and kept apart from the part before it. */
  predicate Readable(adapter: SqlAdapter, parts: seq<Part>) {
    forall i | 0 <= i < |parts| :: ReadableAt(adapter, parts, i)
  }

  predicate ReadableAt(adapter: SqlAdapter, parts: seq<Part>, i: nat)
    requires i < |parts|
  {
    && (parts[i].Text? ==> PlainText(adapter, parts[i].text))
    && (i + 1 < |parts| ==> Follows(parts[i + 1]) && (parts[i].Text? || parts[i + 1].Text?))
  }

  lemma {:induction false} LexParts(adapter: SqlAdapter, parts: seq<Part>, rest: string)
    requires Readable(adapter, parts) && CompletesNothing(rest) && CompletesNoQuote(rest)
    ensures Lex(adapter, false, RenderParts(adapter, parts) + rest) == Lexemes(adapter, parts) + Lex(adapter, false, rest)
  {
    if parts == [] {
      assert RenderParts(adapter, parts) + rest == rest;
    } else {
      RestIsReadable(adapter, parts);
      LexParts(adapter, parts[1..], rest);
      LexFirst(adapter, parts, rest);
    }
  }

  lemma RestIsReadable(adapter: SqlAdapter, parts: seq<Part>)
    requires parts != [] && Readable(adapter, parts)
    ensures Readable(adapter, parts[1..])
  {
    assert forall i | 0 <= i < |parts| - 1 :: ReadableAt(adapter, parts, i + 1) ==> ReadableAt(adapter, parts[1..], i);
  }

  lemma LexFirst(adapter: SqlAdapter, parts: seq<Part>, rest: string)
    requires parts != [] && Readable(adapter, parts) && CompletesNothing(rest) && CompletesNoQuote(rest)
    requires Lex(adapter, false, RenderParts(adapter, parts[1..]) + rest) == Lexemes(adapter, parts[1..]) + Lex(adapter, false, rest)
    ensures Lex(adapter, false, RenderParts(adapter, parts) + rest) == Lexemes(adapter, parts) + Lex(adapter, false, rest)
  {
    hide *;
    var head, tail := RenderPart(adapter, parts[0]), RenderParts(adapter, parts[1..]);
    FirstPart(adapter, parts);
    FirstIsPlain(adapter, parts);
    TailIsSafe(adapter, parts, rest);
    LexPart(adapter, parts[0], tail + rest);
    assert (head + tail) + rest == head + (tail + rest);
  }

  lemma FirstPart(adapter: SqlAdapter, parts: seq<Part>)
    requires parts != []
    ensures RenderParts(adapter, parts) == RenderPart(adapter, parts[0]) + RenderParts(adapter, parts[1..])
    ensures Lexemes(adapter, parts) == PartLexemes(adapter, parts[0]) + Lexemes(adapter, parts[1..])
  {
    hide RenderPart, PartLexemes;
  }

  lemma FirstIsPlain(adapter: SqlAdapter, parts: seq<Part>)
    requires parts != [] && Readable(adapter, parts)
    ensures parts[0].Text? ==> PlainText(adapter, parts[0].text)
  {
    assert ReadableAt(adapter, parts, 0);
    hide PlainText;
  }

  lemma LexPart(adapter: SqlAdapter, part: Part, tail: string)
    requires part.Text? ==> PlainText(adapter, part.text) && CompletesNothing(tail)
    requires !part.Text? ==> CompletesNoQuote(tail)
    ensures Lex(adapter, false, RenderPart(adapter, part) + tail) == PartLexemes(adapter, part) + Lex(adapter, false, tail)
  {
    match part
    case Text(text) => LexText(adapter, false, text, tail);
    case Identifier(name) => IdentifierLexeme(adapter, name, tail);
    case Value(value) => ValueLexeme(adapter, value, tail);
  }

  lemma AllReadable(adapter: SqlAdapter, parts: seq<Part>)
    requires parts != [] && Readable(adapter, parts)
    ensures ReadableAt(adapter, parts, 0) && (|parts| > 1 ==> ReadableAt(adapter, parts, 1))
  {
    hide ReadableAt;
  }

  lemma TailIsSafe(adapter: SqlAdapter, parts: seq<Part>, rest: string)
    requires parts != [] && Readable(adapter, parts) && CompletesNothing(rest) && CompletesNoQuote(rest)
    ensures var tail := RenderParts(adapter, parts[1..]) + rest;
            CompletesNothing(tail) && (!parts[0].Text? ==> CompletesNoQuote(tail))
  {
    hide Readable, HasPair;
    AllReadable(adapter, parts);
    var tail := RenderParts(adapter, parts[1..]) + rest;
    if |parts| == 1 {
      assert tail == rest;
    } else {
      assert parts[1..][0] == parts[1];
      assert tail == RenderPart(adapter, parts[1]) + (RenderParts(adapter, parts[1..][1..]) + rest);
      assert tail[0] == RenderPart(adapter, parts[1])[0];
    }
  }

  // ----- every rendered file is readable -----

  function TypeNames(statement: Statement): seq<string> {
    match statement
    case Create(create) => seq(|create.columns|, i requires 0 <= i < |create.columns| => create.columns[i].typeName)
    case AddColumn(_, column) => [column.typeName]
    case _ => []
  }

  predicate StaysPlain(adapter: SqlAdapter, typeName: string) {
    && (forall c | c in typeName :: !IsDialectOpener(adapter, c))
    && !(adapter.Postgres? && HoldsDollar(false, typeName))
  }

  /** No type name of the statement opens a comment or quote that this dialect alone knows. */
  predicate TypesStayPlain(adapter: SqlAdapter, statement: Statement) {
    forall typeName | typeName in TypeNames(statement) :: StaysPlain(adapter, typeName)
  }

  function ColumnsOf(statement: Statement): seq<Column> {
    match statement
    case Create(create) => create.columns
    case AddColumn(_, column) => [column]
    case _ => []
  }

  /** The database sees all of every default. */
  predicate DefaultsSeen(adapter: SqlAdapter, statement: Statement) {
    forall column | column in ColumnsOf(statement) :: column.default.Some? ==> IsSeen(adapter, column.default.value)
  }

  lemma {:induction false} HoldsDollarConcat(word: bool, a: string, b: string)
    requires CompletesNothing(b)
    ensures HoldsDollar(word, a + b) <==> HoldsDollar(word, a) || HoldsDollar(false, b)
    decreases |a|
  {
    if a == [] {
      assert a + b == b;
    } else {
      assert (a + b)[1..] == a[1..] + b;
      DollarStays(a, b);
      HoldsDollarConcat(WordAfter(word, a[0]), a[1..], b);
    }
  }

  lemma PlainConcat(adapter: SqlAdapter, a: string, b: string)
    requires PlainText(adapter, a) && (b == [] || (PlainText(adapter, b) && CompletesNothing(b)))
    ensures PlainText(adapter, a + b)
  {
    if b == [] {
      assert a + b == a;
    } else {
      HoldsDollarConcat(false, a, b);
      hide HoldsDollar;
    }
  }

  lemma PlainType(adapter: SqlAdapter, typeName: string)
    requires ValidTypeName(typeName) && StaysPlain(adapter, typeName)
    ensures PlainText(adapter, " " + typeName)
  {
    var text := " " + typeName;
    forall i | 0 <= i < |text| ensures !IsQuote(text[i]) && !IsDialectOpener(adapter, text[i]) && text[i] != ';' {
      if i > 0 { assert text[i] in typeName; }
    }
    assert forall i | 0 <= i < |typeName| :: text[i + 1] == typeName[i];
    assert text[1..] == typeName;
  }

  lemma {:induction false} NoDollarSign(word: bool, text: string)
    requires '$' !in text
    ensures !HoldsDollar(word, text)
    decreases |text|
  {
    if text != [] { NoDollarSign(WordAfter(word, text[0]), text[1..]); }
  }

  predicate IsKeywordChar(c: char) {
    'a' <= c <= 'z' || c == ' ' || c == '(' || c == ')' || c == ',' || c == '\n'
  }

  lemma KeywordsArePlain(adapter: SqlAdapter, text: string)
    requires text != [] && forall i | 0 <= i < |text| :: IsKeywordChar(text[i])
    ensures PlainText(adapter, text)
  {
    NoDollarSign(false, text);
  }

  lemma FlagsArePlain(adapter: SqlAdapter)
    ensures PlainText(adapter, " primary key") && PlainText(adapter, " not null") && PlainText(adapter, " unique")
    ensures PlainText(adapter, " default ")
  {
    hide PlainText;
    KeywordsArePlain(adapter, " primary key");
    KeywordsArePlain(adapter, " not null");
    KeywordsArePlain(adapter, " unique");
    KeywordsArePlain(adapter, " default ");
  }

  lemma CreateTextIsPlain(adapter: SqlAdapter)
    ensures PlainText(adapter, "create table ") && PlainText(adapter, " (\n") && PlainText(adapter, ")")
    ensures PlainText(adapter, "create unique index ") && PlainText(adapter, "create index ")
    ensures PlainText(adapter, " (") && PlainText(adapter, " on ")
  {
    hide PlainText;
    KeywordsArePlain(adapter, "create table ");
    KeywordsArePlain(adapter, "create unique index ");
    KeywordsArePlain(adapter, "create index ");
    KeywordsArePlain(adapter, " on ");
    KeywordsArePlain(adapter, " (\n");
    KeywordsArePlain(adapter, ")");
    KeywordsArePlain(adapter, " (");
  }

  lemma AlterTextIsPlain(adapter: SqlAdapter)
    ensures PlainText(adapter, "alter table ") && PlainText(adapter, " add column ")
    ensures PlainText(adapter, " drop column ") && PlainText(adapter, " rename column ") && PlainText(adapter, " to ")
  {
    hide PlainText;
    KeywordsArePlain(adapter, "alter table ");
    KeywordsArePlain(adapter, " add column ");
    KeywordsArePlain(adapter, " drop column ");
    KeywordsArePlain(adapter, " rename column ");
    KeywordsArePlain(adapter, " to ");
  }

  lemma DropTextIsPlain(adapter: SqlAdapter)
    ensures PlainText(adapter, "drop index ") && PlainText(adapter, "drop table ") && PlainText(adapter, " on ")
  {
    hide PlainText;
    KeywordsArePlain(adapter, "drop index ");
    KeywordsArePlain(adapter, "drop table ");
    KeywordsArePlain(adapter, " on ");
  }

  lemma PlainColumnText(adapter: SqlAdapter, column: Column)
    requires ValidTypeName(column.typeName) && StaysPlain(adapter, column.typeName)
    ensures PlainText(adapter, ColumnText(column))
  {
    hide PlainText;
    PlainType(adapter, column.typeName);
    FlagsArePlain(adapter);
    var base := " " + column.typeName;
    var keyed := base + (if column.primaryKey then " primary key" else "");
    var required := keyed + (if column.notNull then " not null" else "");
    PlainConcat(adapter, base, if column.primaryKey then " primary key" else "");
    PlainConcat(adapter, keyed, if column.notNull then " not null" else "");
    PlainConcat(adapter, required, if column.unique then " unique" else "");
  }

  lemma ReadableConcat(adapter: SqlAdapter, a: seq<Part>, b: seq<Part>)
    requires Readable(adapter, a) && Readable(adapter, b)
    requires a == [] || b == [] || (Follows(b[0]) && (a[|a| - 1].Text? || b[0].Text?))
    ensures Readable(adapter, a + b)
  {
    forall i | 0 <= i < |a + b| ensures ReadableAt(adapter, a + b, i) {
      if i < |a| {
        assert ReadableAt(adapter, a, i);
      } else {
        assert ReadableAt(adapter, b, i - |a|);
      }
    }
  }

  lemma ReadableColumn(adapter: SqlAdapter, column: Column)
    requires ValidColumn(column) && StaysPlain(adapter, column.typeName)
    ensures Readable(adapter, ColumnParts(column))
  {
    hide PlainText;
    PlainColumnText(adapter, column);
    FlagsArePlain(adapter);
  }

  lemma LayoutIsPlain(adapter: SqlAdapter)
    ensures PlainText(adapter, "  ") && PlainText(adapter, "\n") && PlainText(adapter, ",\n")
  {
    hide PlainText;
    KeywordsArePlain(adapter, "  ");
    KeywordsArePlain(adapter, "\n");
    KeywordsArePlain(adapter, ",\n");
  }

  lemma ColumnStarts(column: Column)
    ensures ColumnParts(column) != [] && Follows(ColumnParts(column)[0])
  {
  }

  lemma {:induction false} ReadableColumns(adapter: SqlAdapter, columns: seq<Column>)
    requires forall c | c in columns :: ValidColumn(c) && StaysPlain(adapter, c.typeName)
    ensures Readable(adapter, ColumnsParts(columns))
  {
    if columns != [] {
      hide PlainText, ColumnParts, ValidColumn, StaysPlain, Readable;
      ReadableColumns(adapter, columns[1..]);
      ReadableLine(adapter, columns[0], if |columns| == 1 then "\n" else ",\n");
      var line := [Text("  ")] + ColumnParts(columns[0]) + [Text(if |columns| == 1 then "\n" else ",\n")];
      ReadableConcat(adapter, line, ColumnsParts(columns[1..]));
    }
  }

  lemma ReadableLine(adapter: SqlAdapter, column: Column, end: string)
    requires ValidColumn(column) && StaysPlain(adapter, column.typeName) && (end == "\n" || end == ",\n")
    ensures Readable(adapter, [Text("  ")] + ColumnParts(column) + [Text(end)])
  {
    hide PlainText, ColumnParts;
    ReadableColumn(adapter, column);
    var indent, body := [Text("  ")], ColumnParts(column);
    LayoutIsPlain(adapter);
    ColumnStarts(column);
    ReadableConcat(adapter, indent, body);
    ReadableConcat(adapter, indent + body, [Text(end)]);
  }

  lemma ReadableCreate(adapter: SqlAdapter, create: CreateTable)
    requires forall c | c in create.columns :: ValidColumn(c) && StaysPlain(adapter, c.typeName)
    ensures Readable(adapter, StatementParts(adapter, Create(create)))
  {
    hide PlainText;
    CreateTextIsPlain(adapter);
    ReadableColumns(adapter, create.columns);
    var head := [Text("create table "), Identifier(create.name), Text(" (\n")];
    ReadableConcat(adapter, head, ColumnsParts(create.columns));
    ReadableConcat(adapter, head + ColumnsParts(create.columns), [Text(")")]);
  }

  lemma ReadableAddColumn(adapter: SqlAdapter, table: string, column: Column)
    requires ValidColumn(column) && StaysPlain(adapter, column.typeName)
    ensures Readable(adapter, StatementParts(adapter, AddColumn(table, column)))
  {
    hide PlainText;
    AlterTextIsPlain(adapter);
    ReadableColumn(adapter, column);
    ReadableConcat(adapter, [Text("alter table "), Identifier(table), Text(" add column ")], ColumnParts(column));
  }

  lemma ReadableOther(adapter: SqlAdapter, statement: Statement)
    requires !statement.Create? && !statement.AddColumn?
    ensures Readable(adapter, StatementParts(adapter, statement))
  {
    hide PlainText;
    if statement.DropColumn? || statement.RenameColumn? {
      AlterTextIsPlain(adapter);
    } else if statement.CreateIndex? {
      CreateTextIsPlain(adapter);
    } else {
      DropTextIsPlain(adapter);
    }
  }

  lemma ReadableStatement(adapter: SqlAdapter, statement: Statement)
    requires ValidStatement(statement) && TypesStayPlain(adapter, statement)
    ensures Readable(adapter, StatementParts(adapter, statement))
  {
    match statement
    case Create(create) =>
      forall c | c in create.columns ensures StaysPlain(adapter, c.typeName) {
        var i :| 0 <= i < |create.columns| && create.columns[i] == c;
        assert TypeNames(statement)[i] == c.typeName;
      }
      ReadableCreate(adapter, create);
    case AddColumn(table, column) =>
      assert TypeNames(statement)[0] == column.typeName;
      ReadableAddColumn(adapter, table, column);
    case _ => ReadableOther(adapter, statement);
  }

  // ----- what is seen of a rendered statement -----

  predicate PartSeen(adapter: SqlAdapter, part: Part) {
    match part
    case Text(text) => IsSeen(adapter, text)
    case Identifier(name) => IsSeen(adapter, name)
    case Value(value) => IsSeen(adapter, value)
  }

  lemma {:induction false} RenderSeen(adapter: SqlAdapter, parts: seq<Part>)
    requires forall part | part in parts :: PartSeen(adapter, part)
    ensures IsSeen(adapter, RenderParts(adapter, parts))
  {
    hide QuoteIdentifier, StringLiteral;
    if parts != [] {
      assert PartSeen(adapter, parts[0]);
      RenderSeen(adapter, parts[1..]);
      if parts[0].Identifier? { QuotedNoNul(adapter, parts[0].name); }
      if parts[0].Value? { QuotedNoNul(adapter, parts[0].value); }
    }
  }

  lemma NameSeen(adapter: SqlAdapter, name: string)
    ensures ValidIdentifier(name) || ValidTypeName(name) ==> IsSeen(adapter, name)
  {
    assert IsControl(NUL);
  }

  lemma TerminatorSeen(adapter: SqlAdapter)
    ensures forall part | part in TERMINATOR :: PartSeen(adapter, part)
  {
  }

  lemma ColumnPartsSeen(adapter: SqlAdapter, column: Column)
    requires ValidColumn(column) && (column.default.Some? ==> IsSeen(adapter, column.default.value))
    ensures forall part | part in ColumnParts(column) :: PartSeen(adapter, part)
  {
    NameSeen(adapter, column.name);
    NameSeen(adapter, column.typeName);
    hide ValidIdentifier, ValidTypeName;
    ColumnTextSeen(adapter, column);
  }

  lemma ColumnTextSeen(adapter: SqlAdapter, column: Column)
    requires IsSeen(adapter, column.typeName)
    ensures IsSeen(adapter, ColumnText(column))
  {
    assert NUL !in " primary key" && NUL !in " not null" && NUL !in " unique";
  }

  lemma {:induction false} ColumnsPartsSeen(adapter: SqlAdapter, columns: seq<Column>)
    requires forall c | c in columns :: ValidColumn(c) && (c.default.Some? ==> IsSeen(adapter, c.default.value))
    ensures forall part | part in ColumnsParts(columns) :: PartSeen(adapter, part)
  {
    hide ColumnParts, ValidColumn;
    if columns != [] {
      ColumnPartsSeen(adapter, columns[0]);
      ColumnsPartsSeen(adapter, columns[1..]);
      assert NUL !in "  " && NUL !in "\n" && NUL !in ",\n";
    }
  }

  lemma StatementPartsSeen(adapter: SqlAdapter, statement: Statement)
    requires ValidStatement(statement) && DefaultsSeen(adapter, statement)
    ensures forall part | part in StatementParts(adapter, statement) :: PartSeen(adapter, part)
  {
    match statement
    case Create(create) => CreatePartsSeen(adapter, create);
    case AddColumn(table, column) => AddColumnPartsSeen(adapter, table, column);
    case _ => OtherPartsSeen(adapter, statement);
  }

  lemma CreatePartsSeen(adapter: SqlAdapter, create: CreateTable)
    requires ValidStatement(Create(create)) && DefaultsSeen(adapter, Create(create))
    ensures forall part | part in StatementParts(adapter, Create(create)) :: PartSeen(adapter, part)
  {
    NameSeen(adapter, create.name);
    hide ColumnsParts, ValidColumn, ValidIdentifier;
    ColumnsPartsSeen(adapter, create.columns);
    assert NUL !in "create table " && NUL !in " (\n" && NUL !in ")";
  }

  lemma AddColumnPartsSeen(adapter: SqlAdapter, table: string, column: Column)
    requires ValidStatement(AddColumn(table, column)) && DefaultsSeen(adapter, AddColumn(table, column))
    ensures forall part | part in StatementParts(adapter, AddColumn(table, column)) :: PartSeen(adapter, part)
  {
    NameSeen(adapter, table);
    hide ColumnParts, ValidColumn, ValidIdentifier;
    assert column in ColumnsOf(AddColumn(table, column));
    ColumnPartsSeen(adapter, column);
    assert NUL !in "alter table " && NUL !in " add column ";
  }

  lemma OtherPartsSeen(adapter: SqlAdapter, statement: Statement)
    requires ValidStatement(statement) && !statement.Create? && !statement.AddColumn?
    ensures forall part | part in StatementParts(adapter, statement) :: PartSeen(adapter, part)
  {
    forall name ensures ValidIdentifier(name) ==> IsSeen(adapter, name) { NameSeen(adapter, name); }
    hide ValidIdentifier;
    WordsSeen();
  }

  lemma WordsSeen()
    ensures NUL !in "alter table " && NUL !in " drop column " && NUL !in " rename column " && NUL !in " to "
    ensures NUL !in "create unique index " && NUL !in "create index " && NUL !in " on " && NUL !in " (" && NUL !in ")"
    ensures NUL !in "drop index " && NUL !in "drop table "
  {
  }

  // ----- splitting -----

  lemma {:induction false} LexemesHoldNoTerminator(adapter: SqlAdapter, parts: seq<Part>)
    requires Readable(adapter, parts)
    ensures Raw(';') !in Lexemes(adapter, parts)
  {
    if parts != [] {
      assert ReadableAt(adapter, parts, 0);
      assert Readable(adapter, parts[1..]) by {
        assert forall i | 0 <= i < |parts| - 1 ::
          ReadableAt(adapter, parts, i + 1) ==> ReadableAt(adapter, parts[1..], i);
      }
      LexemesHoldNoTerminator(adapter, parts[1..]);
    }
  }

  lemma {:induction false} SplitBody(body: seq<Lexeme>, tail: seq<Lexeme>, current: seq<Lexeme>)
    requires Raw(';') !in body
    requires current != [] || (body != [] && !IsBlank(body[0]))
    ensures Split(body + [Raw(';')] + tail, current) == [current + body] + Split(tail, [])
    decreases |body|
  {
    var all := body + [Raw(';')] + tail;
    if body == [] {
      assert all[1..] == tail;
      assert current + body == current;
    } else {
      assert all[1..] == body[1..] + [Raw(';')] + tail;
      SplitBody(body[1..], tail, current + [body[0]]);
      assert current + [body[0]] + body[1..] == current + body;
    }
  }

  lemma SplitBlank(c: char, lexemes: seq<Lexeme>)
    requires IsSpace(c)
    ensures Split([Raw(c)] + lexemes, []) == Split(lexemes, [])
  {
    assert ([Raw(c)] + lexemes)[1..] == lexemes;
  }

  lemma StartsWithKeyword(adapter: SqlAdapter, statement: Statement)
    ensures var parts := StatementParts(adapter, statement);
            parts != [] && parts[0].Text? && parts[0].text != [] && 'a' <= parts[0].text[0] <= 'z'
  {
    match statement
    case Create(_) =>
    case AddColumn(_, _) =>
    case _ =>
  }

  lemma BodyStart(adapter: SqlAdapter, statement: Statement)
    ensures var body := Lexemes(adapter, StatementParts(adapter, statement));
            body != [] && !IsBlank(body[0])
  {
    hide Lexemes, StatementParts;
    StartsWithKeyword(adapter, statement);
    FirstLexeme(adapter, StatementParts(adapter, statement));
  }

  lemma FirstLexeme(adapter: SqlAdapter, parts: seq<Part>)
    requires parts != [] && parts[0].Text? && parts[0].text != []
    ensures Lexemes(adapter, parts) != [] && Lexemes(adapter, parts)[0] == Raw(parts[0].text[0])
  {
    assert PartLexemes(adapter, parts[0])[0] == Raw(parts[0].text[0]);
  }

  lemma LexTerminator(adapter: SqlAdapter, tail: string)
    requires CompletesNothing(tail)
    ensures Lex(adapter, false, ";\n" + tail) == [Raw(';')] + ([Raw('\n')] + Lex(adapter, false, tail))
  {
    assert (";\n" + tail)[1..] == "\n" + tail;
    assert ("\n" + tail)[1..] == tail;
  }

  lemma RenderTerminated(adapter: SqlAdapter, parts: seq<Part>)
    ensures RenderParts(adapter, parts + TERMINATOR) == RenderParts(adapter, parts) + ";\n"
  {
    RenderConcat(adapter, parts, TERMINATOR);
    assert TERMINATOR[1..] == [];
    assert RenderParts(adapter, TERMINATOR) == ";\n";
  }

  lemma LexTerminated(adapter: SqlAdapter, parts: seq<Part>, tail: string)
    requires Readable(adapter, parts) && CompletesNothing(tail)
    ensures Lex(adapter, false, RenderParts(adapter, parts) + (";\n" + tail))
         == Lexemes(adapter, parts) + [Raw(';')] + ([Raw('\n')] + Lex(adapter, false, tail))
  {
    LexParts(adapter, parts, ";\n" + tail);
    LexTerminator(adapter, tail);
  }

  lemma SplitTerminated(body: seq<Lexeme>, rest: seq<Lexeme>)
    requires Raw(';') !in body && body != [] && !IsBlank(body[0])
    ensures Split(body + [Raw(';')] + ([Raw('\n')] + rest), []) == [body] + Split(rest, [])
  {
    SplitBody(body, [Raw('\n')] + rest, []);
    SplitBlank('\n', rest);
    assert [] + body == body;
  }

  /** A statement whose type names open nothing is split off at its own terminator, whatever follows, exactly
      when all of its defaults is seen. */
  lemma ReadStatement(adapter: SqlAdapter, statement: Statement, tail: string)
    requires ValidStatement(statement) && TypesStayPlain(adapter, statement)
    requires CompletesNothing(tail)
    ensures ReadStatements(adapter, RenderParts(adapter, StatementParts(adapter, statement) + TERMINATOR) + tail)
         == [Lexemes(adapter, StatementParts(adapter, statement))] + ReadStatements(adapter, tail)
       <==> DefaultsSeen(adapter, statement)
  {
    hide StatementParts, RenderParts, Lexemes, ReadStatements, TypesStayPlain, ValidStatement, DefaultsSeen, PartSeen;
    var parts := StatementParts(adapter, statement);
    if DefaultsSeen(adapter, statement) {
      ReadableStatement(adapter, statement);
      BodyStart(adapter, statement);
      StatementPartsSeen(adapter, statement);
      TerminatorSeen(adapter);
      assert forall part | part in parts + TERMINATOR :: PartSeen(adapter, part);
      ReadTerminated(adapter, parts, tail);
    } else {
      var sql := RenderParts(adapter, parts + TERMINATOR) + tail;
      var pieces := [Lexemes(adapter, parts)] + ReadStatements(adapter, tail);
      assert pieces[0] == Lexemes(adapter, parts);
      CutDefault(adapter, sql, statement);
    }
  }

  lemma ReadTerminated(adapter: SqlAdapter, parts: seq<Part>, tail: string)
    requires Readable(adapter, parts) && CompletesNothing(tail)
    requires Lexemes(adapter, parts) != [] && !IsBlank(Lexemes(adapter, parts)[0])
    requires forall part | part in parts + TERMINATOR :: PartSeen(adapter, part)
    ensures ReadStatements(adapter, RenderParts(adapter, parts + TERMINATOR) + tail)
         == [Lexemes(adapter, parts)] + ReadStatements(adapter, tail)
  {
    hide Readable, RenderParts, Lexemes, Lex, Split, IsBlank, PartSeen, Seen, IsSeen;
    var rendered, seen := RenderParts(adapter, parts + TERMINATOR), Seen(adapter, tail);
    RenderSeen(adapter, parts + TERMINATOR);
    SeenPast(adapter, rendered, tail);
    LexemesHoldNoTerminator(adapter, parts);
    RenderTerminated(adapter, parts);
    assert RenderParts(adapter, parts) + ";\n" + seen == RenderParts(adapter, parts) + (";\n" + seen);
    LexTerminated(adapter, parts, seen);
    SplitTerminated(Lexemes(adapter, parts), Lex(adapter, false, seen));
  }

  lemma ReadNewline(adapter: SqlAdapter, rest: string)
    ensures ReadStatements(adapter, "\n" + rest) == ReadStatements(adapter, rest)
  {
    var seen := Seen(adapter, rest);
    assert IsSeen(adapter, "\n");
    SeenPast(adapter, "\n", rest);
    hide Seen;
    assert ("\n" + seen)[1..] == seen;
    SplitBlank('\n', Lex(adapter, false, seen));
  }

  lemma {:induction false} ReadPlainFile(adapter: SqlAdapter, statements: seq<Statement>)
    requires forall s | s in statements :: ValidStatement(s) && TypesStayPlain(adapter, s) && DefaultsSeen(adapter, s)
    ensures ReadStatements(adapter, Rendered(adapter, statements)) == Expected(adapter, statements)
  {
    if statements == [] {
      NothingRead(adapter);
    } else {
      assert statements[0] in statements && forall s | s in statements[1..] :: s in statements;
      ReadPlainFile(adapter, statements[1..]);
      ReadFirst(adapter, statements);
      ExpectedFirst(adapter, statements);
    }
  }

  lemma NothingRead(adapter: SqlAdapter)
    ensures ReadStatements(adapter, Rendered(adapter, [])) == Expected(adapter, [])
  {
  }

  lemma ExpectedFirst(adapter: SqlAdapter, statements: seq<Statement>)
    requires statements != []
    ensures Expected(adapter, statements)
         == [Lexemes(adapter, StatementParts(adapter, statements[0]))] + Expected(adapter, statements[1..])
  {
    hide Lexemes, StatementParts;
  }

  lemma ReadFirst(adapter: SqlAdapter, statements: seq<Statement>)
    requires statements != [] && ValidStatement(statements[0])
    requires TypesStayPlain(adapter, statements[0]) && DefaultsSeen(adapter, statements[0])
    ensures ReadStatements(adapter, Rendered(adapter, statements))
         == [Lexemes(adapter, StatementParts(adapter, statements[0]))]
            + ReadStatements(adapter, Rendered(adapter, statements[1..]))
  {
    assert |statements| == 1 ==> Rendered(adapter, statements[1..]) == "";
    hide ReadStatements, Rendered, Lexemes, StatementParts, ValidStatement, TypesStayPlain, DefaultsSeen, RenderParts;
    FileFromStatement(adapter, statements);
    var tail := if |statements| == 1 then [] else "\n" + Rendered(adapter, statements[1..]);
    ReadStatement(adapter, statements[0], tail);
    ReadNewline(adapter, Rendered(adapter, statements[1..]));
  }

  lemma FileFromStatement(adapter: SqlAdapter, statements: seq<Statement>)
    requires statements != []
    ensures Rendered(adapter, statements)
         == RenderParts(adapter, StatementParts(adapter, statements[0]) + TERMINATOR)
            + (if |statements| == 1 then [] else "\n" + Rendered(adapter, statements[1..]))
  {
    var parts := StatementParts(adapter, statements[0]) + TERMINATOR;
    if |statements| == 1 {
      assert FileParts(adapter, statements) == parts;
    } else {
      var rest := FileParts(adapter, statements[1..]);
      assert FileParts(adapter, statements) == parts + ([Text("\n")] + rest);
      RenderConcat(adapter, parts, [Text("\n")] + rest);
      assert ([Text("\n")] + rest)[1..] == rest;
    }
  }

  // ----- the ways a type name can break the reading -----

  predicate HoldsNoOpener(adapter: SqlAdapter, lexemes: seq<Lexeme>) {
    forall l | l in lexemes :: l.Raw? ==> !IsDialectOpener(adapter, l.c)
  }

  lemma {:induction false} LexHoldsNoOpener(adapter: SqlAdapter, word: bool, s: string)
    ensures HoldsNoOpener(adapter, Lex(adapter, word, s))
    decreases |s|
  {
    if s == [] {
    } else if IsQuote(s[0]) {
      var read := ReadQuoted(s[0], adapter.Mysql? && s[0] != '`', s[1..]);
      if read.Some? { LexHoldsNoOpener(adapter, false, read.value.1); }
    } else if adapter.Sqlite? && s[0] == '[' {
      var read := ReadBracketed(s[1..]);
      if read.Some? { LexHoldsNoOpener(adapter, false, read.value.1); }
    } else if adapter.Postgres? && !word && OpensDollar(s) {
      var read := ReadDollar(Delimiter(s), s[|Delimiter(s)|..]);
      if read.Some? { LexHoldsNoOpener(adapter, false, read.value.1); }
    } else if OpensLineComment(adapter, s) {
      LexHoldsNoOpener(adapter, false, AfterChar('\n', s[1..]));
    } else if StartsWith(s, '/', '*') {
      LexHoldsNoOpener(adapter, false, AfterBlockComment(adapter.Postgres?, 0, s[2..]));
    } else {
      LexHoldsNoOpener(adapter, WordAfter(word, s[0]), s[1..]);
    }
  }

  /** Splitting makes no lexemes. */
  lemma {:induction false} SplitWithin(lexemes: seq<Lexeme>, current: seq<Lexeme>)
    ensures forall piece, l | piece in Split(lexemes, current) && l in piece :: l in lexemes || l in current
    decreases |lexemes|
  {
    if lexemes != [] {
      assert lexemes[0] in lexemes;
      if lexemes[0] == Raw(';') || (current == [] && IsBlank(lexemes[0])) {
        SplitWithin(lexemes[1..], []);
      } else {
        SplitWithin(lexemes[1..], current + [lexemes[0]]);
      }
    }
  }

  lemma {:induction false} TextInLexemes(adapter: SqlAdapter, parts: seq<Part>, text: string, c: char)
    requires Text(text) in parts && c in text
    ensures Raw(c) in Lexemes(adapter, parts)
  {
    if parts[0] == Text(text) {
      var i :| 0 <= i < |text| && text[i] == c;
      assert Raws(text)[i] == Raw(c);
    } else {
      TextInLexemes(adapter, parts[1..], text, c);
    }
  }

  lemma {:induction false} ValueInLexemes(adapter: SqlAdapter, parts: seq<Part>, value: string)
    requires Value(value) in parts
    ensures Quoted('\'', value) in Lexemes(adapter, parts)
  {
    if parts[0] == Value(value) {
      assert PartLexemes(adapter, parts[0])[0] == Quoted('\'', value);
    } else {
      ValueInLexemes(adapter, parts[1..], value);
    }
  }

  lemma {:induction false} DefaultAmong(columns: seq<Column>, column: Column)
    requires column in columns && column.default.Some?
    ensures Value(column.default.value) in ColumnsParts(columns)
  {
    if columns[0] == column {
      DefaultInColumn(column);
    } else {
      DefaultAmong(columns[1..], column);
    }
  }

  lemma DefaultInColumn(column: Column)
    requires column.default.Some?
    ensures Value(column.default.value) in ColumnParts(column)
  {
    assert ColumnParts(column)[3] == Value(column.default.value);
  }

  /** A default that is not seen whole is not read, whatever the text is. */
  lemma CutDefault(adapter: SqlAdapter, sql: string, statement: Statement)
    requires !DefaultsSeen(adapter, statement)
    ensures Lexemes(adapter, StatementParts(adapter, statement)) !in ReadStatements(adapter, sql)
  {
    hide StatementParts, Lexemes, LexSeen, Split, ColumnsOf;
    var column :| column in ColumnsOf(statement) && column.default.Some? && !IsSeen(adapter, column.default.value);
    var lexeme := Quoted('\'', column.default.value);
    DefaultInParts(adapter, statement, column);
    ValueInLexemes(adapter, StatementParts(adapter, statement), column.default.value);
    SeenHoldsNoNul(adapter, sql);
    NotRead(LexSeen(adapter, sql), lexeme, Lexemes(adapter, StatementParts(adapter, statement)));
  }

  lemma NotRead(lexemes: seq<Lexeme>, lexeme: Lexeme, piece: seq<Lexeme>)
    requires HoldNoNul(lexemes) && !LexemeHoldsNoNul(lexeme) && lexeme in piece
    ensures piece !in Split(lexemes, [])
  {
    SplitWithin(lexemes, []);
    hide Split;
  }

  lemma DefaultInParts(adapter: SqlAdapter, statement: Statement, column: Column)
    requires column in ColumnsOf(statement) && column.default.Some?
    ensures Value(column.default.value) in StatementParts(adapter, statement)
  {
    hide ColumnsParts, ColumnParts;
    if statement.Create? { DefaultAmong(statement.create.columns, column); } else { DefaultInColumn(column); }
  }

  // ----- dollar quotes in lexemes -----

  /** The source text of the leading plain characters. */
  function RunText(lexemes: seq<Lexeme>): string {
    if lexemes == [] || !lexemes[0].Raw? then [] else [lexemes[0].c] + RunText(lexemes[1..])
  }

  /** Nowhere do plain characters stand that would have opened a dollar quote. */
  predicate NoDollar(word: bool, lexemes: seq<Lexeme>)
    decreases |lexemes|
  {
    lexemes != [] ==>
      if lexemes[0].Raw? then
        && (word || !OpensDollar(RunText(lexemes)))
        && NoDollar(WordAfter(word, lexemes[0].c), lexemes[1..])
      else NoDollar(false, lexemes[1..])
  }

  lemma {:induction false} TagWithin(a: string, b: string)
    requires a <= b && TagLength(a) < |a|
    ensures TagLength(b) == TagLength(a)
  {
    if IsTagChar(a[0]) { TagWithin(a[1..], b[1..]); }
  }

  lemma OpensWithin(a: string, b: string)
    requires a <= b && OpensDollar(a)
    ensures OpensDollar(b)
  {
    TagWithin(a[1..], b[1..]);
  }

  lemma {:induction false} RunIsPrefix(adapter: SqlAdapter, word: bool, s: string)
    ensures RunText(Lex(adapter, word, s)) <= s
    decreases |s|
  {
    var lexemes := Lex(adapter, word, s);
    if lexemes != [] && lexemes[0].Raw? {
      RunIsPrefix(adapter, WordAfter(word, s[0]), s[1..]);
      assert lexemes[1..] == Lex(adapter, WordAfter(word, s[0]), s[1..]);
    }
  }

  lemma {:induction false} LexNoDollar(word: bool, s: string)
    ensures NoDollar(word, Lex(Postgres, word, s))
    decreases |s|
  {
    var lexemes := Lex(Postgres, word, s);
    if s == [] {
    } else if IsQuote(s[0]) {
      var read := ReadQuoted(s[0], false, s[1..]);
      if read.Some? {
        LexNoDollar(false, read.value.1);
        assert lexemes[1..] == Lex(Postgres, false, read.value.1);
      }
    } else if !word && OpensDollar(s) {
      var read := ReadDollar(Delimiter(s), s[|Delimiter(s)|..]);
      if read.Some? {
        LexNoDollar(false, read.value.1);
        assert lexemes[1..] == Lex(Postgres, false, read.value.1);
      }
    } else if OpensLineComment(Postgres, s) {
      LexNoDollar(false, AfterChar('\n', s[1..]));
      assert lexemes[1..] == Lex(Postgres, false, AfterChar('\n', s[1..]));
    } else if StartsWith(s, '/', '*') {
      LexNoDollar(false, AfterBlockComment(true, 0, s[2..]));
      assert lexemes[1..] == Lex(Postgres, false, AfterBlockComment(true, 0, s[2..]));
    } else {
      LexNoDollar(WordAfter(word, s[0]), s[1..]);
      assert lexemes[1..] == Lex(Postgres, WordAfter(word, s[0]), s[1..]);
      RunIsPrefix(Postgres, word, s);
      if OpensDollar(RunText(lexemes)) { OpensWithin(RunText(lexemes), s); }
    }
  }

  lemma {:induction false} RunGrows(a: seq<Lexeme>, b: seq<Lexeme>)
    ensures RunText(a) <= RunText(a + b)
  {
    if a != [] {
      assert (a + b)[1..] == a[1..] + b;
      RunGrows(a[1..], b);
    }
  }

  lemma {:induction false} NoDollarBefore(word: bool, a: seq<Lexeme>, b: seq<Lexeme>)
    requires NoDollar(word, a + b)
    ensures NoDollar(word, a)
    decreases |a|
  {
    if a != [] {
      assert (a + b)[1..] == a[1..] + b;
      NoDollarBefore(if a[0].Raw? then WordAfter(word, a[0].c) else false, a[1..], b);
      RunGrows(a, b);
      if OpensDollar(RunText(a)) { OpensWithin(RunText(a), RunText(a + b)); }
    }
  }

  /** Behind such a lexeme no identifier is under way. */
  predicate EndsWord(lexeme: Lexeme) {
    lexeme.Raw? ==> !IsTagChar(lexeme.c) && lexeme.c != '$'
  }

  lemma {:induction false} NoDollarBehind(word: bool, a: seq<Lexeme>, x: Lexeme, b: seq<Lexeme>)
    requires NoDollar(word, a + [x] + b) && EndsWord(x)
    ensures NoDollar(false, b)
    decreases |a|
  {
    var all := a + [x] + b;
    if a == [] {
      assert all[0] == x && all[1..] == b;
    } else {
      assert all[1..] == a[1..] + [x] + b;
      NoDollarBehind(if a[0].Raw? then WordAfter(word, a[0].c) else false, a[1..], x, b);
    }
  }

  lemma {:induction false} SplitNoDollar(lexemes: seq<Lexeme>, current: seq<Lexeme>)
    requires NoDollar(false, current + lexemes)
    ensures forall piece | piece in Split(lexemes, current) :: NoDollar(false, piece)
    decreases |lexemes|
  {
    hide NoDollar;
    if lexemes == [] {
      assert current + lexemes == current;
      assert forall piece | piece in Split(lexemes, current) :: piece == current;
    } else {
      var x, rest := lexemes[0], lexemes[1..];
      assert current + lexemes == current + [x] + rest;
      if x == Raw(';') || (current == [] && IsBlank(x)) {
        NoDollarBefore(false, current, lexemes);
        NoDollarBehind(false, current, x, rest);
        assert [] + rest == rest;
        SplitNoDollar(rest, []);
      } else {
        SplitNoDollar(rest, current + [x]);
      }
    }
  }

  lemma {:induction false} DollarInRaws(word: bool, text: string, behind: seq<Lexeme>)
    requires HoldsDollar(word, text)
    ensures !NoDollar(word, Raws(text) + behind)
    decreases |text|
  {
    var all := Raws(text) + behind;
    assert all[0] == Raw(text[0]) && all[1..] == Raws(text[1..]) + behind;
    if !word && OpensDollar(text) {
      RunOfRaws(text, behind);
      OpensWithin(text, RunText(all));
    } else {
      DollarInRaws(WordAfter(word, text[0]), text[1..], behind);
    }
  }

  lemma {:induction false} RunOfRaws(text: string, behind: seq<Lexeme>)
    ensures text <= RunText(Raws(text) + behind)
  {
    if text != [] {
      assert (Raws(text) + behind)[1..] == Raws(text[1..]) + behind;
      RunOfRaws(text[1..], behind);
    }
  }

  lemma {:induction false} DollarWithin(word: bool, a: string, b: string)
    requires HoldsDollar(word, a)
    ensures HoldsDollar(word, a + b)
    decreases |a|
  {
    assert (a + b)[1..] == a[1..] + b;
    if !word && OpensDollar(a) {
      OpensWithin(a, a + b);
    } else {
      DollarWithin(WordAfter(word, a[0]), a[1..], b);
    }
  }

  // ----- from the statement to its lexemes -----

  /** Where the definition of column k stands among the parts. */
  lemma {:induction false} ColumnAmong(columns: seq<Column>, k: nat) returns (before: seq<Part>, after: seq<Part>)
    requires k < |columns|
    ensures ColumnsParts(columns)
         == before + ([Identifier(columns[k].name), Text(ColumnText(columns[k]))] + after)
  {
    var end := [Text(if |columns| == 1 then "\n" else ",\n")];
    if k == 0 {
      before := [Text("  ")];
      after := ColumnParts(columns[0])[2..] + end + ColumnsParts(columns[1..]);
    } else {
      before, after := ColumnAmong(columns[1..], k - 1);
      before := [Text("  ")] + ColumnParts(columns[0]) + end + before;
    }
  }

  lemma ColumnAmongParts(adapter: SqlAdapter, statement: Statement, typeName: string)
    returns (column: Column, before: seq<Part>, after: seq<Part>)
    requires typeName in TypeNames(statement)
    ensures column.typeName == typeName
    ensures StatementParts(adapter, statement)
         == before + ([Identifier(column.name), Text(ColumnText(column))] + after)
  {
    hide ColumnText, ColumnParts, ColumnsParts;
    var k :| 0 <= k < |TypeNames(statement)| && TypeNames(statement)[k] == typeName;
    if statement.Create? {
      column := statement.create.columns[k];
      before, after := ColumnAmong(statement.create.columns, k);
      var head := [Text("create table "), Identifier(statement.create.name), Text(" (\n")];
      Regroup(head, before, [Identifier(column.name), Text(ColumnText(column))], after, [Text(")")]);
      before, after := head + before, after + [Text(")")];
    } else {
      column := statement.column;
      before := [Text("alter table "), Identifier(statement.table), Text(" add column ")];
      after := DefinitionStarts(column);
    }
  }

  lemma DefinitionStarts(column: Column) returns (after: seq<Part>)
    ensures ColumnParts(column) == [Identifier(column.name), Text(ColumnText(column))] + after
  {
    hide ColumnText;
    after := ColumnParts(column)[2..];
  }

  lemma Regroup<T>(head: seq<T>, before: seq<T>, middle: seq<T>, after: seq<T>, end: seq<T>)
    ensures head + (before + (middle + after)) + end == (head + before) + (middle + (after + end))
  {
  }

  lemma OpenerInExpected(adapter: SqlAdapter, statement: Statement, typeName: string, c: char)
    requires typeName in TypeNames(statement) && c in typeName && IsDialectOpener(adapter, c)
    ensures !HoldsNoOpener(adapter, Lexemes(adapter, StatementParts(adapter, statement)))
  {
    var column, before, after := ColumnAmongParts(adapter, statement, typeName);
    var parts := StatementParts(adapter, statement);
    assert parts[|before| + 1] == Text(ColumnText(column));
    assert c in " " + typeName;
    assert c in ColumnText(column);
    TextInLexemes(adapter, parts, ColumnText(column), c);
  }

  lemma DollarInExpected(statement: Statement, typeName: string)
    requires typeName in TypeNames(statement) && HoldsDollar(false, typeName)
    ensures !NoDollar(false, Lexemes(Postgres, StatementParts(Postgres, statement)))
  {
    var column, before, after := ColumnAmongParts(Postgres, statement, typeName);
    var text := ColumnText(column);
    DollarInColumn(column);
    hide ColumnText, HoldsDollar, NoDollar, StatementParts;
    var x := Quoted(IdentifierQuote(Postgres), column.name);
    var tail := Raws(text) + Lexemes(Postgres, after);
    LexemesAround(Postgres, before, column.name, text, after);
    hide Lexemes;
    DollarInRaws(false, text, Lexemes(Postgres, after));
    if NoDollar(false, Lexemes(Postgres, before) + [x] + tail) {
      NoDollarBehind(false, Lexemes(Postgres, before), x, tail);
    }
  }

  lemma LexemesAround(adapter: SqlAdapter, before: seq<Part>, name: string, text: string, after: seq<Part>)
    ensures Lexemes(adapter, before + ([Identifier(name), Text(text)] + after))
         == Lexemes(adapter, before) + [Quoted(IdentifierQuote(adapter), name)] + (Raws(text) + Lexemes(adapter, after))
  {
    hide Lexemes, Raws, RenderParts, RenderPart;
    var parts, tail := [Identifier(name), Text(text)] + after, [Text(text)] + after;
    LexemesConcat(adapter, before, parts);
    assert parts[1..] == tail && tail[1..] == after;
    FirstPart(adapter, parts);
    FirstPart(adapter, tail);
  }

  lemma DollarInColumn(column: Column)
    requires HoldsDollar(false, column.typeName)
    ensures HoldsDollar(false, ColumnText(column))
  {
    var flags := (if column.primaryKey then " primary key" else "")
      + (if column.notNull then " not null" else "") + (if column.unique then " unique" else "");
    DollarBehindBlank(column.typeName);
    hide HoldsDollar;
    DollarWithin(false, " " + column.typeName, flags);
    assert ColumnText(column) == " " + column.typeName + flags;
  }

  lemma DollarBehindBlank(text: string)
    ensures HoldsDollar(false, " " + text) <==> HoldsDollar(false, text)
  {
    assert (" " + text)[1..] == text;
  }

  /** Reading the rendered SQL finds exactly the compiled statements, in order, with every identifier
      and default decoded to its original text, if and only if no type name holds `#` (MySQL), `[`
      (SQLite) or, outside a word, the delimiter of a dollar quote (PostgreSQL), and no default a NUL (SQLite
      and PostgreSQL). The source checks type names for the other comment and quote characters, not for
      these, and defaults for nothing. */
  lemma RenderedSqlReadsBack(adapter: SqlAdapter, statements: seq<Statement>)
    requires forall s | s in statements :: ValidStatement(s)
    ensures ReadStatements(adapter, Rendered(adapter, statements)) == Expected(adapter, statements)
       <==> forall s | s in statements :: TypesStayPlain(adapter, s) && DefaultsSeen(adapter, s)
  {
    if forall s | s in statements :: TypesStayPlain(adapter, s) && DefaultsSeen(adapter, s) {
      ReadPlainFile(adapter, statements);
    } else {
      var k :| 0 <= k < |statements| && !(TypesStayPlain(adapter, statements[k]) && DefaultsSeen(adapter, statements[k]));
      NotReadBack(adapter, statements, k);
    }
  }

  lemma NotReadBack(adapter: SqlAdapter, statements: seq<Statement>, k: nat)
    requires k < |statements| && !(TypesStayPlain(adapter, statements[k]) && DefaultsSeen(adapter, statements[k]))
    ensures ReadStatements(adapter, Rendered(adapter, statements)) != Expected(adapter, statements)
  {
    hide ReadStatements, Rendered, Lexemes, StatementParts, TypesStayPlain, DefaultsSeen;
    var sql := Rendered(adapter, statements);
    assert Expected(adapter, statements)[k] == Lexemes(adapter, StatementParts(adapter, statements[k]));
    if TypesStayPlain(adapter, statements[k]) {
      CutDefault(adapter, sql, statements[k]);
    } else {
      OpenedType(adapter, sql, statements[k]);
    }
  }

  /** Nor is a type name that opens a quote or comment. */
  lemma OpenedType(adapter: SqlAdapter, sql: string, statement: Statement)
    requires !TypesStayPlain(adapter, statement)
    ensures Lexemes(adapter, StatementParts(adapter, statement)) !in ReadStatements(adapter, sql)
  {
    hide Lex, Lexemes, StatementParts, TypeNames, HoldsDollar, NoDollar, Seen;
    var typeName :| typeName in TypeNames(statement) && !StaysPlain(adapter, typeName);
    var seen := Seen(adapter, sql);
    if adapter.Postgres? && HoldsDollar(false, typeName) {
      DollarInExpected(statement, typeName);
      LexNoDollar(false, seen);
      assert [] + Lex(adapter, false, seen) == Lex(adapter, false, seen);
      SplitNoDollar(Lex(adapter, false, seen), []);
    } else {
      var c :| c in typeName && IsDialectOpener(adapter, c);
      OpenerInExpected(adapter, statement, typeName, c);
      LexHoldsNoOpener(adapter, false, seen);
      SplitWithin(Lex(adapter, false, seen), []);
    }
  }
}
