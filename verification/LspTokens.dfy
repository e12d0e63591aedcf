/** Semantic tokens as a stream of five integers each, relative to the token before (LSP 3.17, section
    "Semantic Tokens"). */
module LspTokens {
  import opened Wrappers

  datatype Position = Position(line: nat, character: nat)

  /** A lexed token: its range in UTF-16 units, and its semantic type if it has one. */
  datatype Token = Token(start: Position, end: Position, tokenType: Option<nat>)

  /** What a client shows. */
  datatype Shown = Shown(line: nat, start: nat, length: nat, tokenType: nat)

  function Minus(a: nat, b: nat): nat {
    if a >= b then a - b else 0
  }

  /** Tokens without a type, over several lines, or empty, are left out. */
  function ShownAs(token: Token): Option<Shown> {
    var length := Minus(token.end.character, token.start.character);
    if token.tokenType.None? || token.start.line != token.end.line || length == 0 then None
    else Some(Shown(token.start.line, token.start.character, length, token.tokenType.value))
  }

  function Emitted(tokens: seq<Token>): seq<Shown> {
    if tokens == [] then []
    else
      var shown := ShownAs(tokens[0]);
      (if shown.Some? then [shown.value] else []) + Emitted(tokens[1..])
  }

  /** The five integers of a token after one at `previous`. */
  function Relative(previous: Position, s: Shown): seq<nat> {
    var deltaLine := Minus(s.line, previous.line);
    [deltaLine, if deltaLine == 0 then Minus(s.start, previous.character) else s.start, s.length, s.tokenType, 0]
  }

  function Encoded(previous: Position, shown: seq<Shown>): seq<nat>
    decreases |shown|
  {
    if shown == [] then []
    else Relative(previous, shown[0]) + Encoded(Position(shown[0].line, shown[0].start), shown[1..])
  }

  /** How a client reads the stream. */
  function Decoded(previous: Position, data: seq<nat>): seq<Shown>
    decreases |data|
  {
    if |data| < 5 then []
    else
      var line := previous.line + data[0];
      var start := if data[0] == 0 then previous.character + data[1] else data[1];
      [Shown(line, start, data[2], data[3])] + Decoded(Position(line, start), data[5..])
  }

  // ----- order -----

  predicate Before(p: Position, q: Position) {
    p.line < q.line || (p.line == q.line && p.character <= q.character)
  }

  /** Each starts no earlier than the one before. */
  predicate StartsAscend(previous: Position, shown: seq<Shown>)
    decreases |shown|
  {
    shown != [] ==>
      && Before(previous, Position(shown[0].line, shown[0].start))
      && StartsAscend(Position(shown[0].line, shown[0].start), shown[1..])
  }

  /** Ranges in source order that do not overlap. */
  predicate Ordered(tokens: seq<Token>) {
    && (forall i | 0 <= i < |tokens| :: Before(tokens[i].start, tokens[i].end))
    && (forall i, j | 0 <= i < j < |tokens| :: Before(tokens[i].end, tokens[j].start))
  }

  lemma {:induction false} OrderedStartsAscend(tokens: seq<Token>, previous: Position)
    requires Ordered(tokens) && forall t | t in tokens :: Before(previous, t.start)
    ensures StartsAscend(previous, Emitted(tokens))
  {
    if tokens != [] {
      var rest := tokens[1..];
      assert Ordered(rest);
      forall t | t in rest ensures Before(tokens[0].start, t.start) && Before(previous, t.start) {
        var i :| 0 <= i < |rest| && rest[i] == t;
        assert Before(tokens[0].end, tokens[i + 1].start);
      }
      assert tokens[0] in tokens;
      if ShownAs(tokens[0]).Some? {
        OrderedStartsAscend(rest, tokens[0].start);
        assert ([ShownAs(tokens[0]).value] + Emitted(rest))[1..] == Emitted(rest);
      } else {
        OrderedStartsAscend(rest, previous);
        assert Emitted(tokens) == Emitted(rest);
      }
    }
  }

  /** The stream decodes to the tokens emitted exactly when their starts ascend, that is, when neither
      subtraction ever saturates. */
  lemma {:induction false} DecodesIff(previous: Position, shown: seq<Shown>)
    ensures Decoded(previous, Encoded(previous, shown)) == shown <==> StartsAscend(previous, shown)
    decreases |shown|
  {
    if shown != [] {
      var here, rest := Position(shown[0].line, shown[0].start), shown[1..];
      var data := Encoded(previous, shown);
      assert data[..5] == Relative(previous, shown[0]) && data[5..] == Encoded(here, rest);
      DecodesIff(here, rest);
      var first := Decoded(previous, data)[0];
      if Before(previous, here) {
        assert first == shown[0];
        assert Decoded(previous, data) == [shown[0]] + Decoded(here, data[5..]);
        assert shown == [shown[0]] + rest;
        assert Decoded(previous, data)[1..] == Decoded(here, data[5..]);
      } else {
        assert first != shown[0];
      }
    }
  }

  /** For tokens in source order the client sees exactly what was emitted. */
  lemma TokensDecode(tokens: seq<Token>)
    requires Ordered(tokens)
    ensures Decoded(Position(0, 0), Encoded(Position(0, 0), Emitted(tokens))) == Emitted(tokens)
  {
    OrderedStartsAscend(tokens, Position(0, 0));
    DecodesIff(Position(0, 0), Emitted(tokens));
  }

  lemma {:induction false} EncodedSnoc(previous: Position, shown: seq<Shown>, s: Shown)
    ensures var last := if shown == [] then previous
                        else Position(shown[|shown| - 1].line, shown[|shown| - 1].start);
            Encoded(previous, shown + [s]) == Encoded(previous, shown) + Relative(last, s)
    decreases |shown|
  {
    if shown == [] {
      assert shown + [s] == [s] && Encoded(Position(s.line, s.start), [s][1..]) == [];
    } else {
      assert (shown + [s])[1..] == shown[1..] + [s];
      EncodedSnoc(Position(shown[0].line, shown[0].start), shown[1..], s);
    }
  }

  lemma {:induction false} EmittedSnoc(tokens: seq<Token>, token: Token)
    ensures Emitted(tokens + [token])
         == if ShownAs(token).Some? then Emitted(tokens) + [ShownAs(token).value] else Emitted(tokens)
  {
    if tokens == [] {
      assert tokens + [token] == [token] && Emitted([token][1..]) == [];
    } else {
      hide ShownAs;
      var all, first := tokens + [token], ShownAs(tokens[0]);
      var head := if first.Some? then [first.value] else [];
      assert all[0] == tokens[0] && all[1..] == tokens[1..] + [token];
      assert Emitted(all) == head + Emitted(tokens[1..] + [token]);
      EmittedSnoc(tokens[1..], token);
    }
  }

  lemma EncodedNothing(tokens: seq<Token>)
    ensures Emitted(tokens[..0]) == [] && Encoded(Position(0, 0), []) == []
  {
  }

  lemma RelativeIs(previous: Position, s: Shown)
    ensures var deltaLine := Minus(s.line, previous.line);
            Relative(previous, s)
            == [deltaLine, if deltaLine == 0 then Minus(s.start, previous.character) else s.start,
                s.length, s.tokenType, 0]
  {
  }

  /** The loop of `semantic_token_data`, over the lexer's tokens. */
  method SemanticTokenData(tokens: seq<Token>) returns (encoded: seq<nat>)
    ensures encoded == Encoded(Position(0, 0), Emitted(tokens))
  {
    hide Encoded, Emitted, Relative;
    EncodedNothing(tokens);
    encoded := [];
    var previousLine, previousStart, i := 0, 0, 0;
    while i < |tokens|
      invariant i <= |tokens|
      invariant encoded == Encoded(Position(0, 0), Emitted(tokens[..i]))
      invariant var shown := Emitted(tokens[..i]);
                Position(previousLine, previousStart) ==
                  if shown == [] then Position(0, 0) else Position(shown[|shown| - 1].line, shown[|shown| - 1].start)
    {
      var token := tokens[i];
      EmittedSnoc(tokens[..i], token);
      assert tokens[..i + 1] == tokens[..i] + [token];
      i := i + 1;
      if token.tokenType.None? { continue; }
      if token.start.line != token.end.line { continue; }
      var length := Minus(token.end.character, token.start.character);
      if length == 0 { continue; }
      var deltaLine := Minus(token.start.line, previousLine);
      var deltaStart := if deltaLine == 0 then Minus(token.start.character, previousStart) else token.start.character;
      EncodedSnoc(Position(0, 0), Emitted(tokens[..i - 1]), ShownAs(token).value);
      RelativeIs(Position(previousLine, previousStart), ShownAs(token).value);
      encoded := encoded + [deltaLine, deltaStart, length, token.tokenType.value, 0];
      previousLine := token.start.line;
      previousStart := token.start.character;
    }
    assert tokens[..i] == tokens;
  }
}
