/** The two conversions as they run, over the bytes of the text. */
module LspOffsets {
  import opened Wrappers
  import opened Utf8
  import opened LspTokens
  import opened LspPositions

  // ----- bytes and characters -----

  lemma OffsetAdds(text: string, a: nat, b: nat)
    requires a + b <= |text|
    ensures Offset(text, a + b) == Offset(text, a) + Offset(text[a..], b)
  {
    assert text[..a + b] == text[..a] + text[a..][..b];
    BytesConcat(text[..a], text[a..][..b]);
  }

  lemma OffsetSteps(text: string, k: nat)
    requires k < |text|
    ensures Offset(text, k + 1) == Offset(text, k) + |CharBytes(text[k])|
  {
    OffsetAdds(text, k, 1);
    assert text[k..][..1] == [text[k]] && Bytes([text[k]]) == CharBytes(text[k]) + Bytes([text[k]][1..]);
  }

  /** The text from a byte offset on, and up to one. */
  function From(text: string, offset: nat): string {
    if offset == 0 || text == [] then text
    else From(text[1..], if offset >= |CharBytes(text[0])| then offset - |CharBytes(text[0])| else 0)
  }

  function UpTo(text: string, offset: nat): (r: string)
    ensures |r| <= |text|
  {
    if text == [] || offset < |CharBytes(text[0])| then []
    else [text[0]] + UpTo(text[1..], offset - |CharBytes(text[0])|)
  }

  lemma {:induction false} SplitAtBoundary(text: string, k: nat)
    requires k <= |text|
    ensures From(text, Offset(text, k)) == text[k..] && UpTo(text, Offset(text, k)) == text[..k]
  {
    if k > 0 {
      SplitAtBoundary(text[1..], k - 1);
      assert text[..k] == [text[0]] + text[1..][..k - 1];
      assert Bytes(text[..k]) == CharBytes(text[0]) + Bytes(text[..k][1..]);
      assert text[..k][1..] == text[1..][..k - 1];
    }
  }

  // ----- line starts in bytes -----

  function Plus(n: nat, r: Option<nat>): Option<nat> {
    if r.Some? then Some(n + r.value) else None
  }

  function ByteLineStart(bytes: seq<Byte>, line: nat): Option<nat> {
    if line == 0 then Some(0)
    else if bytes == [] then None
    else Plus(1, ByteLineStart(bytes[1..], if bytes[0] == LF then line - 1 else line))
  }

  lemma {:induction false} SkipBytes(p: seq<Byte>, b: seq<Byte>, line: nat)
    requires LF !in p && line > 0
    ensures ByteLineStart(p + b, line) == Plus(|p|, ByteLineStart(b, line))
  {
    if p == [] {
      assert p + b == b;
    } else {
      assert (p + b)[1..] == p[1..] + b;
      SkipBytes(p[1..], b, line);
    }
  }

  lemma {:induction false} ByteLineStartIs(text: string, line: nat)
    ensures ByteLineStart(Bytes(text), line)
         == if LineStart(text, line).Some? then Some(Offset(text, LineStart(text, line).value)) else None
  {
    if line > 0 && text != [] {
      var c, rest := text[0], text[1..];
      AsciiBytes(c, LF);
      var next := if c == '\n' then line - 1 else line;
      ByteLineStartIs(rest, next);
      OffsetInRest(text, rest);
      if c == '\n' {
        assert ([LF] + Bytes(rest))[1..] == Bytes(rest);
      } else {
        SkipBytes(CharBytes(c), Bytes(rest), line);
      }
    }
  }

  lemma OffsetInRest(text: string, rest: string)
    requires text != [] && rest == text[1..]
    ensures forall k | 0 <= k <= |rest| :: Offset(text, k + 1) == |CharBytes(text[0])| + Offset(rest, k)
  {
    forall k | 0 <= k <= |rest| ensures Offset(text, k + 1) == |CharBytes(text[0])| + Offset(rest, k) {
      OffsetAdds(text, 1, k);
      OffsetSteps(text, 0);
    }
  }

  lemma ByteLineStartStep(bytes: seq<Byte>, i: nat, line: nat)
    requires i < |bytes| && line > 0
    ensures ByteLineStart(bytes[i..], line)
         == Plus(1, ByteLineStart(bytes[i + 1..], if bytes[i] == LF then line - 1 else line))
  {
    assert bytes[i..][0] == bytes[i] && bytes[i..][1..] == bytes[i + 1..];
  }

  /** `offset_for_position`. */
  method OffsetForPosition(text: string, position: Position) returns (r: Option<nat>)
    ensures r == if BoundaryAt(text, position).None? then None
                 else Some(Offset(text, BoundaryAt(text, position).value))
  {
    hide Bytes, LineStart, Walk, From, Offset;
    var bytes := Bytes(text);
    ByteLineStartIs(text, position.line);
    var lineStart, currentLine, index := 0, 0, 0;
    assert bytes[0..] == bytes;
    while index < |bytes| && currentLine != position.line
      invariant index <= |bytes| && currentLine <= position.line
      invariant ByteLineStart(bytes, position.line)
             == if currentLine == position.line then Some(lineStart)
                else Plus(index, ByteLineStart(bytes[index..], position.line - currentLine))
    {
      ByteLineStartStep(bytes, index, position.line - currentLine);
      if bytes[index] == LF {
        currentLine := currentLine + 1;
        lineStart := index + 1;
      }
      index := index + 1;
    }
    if currentLine != position.line { return None; }
    ghost var start := LineStart(text, position.line).value;
    SplitAtBoundary(text, start);
    var relative := InLine(From(text, lineStart), position.character);
    OffsetAdds(text, start, Walk(text[start..], position.character));
    r := Some(lineStart + relative);
  }

  /** The rest of a line is walked until enough code units are passed. */
  method InLine(rest: string, character: nat) returns (relative: nat)
    ensures relative == Offset(rest, Walk(rest, character))
  {
    relative := 0;
    var utf16, i := 0, 0;
    assert rest[0..] == rest;
    while i < |rest| && rest[i] != '\n'
      invariant i <= |rest|
      invariant Walk(rest, character) == i + Walk(rest[i..], character - utf16)
      invariant relative == Offset(rest, i)
    {
      if utf16 >= character { return; }
      OffsetSteps(rest, i);
      assert rest[i..][0] == rest[i] && rest[i..][1..] == rest[i + 1..];
      utf16 := utf16 + Units(rest[i]);
      relative := relative + |CharBytes(rest[i])|;
      i := i + 1;
    }
  }

  // ----- from an offset to a position -----

  function StartsFrom(bytes: seq<Byte>, base: nat): seq<nat> {
    if bytes == [] then []
    else (if bytes[0] == LF then [base + 1] else []) + StartsFrom(bytes[1..], base + 1)
  }

  lemma {:induction false} StartsConcat(a: seq<Byte>, b: seq<Byte>, base: nat)
    ensures StartsFrom(a + b, base) == StartsFrom(a, base) + StartsFrom(b, base + |a|)
  {
    if a == [] {
      assert a + b == b;
    } else {
      assert (a + b)[0] == a[0] && (a + b)[1..] == a[1..] + b;
      StartsConcat(a[1..], b, base + 1);
      var first := if a[0] == LF then [base + 1] else [];
      assert first + (StartsFrom(a[1..], base + 1) + StartsFrom(b, base + |a|))
          == first + StartsFrom(a[1..], base + 1) + StartsFrom(b, base + |a|);
    }
  }

  lemma {:induction false} StartsWithin(bytes: seq<Byte>, base: nat)
    ensures forall i | 0 <= i < |StartsFrom(bytes, base)| :: base < StartsFrom(bytes, base)[i] <= base + |bytes|
  {
    if bytes != [] { StartsWithin(bytes[1..], base + 1); }
  }

  lemma {:induction false} NoStarts(bytes: seq<Byte>, base: nat)
    requires LF !in bytes
    ensures StartsFrom(bytes, base) == []
  {
    if bytes != [] { NoStarts(bytes[1..], base + 1); }
  }

  /** Lines of a text, and the byte its last line starts at. */
  lemma {:induction false} LastStart(text: string)
    ensures var starts := [0] + StartsFrom(Bytes(text), 0);
            |starts| == Newlines(text) + 1 && starts[|starts| - 1] == Offset(text, LastLine(text))
  {
    if text != [] {
      var n := |text| - 1;
      assert text == text[..n] + [text[n]];
      LastStart(text[..n]);
      StartsSnoc(text[..n], text[n]);
      NewlinesSnoc(text[..n], text[n]);
      LastLineSnoc(text[..n], text[n]);
      hide StartsFrom, Bytes, Newlines, LastLine;
    }
  }

  lemma StartsSnoc(init: string, c: char)
    ensures StartsFrom(Bytes(init + [c]), 0)
         == StartsFrom(Bytes(init), 0) + if c == '\n' then [|Bytes(init + [c])|] else []
  {
    BytesConcat(init, [c]);
    assert Bytes([c]) == CharBytes(c) + Bytes([c][1..]) == CharBytes(c);
    AsciiBytes(c, LF);
    hide Bytes, CharBytes;
    StartsConcat(Bytes(init), CharBytes(c), 0);
    var base := |Bytes(init)|;
    if c == '\n' {
      assert StartsFrom([LF], base) == [base + 1] + StartsFrom([LF][1..], base + 1);
    } else {
      NoStarts(CharBytes(c), base);
    }
  }

  lemma NewlinesSnoc(init: string, c: char)
    ensures Newlines(init + [c]) == Newlines(init) + if c == '\n' then 1 else 0
  {
    NewlinesConcat(init, [c]);
    assert [c][1..] == "";
  }

  lemma LastLineSnoc(init: string, c: char)
    ensures Offset(init + [c], LastLine(init + [c]))
         == if c == '\n' then |Bytes(init + [c])| else Offset(init, LastLine(init))
  {
    hide Bytes;
    var text := init + [c];
    assert text[..|init|] == init && text[..|text|] == text;
    if c != '\n' { assert text[..LastLine(init)] == init[..LastLine(init)]; }
  }

  /** How many of an ascending list, from the front, are at most a bound: where a search for it ends. */
  function CountAtMost(starts: seq<nat>, bound: nat): (n: nat)
    ensures n <= |starts|
  {
    if starts == [] || starts[0] > bound then 0 else 1 + CountAtMost(starts[1..], bound)
  }

  lemma {:induction false} CountSplits(a: seq<nat>, b: seq<nat>, bound: nat)
    requires forall i | 0 <= i < |a| :: a[i] <= bound
    requires b != [] ==> b[0] > bound
    ensures CountAtMost(a + b, bound) == |a|
  {
    if a == [] {
      assert a + b == b;
    } else {
      assert (a + b)[1..] == a[1..] + b;
      CountSplits(a[1..], b, bound);
    }
  }

  lemma {:induction false} LineFound(text: string, k: nat)
    requires k <= |text|
    ensures var starts := [0] + StartsFrom(Bytes(text), 0);
            var found := CountAtMost(starts, Offset(text, k));
            && found == Newlines(text[..k]) + 1
            && starts[found - 1] == Offset(text, LastLine(text[..k]))
  {
    var head, tail := text[..k], text[k..];
    assert text == head + tail;
    BytesConcat(head, tail);
    LastStart(head);
    assert head[..LastLine(head)] == text[..LastLine(head)];
    assert Offset(text, LastLine(head)) == Offset(head, LastLine(head)) && Offset(text, k) == |Bytes(head)|;
    hide *;
    StartsSplit(Bytes(head), Bytes(tail));
  }

  lemma StartsSplit(before: seq<Byte>, after: seq<Byte>)
    ensures var a, all := [0] + StartsFrom(before, 0), [0] + StartsFrom(before + after, 0);
            CountAtMost(all, |before|) == |a| && all[|a| - 1] == a[|a| - 1]
  {
    hide StartsFrom, CountAtMost;
    StartsConcat(before, after, 0);
    StartsWithin(before, 0);
    StartsWithin(after, |before|);
    var a, b := [0] + StartsFrom(before, 0), StartsFrom(after, |before|);
    assert [0] + StartsFrom(before + after, 0) == a + b;
    CountSplits(a, b, |before|);
  }

  /** `line_starts`. */
  method LineStarts(bytes: seq<Byte>) returns (starts: seq<nat>)
    ensures starts == [0] + StartsFrom(bytes, 0)
  {
    starts := [0];
    var index := 0;
    assert bytes[0..] == bytes;
    while index < |bytes|
      invariant index <= |bytes|
      invariant starts + StartsFrom(bytes[index..], index) == [0] + StartsFrom(bytes, 0)
    {
      assert bytes[index..][0] == bytes[index] && bytes[index..][1..] == bytes[index + 1..];
      if bytes[index] == LF { starts := starts + [index + 1]; }
      index := index + 1;
    }
  }

  /** The position at a byte offset. */
  function PositionAt(text: string, offset: nat): Position {
    PositionOf(text, |UpTo(text, offset)|)
  }

  /** At a boundary this is the boundary's position, and past the end that of the end. */
  lemma PositionAtBoundary(text: string, k: nat, offset: nat)
    requires k <= |text|
    requires Offset(text, k) == if offset <= |Bytes(text)| then offset else |Bytes(text)|
    ensures PositionAt(text, offset) == PositionOf(text, k)
  {
    if offset <= |Bytes(text)| {
      SplitAtBoundary(text, k);
    } else {
      UpToPastEnd(text, offset);
      ShorterBefore(text, k);
    }
  }

  lemma {:induction false} UpToPastEnd(text: string, offset: nat)
    requires offset >= |Bytes(text)|
    ensures UpTo(text, offset) == text
  {
    if text != [] { UpToPastEnd(text[1..], offset - |CharBytes(text[0])|); }
  }

  /** Only the last boundary has all bytes before it. */
  lemma ShorterBefore(text: string, k: nat)
    requires k <= |text| && Offset(text, k) == |Bytes(text)|
    ensures k == |text|
  {
    assert text == text[..k] + text[k..];
    BytesConcat(text[..k], text[k..]);
  }


  /** `utf16_position`. The text is sliced at the offset, so it has to be a character boundary, here the one
      before character k, or past the end. */
  method Utf16Position(text: string, offset: nat, ghost k: nat) returns (position: Position)
    requires k <= |text|
    requires Offset(text, k) == if offset <= |Bytes(text)| then offset else |Bytes(text)|
    ensures position == PositionOf(text, k) && position == PositionAt(text, offset)
  {
    PositionAtBoundary(text, k, offset);
    hide *;
    var bytes := Bytes(text);
    var bounded := if offset <= |bytes| then offset else |bytes|;
    var starts := LineStarts(bytes);
    LineFound(text, k);
    var lineIndex := CountAtMost(starts, bounded) - 1;
    var lineStart := starts[lineIndex];
    SlicedPosition(text, k);
    position := Position(lineIndex, Utf16Length(UpTo(From(text, lineStart), bounded - lineStart)));
  }

  /** The line sliced out of the bytes up to a boundary gives its position. */
  lemma {:induction false} SlicedPosition(text: string, k: nat)
    requires k <= |text|
    ensures var start := Offset(text, LastLine(text[..k]));
            && start <= Offset(text, k)
            && PositionOf(text, k)
            == Position(Newlines(text[..k]), Utf16Length(UpTo(From(text, start), Offset(text, k) - start)))
  {
    hide *;
    var start := LastLine(text[..k]);
    PositionFromLine(text, k);
    OffsetAdds(text, start, k - start);
    SliceIs(text, start, k);
  }

  lemma PositionFromLine(text: string, k: nat)
    requires k <= |text|
    ensures PositionOf(text, k) == Position(Newlines(text[..k]), Utf16Length(text[LastLine(text[..k])..k]))
  {
    hide LastLine, Newlines, Utf16Length;
    assert text[..k][LastLine(text[..k])..] == text[LastLine(text[..k])..k];
  }

  lemma SliceIs(text: string, start: nat, k: nat)
    requires start <= k <= |text|
    ensures UpTo(From(text, Offset(text, start)), Offset(text[start..], k - start)) == text[start..k]
  {
    hide *;
    SplitAtBoundary(text, start);
    SplitAtBoundary(text[start..], k - start);
    assert text[start..][..k - start] == text[start..k];
  }

  // ----- the lexer's tokens -----

  /** A token as it is lexed: the bytes it spans, and its semantic type if it has one. */
  datatype Spanned = Spanned(start: nat, end: nat, tokenType: Option<nat>)

  /** Spans in source order that do not overlap. */
  predicate SpansAscend(spans: seq<Spanned>) {
    && (forall i | 0 <= i < |spans| :: spans[i].start <= spans[i].end)
    && (forall i, j | 0 <= i < j < |spans| :: spans[i].end <= spans[j].start)
  }

  function Ranged(text: string, span: Spanned): Token {
    Token(PositionAt(text, span.start), PositionAt(text, span.end), span.tokenType)
  }

  function RangedAll(text: string, spans: seq<Spanned>): seq<Token> {
    seq(|spans|, i requires 0 <= i < |spans| => Ranged(text, spans[i]))
  }

  lemma {:induction false} UpToAscends(text: string, a: nat, b: nat)
    requires a <= b
    ensures |UpTo(text, a)| <= |UpTo(text, b)|
  {
    if text != [] && |CharBytes(text[0])| <= a {
      UpToAscends(text[1..], a - |CharBytes(text[0])|, b - |CharBytes(text[0])|);
    }
  }

  lemma PositionsAtAscend(text: string, a: nat, b: nat)
    requires a <= b
    ensures Before(PositionAt(text, a), PositionAt(text, b))
  {
    UpToAscends(text, a, b);
    PositionsAscend(text, |UpTo(text, a)|, |UpTo(text, b)|);
  }

  /** For tokens whose spans ascend the client sees exactly what was emitted, on every text. */
  lemma SpansDecode(text: string, spans: seq<Spanned>)
    requires SpansAscend(spans)
    ensures var emitted := Emitted(RangedAll(text, spans));
            Decoded(Position(0, 0), Encoded(Position(0, 0), emitted)) == emitted
  {
    hide PositionAt, Before;
    var tokens := RangedAll(text, spans);
    forall i | 0 <= i < |tokens| ensures Before(tokens[i].start, tokens[i].end) {
      PositionsAtAscend(text, spans[i].start, spans[i].end);
    }
    forall i, j | 0 <= i < j < |tokens| ensures Before(tokens[i].end, tokens[j].start) {
      PositionsAtAscend(text, spans[i].end, spans[j].start);
    }
    TokensDecode(tokens);
  }
}
