/** Positions as line and UTF-16 character against byte offsets into UTF-8 text (LSP 3.17, section
    "Position"). Lines end at line feeds only. Characters of the text are counted by k, bytes by Offset. */
module LspPositions {
  import opened Wrappers
  import opened Utf8
  import opened LspTokens

  const LF: Byte := 10

  /** Code units of a character in UTF-16. */
  function Units(c: char): (r: nat)
    ensures 1 <= r <= 2
  {
    if c as int < 0x1_0000 then 1 else 2
  }

  function Utf16Length(s: string): nat {
    if s == [] then 0 else Units(s[0]) + Utf16Length(s[1..])
  }

  /** Byte offset of the boundary before character k. */
  function Offset(text: string, k: nat): nat
    requires k <= |text|
  {
    |Bytes(text[..k])|
  }

  // ----- the position of a boundary -----

  function Newlines(s: string): nat {
    if s == [] then 0 else (if s[0] == '\n' then 1 else 0) + Newlines(s[1..])
  }

  /** Where the last line of a text starts. */
  function LastLine(s: string): (k: nat)
    ensures k <= |s| && forall i | k <= i < |s| :: s[i] != '\n'
    ensures k > 0 ==> s[k - 1] == '\n'
  {
    if s == [] then 0
    else if s[|s| - 1] == '\n' then |s|
    else LastLine(s[..|s| - 1])
  }

  /** Lines before the boundary, and the code units between it and the start of its line. */
  function PositionOf(text: string, k: nat): Position
    requires k <= |text|
  {
    var before := text[..k];
    Position(Newlines(before), Utf16Length(before[LastLine(before)..]))
  }

  // ----- the boundary at a position -----

  /** The start of a line by number. */
  function LineStart(text: string, line: nat): (r: Option<nat>)
    ensures r.Some? ==> r.value <= |text|
  {
    if line == 0 then Some(0)
    else if text == [] then None
    else
      var rest := LineStart(text[1..], if text[0] == '\n' then line - 1 else line);
      if rest.Some? then Some(1 + rest.value) else None
  }

  /** The first boundary of the line at or after so many code units, or else the end of the line. */
  function Walk(rest: string, character: int): (k: nat)
    ensures k <= |rest|
  {
    if character <= 0 || rest == [] || rest[0] == '\n' then 0
    else 1 + Walk(rest[1..], character - Units(rest[0]))
  }

  function BoundaryAt(text: string, position: Position): (r: Option<nat>)
    ensures r.Some? ==> r.value <= |text|
  {
    var start := LineStart(text, position.line);
    if start.None? then None else Some(start.value + Walk(text[start.value..], position.character))
  }

  // ----- the two are inverse -----

  lemma {:induction false} NewlinesConcat(a: string, b: string)
    ensures Newlines(a + b) == Newlines(a) + Newlines(b)
  {
    if a == [] {
      assert a + b == b;
    } else {
      assert (a + b)[1..] == a[1..] + b;
      NewlinesConcat(a[1..], b);
    }
  }

  lemma {:induction false} NoNewlines(s: string)
    requires '\n' !in s
    ensures Newlines(s) == 0
  {
    if s != [] { NoNewlines(s[1..]); }
  }

  lemma {:induction false} NewlineIn(s: string, i: nat)
    requires i < |s| && s[i] == '\n'
    ensures Newlines(s) > 0
  {
    if i > 0 { NewlineIn(s[1..], i - 1); }
  }

  /** After a text that is empty or ends a line, the line with its number starts. */
  lemma {:induction false} LineStartAfter(head: string, rest: string)
    requires head == [] || head[|head| - 1] == '\n'
    ensures LineStart(head + rest, Newlines(head)) == Some(|head|)
  {
    if head != [] {
      assert (head + rest)[1..] == head[1..] + rest;
      NewlineIn(head, |head| - 1);
      LineStartAfter(head[1..], rest);
    }
  }

  lemma {:induction false} WalkOver(line: string, rest: string, more: nat)
    requires '\n' !in line
    ensures Walk(line + rest, Utf16Length(line) + more) == |line| + Walk(rest, more)
  {
    if line == [] {
      assert line + rest == rest;
    } else {
      assert (line + rest)[0] == line[0] && (line + rest)[1..] == line[1..] + rest;
      WalkOver(line[1..], rest, more);
    }
  }

  lemma DropHead(a: string, b: string)
    ensures (a + b)[|a|..] == b
  {
  }

  lemma BoundaryIs(head: string, rest: string, p: Position)
    requires LineStart(head + rest, p.line) == Some(|head|)
    ensures BoundaryAt(head + rest, p) == Some(|head| + Walk(rest, p.character))
  {
    hide LineStart, Walk;
    DropHead(head, rest);
  }

  lemma {:induction false} BoundaryOver(head: string, line: string, after: string, more: nat)
    requires (head == [] || head[|head| - 1] == '\n') && '\n' !in line
    ensures BoundaryAt(head + (line + after), Position(Newlines(head), Utf16Length(line) + more))
         == Some(|head| + (|line| + Walk(after, more)))
  {
    hide *;
    LineStartAfter(head, line + after);
    WalkOver(line, after, more);
    BoundaryIs(head, line + after, Position(Newlines(head), Utf16Length(line) + more));
  }

  lemma {:induction false} LastLineIs(head: string, line: string)
    requires head == [] || head[|head| - 1] == '\n'
    requires '\n' !in line
    ensures LastLine(head + line) == |head|
  {
    var whole := head + line;
    if line == [] {
      assert whole == head;
    } else {
      var n := |line| - 1;
      assert whole[|whole| - 1] == line[n] && line[n] in line;
      assert whole[..|whole| - 1] == head + line[..n];
      LastLineIs(head, line[..n]);
    }
  }

  lemma PositionOver(head: string, line: string, after: string)
    requires head == [] || head[|head| - 1] == '\n'
    requires '\n' !in line
    ensures PositionOf(head + (line + after), |head| + |line|) == Position(Newlines(head), Utf16Length(line))
  {
    var whole := head + line;
    assert (head + (line + after))[..|head| + |line|] == whole;
    LastLineIs(head, line);
    NewlinesConcat(head, line);
    NoNewlines(line);
    assert whole[|head|..] == line;
  }

  lemma CutLine(text: string, k: nat)
    requires k <= |text|
    ensures var start := LastLine(text[..k]);
            var head, line := text[..start], text[start..k];
            && text == head + (line + text[k..]) && |head| == start && |line| == k - start
            && (head == [] || head[|head| - 1] == '\n') && '\n' !in line
  {
    hide LastLine;
    var start := LastLine(text[..k]);
    assert text[start..k] == text[..k][start..];
  }

  /** What is found at the position of a boundary and so many code units further. */
  lemma BoundaryFrom(text: string, k: nat, more: nat)
    requires k <= |text|
    ensures var p := PositionOf(text, k);
            BoundaryAt(text, Position(p.line, p.character + more)) == Some(k + Walk(text[k..], more))
  {
    hide *;
    CutLine(text, k);
    var start := LastLine(text[..k]);
    var head, line, after := text[..start], text[start..k], text[k..];
    assert PositionOf(text, k) == Position(Newlines(head), Utf16Length(line)) by { PositionOver(head, line, after); }
    var q := Position(Newlines(head), Utf16Length(line) + more);
    assert BoundaryAt(text, q) == Some(|head| + (|line| + Walk(after, more))) by {
      BoundaryOver(head, line, after, more);
    }
  }

  lemma NoWalk(rest: string)
    ensures Walk(rest, 0) == 0
  {
  }

  /** Every boundary of every text is found again at its position. */
  lemma PositionInverts(text: string, k: nat)
    requires k <= |text|
    ensures BoundaryAt(text, PositionOf(text, k)) == Some(k)
  {
    hide *;
    BoundaryFrom(text, k, 0);
    NoWalk(text[k..]);
  }

  // ----- where a position lands -----

  lemma {:induction false} LineStartIs(text: string, line: nat)
    requires LineStart(text, line).Some?
    ensures var start := LineStart(text, line).value;
            Newlines(text[..start]) == line && (start > 0 ==> text[start - 1] == '\n')
  {
    if line > 0 {
      var next := if text[0] == '\n' then line - 1 else line;
      LineStartIs(text[1..], next);
      var start := LineStart(text[1..], next).value;
      assert text[..1 + start] == [text[0]] + text[1..][..start];
      assert ([text[0]] + text[1..][..start])[1..] == text[1..][..start];
    }
  }

  lemma {:induction false} LineMissing(text: string, line: nat)
    ensures LineStart(text, line).Some? <==> line <= Newlines(text)
  {
    if line > 0 && text != [] {
      LineMissing(text[1..], if text[0] == '\n' then line - 1 else line);
    }
  }

  /** The walk stays in its line, and stops at the first boundary that is far enough, or at the line's end. */
  lemma {:induction false} WalkStops(rest: string, character: int)
    ensures var k := Walk(rest, character);
            && '\n' !in rest[..k]
            && (Utf16Length(rest[..k]) >= character || k == |rest| || rest[k] == '\n')
            && (k > 0 ==> Utf16Length(rest[..k - 1]) < character)
  {
    var k := Walk(rest, character);
    if k > 0 {
      var c := Units(rest[0]);
      WalkStops(rest[1..], character - c);
      assert rest[..k] == [rest[0]] + rest[1..][..k - 1];
      assert ([rest[0]] + rest[1..][..k - 1])[1..] == rest[1..][..k - 1];
      if k > 1 {
        assert rest[..k - 1] == [rest[0]] + rest[1..][..k - 2];
        assert ([rest[0]] + rest[1..][..k - 2])[1..] == rest[1..][..k - 2];
      }
    }
  }

  /** A position is found exactly when its line exists. It lands in that line, on the first boundary with at
      least the requested character, or else on the line's end. */
  lemma PositionLands(text: string, position: Position)
    ensures BoundaryAt(text, position).Some? <==> position.line <= Newlines(text)
    ensures BoundaryAt(text, position).Some? ==>
              var k := BoundaryAt(text, position).value;
              && PositionOf(text, k).line == position.line
              && (PositionOf(text, k).character >= position.character || k == |text| || text[k] == '\n')
              && (forall j | 0 <= j < k && PositionOf(text, j).line == position.line ::
                    PositionOf(text, j).character < position.character)
  {
    LineMissing(text, position.line);
    if BoundaryAt(text, position).Some? {
      LandsInLine(text, position);
      var k := BoundaryAt(text, position).value;
      forall j | 0 <= j < k && PositionOf(text, j).line == position.line
        ensures PositionOf(text, j).character < position.character
      {
        NothingEarlier(text, position, j);
      }
    }
  }

  lemma LandsInLine(text: string, position: Position)
    requires BoundaryAt(text, position).Some?
    ensures var k := BoundaryAt(text, position).value;
            && PositionOf(text, k).line == position.line
            && (PositionOf(text, k).character >= position.character || k == |text| || text[k] == '\n')
  {
    var start, k := LineStart(text, position.line).value, BoundaryAt(text, position).value;
    LineStartIs(text, position.line);
    WalkStops(text[start..], position.character);
    Sliced(text, start, k);
    hide LineStart, Walk, BoundaryAt, Newlines, Utf16Length, LastLine;
    InLine(text, start, k);
  }

  lemma NothingEarlier(text: string, position: Position, j: nat)
    requires BoundaryAt(text, position).Some? && j < BoundaryAt(text, position).value
    requires PositionOf(text, j).line == position.line
    ensures PositionOf(text, j).character < position.character
  {
    hide LineStart, Walk, Newlines, Utf16Length, LastLine, PositionOf;
    var start, k := LineStart(text, position.line).value, BoundaryAt(text, position).value;
    LineStartIs(text, position.line);
    WalkStops(text[start..], position.character);
    PositionLine(text, j);
    LineAgain(text, start, j, k);
    hide BoundaryAt;
    InLine(text, start, j);
    Sliced(text, start, k - 1);
    PrefixIsShorter(text[start..j], text[start..k - 1]);
  }

  lemma PositionLine(text: string, k: nat)
    requires k <= |text|
    ensures PositionOf(text, k).line == Newlines(text[..k])
  {
  }

  lemma Sliced(text: string, start: nat, k: nat)
    requires start <= k <= |text|
    ensures text[start..][..k - start] == text[start..k]
    ensures k < |text| ==> text[start..][k - start] == text[k]
  {
  }

  /** The position of a boundary between a line's start and its end. */
  lemma InLine(text: string, start: nat, k: nat)
    requires start <= k <= |text| && (start > 0 ==> text[start - 1] == '\n')
    requires '\n' !in text[start..][..k - start]
    ensures PositionOf(text, k) == Position(Newlines(text[..start]), Utf16Length(text[start..k]))
  {
    var head, line := text[..start], text[start..k];
    assert text[start..][..k - start] == line && text[..k] == head + line;
    LastLineIs(head, line);
    NewlinesConcat(head, line);
    NoNewlines(line);
    assert text[..k][start..] == line;
  }

  /** A boundary with the same line number lies in the same line. */
  lemma {:induction false} LineAgain(text: string, start: nat, j: nat, k: nat)
    requires start <= k <= |text| && j < k && (start > 0 ==> text[start - 1] == '\n')
    requires '\n' !in text[start..][..k - start]
    requires PositionOf(text, j).line == Newlines(text[..start])
    ensures start <= j && '\n' !in text[start..][..j - start]
  {
    hide PositionOf;
    if j < start {
      PositionLine(text, j);
      EarlierLine(text, j, start);
    } else {
      hide *;
      assert text[start..][..j - start] == text[start..][..k - start][..j - start];
    }
  }

  /** Before the start of a line the line number is smaller. */
  lemma EarlierLine(text: string, j: nat, start: nat)
    requires j < start <= |text| && text[start - 1] == '\n'
    ensures Newlines(text[..j]) < Newlines(text[..start])
  {
    hide Newlines;
    assert text[..start] == text[..j] + text[j..start];
    assert text[j..start][start - 1 - j] == '\n';
    NewlinesConcat(text[..j], text[j..start]);
    NewlineIn(text[j..start], start - 1 - j);
  }

  lemma {:induction false} Utf16Concat(a: string, b: string)
    ensures Utf16Length(a + b) == Utf16Length(a) + Utf16Length(b)
  {
    if a == [] {
      assert a + b == b;
    } else {
      assert (a + b)[1..] == a[1..] + b;
      Utf16Concat(a[1..], b);
    }
  }

  lemma PrefixIsShorter(a: string, b: string)
    requires a <= b
    ensures Utf16Length(a) <= Utf16Length(b)
  {
    assert b == a + b[|a|..];
    Utf16Concat(a, b[|a|..]);
  }

  // ----- order -----

  lemma NewlineBetween(text: string, j: nat, k: nat)
    requires j <= k <= |text|
    ensures Newlines(text[..k]) == Newlines(text[..j]) + Newlines(text[j..k])
    ensures j < k && text[j] == '\n' ==> Newlines(text[j..k]) > 0
  {
    assert text[..k] == text[..j] + text[j..k];
    NewlinesConcat(text[..j], text[j..k]);
    if j < k && text[j] == '\n' { NewlineIn(text[j..k], 0); }
  }

  lemma {:induction false} NoNewlineIn(s: string)
    requires Newlines(s) == 0
    ensures '\n' !in s
  {
    if s != [] { NoNewlineIn(s[1..]); }
  }

  /** Positions ascend with the boundaries. */
  lemma PositionsAscend(text: string, j: nat, k: nat)
    requires j <= k <= |text|
    ensures Before(PositionOf(text, j), PositionOf(text, k))
  {
    hide Newlines, Utf16Length;
    NewlineBetween(text, j, k);
    var before, line := text[..j], text[j..k];
    if Newlines(line) == 0 {
      NoNewlineIn(line);
      var start := LastLine(before);
      var head, tail := before[..start], before[start..];
      assert text[..k] == head + (tail + line);
      LastLineIs(head, tail + line);
      assert text[..k][start..] == tail + line;
      PrefixIsShorter(tail, tail + line);
    }
  }

  /** A later position never lands earlier. */
  lemma LandingIsMonotone(text: string, p: Position, q: Position)
    requires Before(p, q) && BoundaryAt(text, p).Some? && BoundaryAt(text, q).Some?
    ensures BoundaryAt(text, p).value <= BoundaryAt(text, q).value
  {
    PositionLands(text, p);
    PositionLands(text, q);
    var j, k := BoundaryAt(text, p).value, BoundaryAt(text, q).value;
    hide BoundaryAt, LastLine, Utf16Length;
    if k < j {
      PositionsAscend(text, k, j);
      NewlineBetween(text, k, j);
      assert false;
    }
  }
}
