/** The line rule of LSP 3.17 (section "Text Documents"): lines end at `\n`, `\r\n` and `\r`, and a character
    past the end of a line means its end. Against it, what the two conversions do, which know `\n` only. */
module LspLineRule {
  import opened Wrappers
  import opened LspTokens
  import opened LspPositions

  predicate IsEnd(c: char) {
    c == '\n' || c == '\r'
  }

  /** How many characters the end of a line, or any other character, takes. */
  function StepLength(s: string): (n: nat)
    requires s != []
    ensures 1 <= n <= |s|
  {
    if |s| > 1 && s[0] == '\r' && s[1] == '\n' then 2 else 1
  }

  function LspLineStart(text: string, line: nat): (r: Option<nat>)
    ensures r.Some? ==> r.value <= |text|
    decreases |text|
  {
    if line == 0 then Some(0)
    else if text == [] then None
    else
      var n := StepLength(text);
      var rest := LspLineStart(text[n..], if IsEnd(text[0]) then line - 1 else line);
      if rest.Some? then Some(n + rest.value) else None
  }

  function LspWalk(rest: string, character: int): (k: nat)
    ensures k <= |rest|
  {
    if character <= 0 || rest == [] || IsEnd(rest[0]) then 0
    else 1 + LspWalk(rest[1..], character - Units(rest[0]))
  }

  function LspBoundaryAt(text: string, position: Position): (r: Option<nat>)
    ensures r.Some? ==> r.value <= |text|
  {
    var start := LspLineStart(text, position.line);
    if start.None? then None else Some(start.value + LspWalk(text[start.value..], position.character))
  }

  // ----- without carriage returns both rules are one -----

  lemma {:induction false} SameLineStart(text: string, line: nat)
    requires '\r' !in text
    ensures LspLineStart(text, line) == LineStart(text, line)
  {
    if line > 0 && text != [] {
      assert text[0] in text;
      SameLineStart(text[1..], if text[0] == '\n' then line - 1 else line);
    }
  }

  lemma {:induction false} SameWalk(rest: string, character: int)
    requires '\r' !in rest
    ensures LspWalk(rest, character) == Walk(rest, character)
  {
    if rest != [] {
      assert rest[0] in rest;
      SameWalk(rest[1..], character - Units(rest[0]));
    }
  }

  lemma SameBoundary(text: string, p: Position)
    requires '\r' !in text
    ensures BoundaryAt(text, p) == LspBoundaryAt(text, p)
  {
    SameLineStart(text, p.line);
    var start := LineStart(text, p.line);
    if start.Some? {
      assert forall c | c in text[start.value..] :: c in text;
      SameWalk(text[start.value..], p.character);
    }
  }

  // ----- line by line -----

  /** No `\r` but right before a `\n`. */
  predicate CrlfOnly(text: string) {
    forall i | 0 <= i < |text| :: text[i] == '\r' ==> i + 1 < |text| && text[i + 1] == '\n'
  }

  lemma StepOver(head: string, rest: string)
    requires CrlfOnly(head) && head != []
    ensures var n := StepLength(head);
            StepLength(head + rest) == n && (head + rest)[n..] == head[n..] + rest
    ensures (head + rest)[0] == head[0]
  {
    assert (head + rest)[0] == head[0];
    if |head| > 1 { assert (head + rest)[1] == head[1]; }
  }

  lemma StepLeaves(head: string)
    requires CrlfOnly(head) && head != [] && head[|head| - 1] == '\n'
    ensures var n := StepLength(head);
            CrlfOnly(head[n..]) && (head[n..] == [] || head[n..][|head[n..]| - 1] == '\n')
  {
    var n := StepLength(head);
    assert forall i | 0 <= i < |head| - n :: head[n..][i] == head[i + n];
  }

  lemma StepCounts(head: string)
    requires CrlfOnly(head) && head != []
    ensures Newlines(head) == Newlines(head[StepLength(head)..]) + if IsEnd(head[0]) then 1 else 0
  {
    if head[0] == '\r' {
      assert StepLength(head) == 2 && head[1..][0] == '\n' && head[1..][1..] == head[2..];
    }
  }

  lemma {:induction false} LspLineStartAfter(head: string, rest: string)
    requires CrlfOnly(head) && (head == [] || head[|head| - 1] == '\n')
    ensures LspLineStart(head + rest, Newlines(head)) == Some(|head|)
    decreases |head|
  {
    if head != [] {
      var n := StepLength(head);
      StepOver(head, rest);
      StepLeaves(head);
      StepCounts(head);
      hide StepLength, CrlfOnly, Newlines;
      LspLineStartAfter(head[n..], rest);
    }
  }

  predicate OneLine(line: string) {
    forall i | 0 <= i < |line| :: !IsEnd(line[i])
  }

  lemma {:induction false} LspWalkOver(line: string, rest: string, more: nat)
    requires OneLine(line)
    ensures LspWalk(line + rest, Utf16Length(line) + more) == |line| + LspWalk(rest, more)
  {
    if line == [] {
      assert line + rest == rest;
    } else {
      assert (line + rest)[0] == line[0] && (line + rest)[1..] == line[1..] + rest;
      LspWalkOver(line[1..], rest, more);
    }
  }

  /** The lines before k end like lines of the code, and the last of them holds no `\r`. */
  predicate CleanBefore(text: string, k: nat)
    requires k <= |text|
  {
    var start := LastLine(text[..k]);
    CrlfOnly(text[..start]) && '\r' !in text[start..k]
  }

  lemma {:induction false} LspBoundaryOver(head: string, line: string, after: string, more: nat)
    requires CrlfOnly(head) && (head == [] || head[|head| - 1] == '\n')
    requires OneLine(line)
    ensures LspBoundaryAt(head + (line + after), Position(Newlines(head), Utf16Length(line) + more))
         == Some(|head| + (|line| + LspWalk(after, more)))
  {
    hide *;
    LspLineStartAfter(head, line + after);
    LspWalkOver(line, after, more);
    LspBoundaryIs(head, line + after, Position(Newlines(head), Utf16Length(line) + more));
  }

  lemma LspBoundaryIs(head: string, rest: string, p: Position)
    requires LspLineStart(head + rest, p.line) == Some(|head|)
    ensures LspBoundaryAt(head + rest, p) == Some(|head| + LspWalk(rest, p.character))
  {
    hide LspLineStart, LspWalk;
    DropHead(head, rest);
  }

  lemma CutAt(text: string, k: nat)
    requires k <= |text| && CleanBefore(text, k)
    ensures var start := LastLine(text[..k]);
            var head, line := text[..start], text[start..k];
            && text == head + (line + text[k..]) && |head| == start && |line| == k - start
            && (head == [] || head[|head| - 1] == '\n') && CrlfOnly(head)
            && '\n' !in line && OneLine(line)
  {
    hide LastLine, CrlfOnly;
    CutLine(text, k);
  }

  /** Both rules, at the position of a boundary and so many code units further. */
  lemma BothFrom(text: string, k: nat, more: nat)
    requires k <= |text| && CleanBefore(text, k)
    ensures var p := PositionOf(text, k);
            var q := Position(p.line, p.character + more);
            && BoundaryAt(text, q) == Some(k + Walk(text[k..], more))
            && LspBoundaryAt(text, q) == Some(k + LspWalk(text[k..], more))
  {
    hide *;
    CutAt(text, k);
    BoundaryFrom(text, k, more);
    var start := LastLine(text[..k]);
    var head, line, after := text[..start], text[start..k], text[k..];
    assert PositionOf(text, k) == Position(Newlines(head), Utf16Length(line)) by { PositionOver(head, line, after); }
    var q := Position(Newlines(head), Utf16Length(line) + more);
    assert LspBoundaryAt(text, q) == Some(|head| + (|line| + LspWalk(after, more))) by {
      LspBoundaryOver(head, line, after, more);
    }
  }

  lemma WalksFromEnd(rest: string)
    requires rest != [] && rest[0] == '\r'
    ensures Walk(rest, 1) == 1 && LspWalk(rest, 1) == 0
  {
  }

  lemma {:induction false} FirstReturn(text: string) returns (k: nat)
    requires '\r' in text
    ensures k < |text| && text[k] == '\r' && '\r' !in text[..k]
  {
    if text[0] == '\r' {
      k := 0;
    } else {
      k := FirstReturn(text[1..]);
      assert text[..k + 1] == [text[0]] + text[1..][..k];
      k := k + 1;
    }
  }

  lemma CleanWithout(text: string, k: nat)
    requires k <= |text| && '\r' !in text[..k]
    ensures CleanBefore(text, k)
  {
    var before := text[..k];
    var start := LastLine(before);
    assert text[..start] == before[..start] && text[start..k] == before[start..];
    assert forall c | c in before[..start] || c in before[start..] :: c in before;
  }

  /** The code finds the boundary LSP means, at every position, if and only if the text holds no `\r`. */
  lemma FollowsLspIff(text: string)
    ensures (forall p :: BoundaryAt(text, p) == LspBoundaryAt(text, p)) <==> '\r' !in text
  {
    if '\r' in text {
      var k := FirstReturn(text);
      CleanWithout(text, k);
      BothFrom(text, k, 1);
      WalksFromEnd(text[k..]);
      hide BoundaryAt, LspBoundaryAt, PositionOf;
      var p := PositionOf(text, k);
      var q := Position(p.line, p.character + 1);
      assert BoundaryAt(text, q) != LspBoundaryAt(text, q);
    } else {
      forall p ensures BoundaryAt(text, p) == LspBoundaryAt(text, p) {
        SameBoundary(text, p);
      }
    }
  }

  // ----- the positions the code reports -----

  /** Between the two characters of one line end. */
  predicate InsideEnd(text: string, k: nat)
    requires k <= |text|
  {
    0 < k < |text| && text[k - 1] == '\r' && text[k] == '\n'
  }

  /** What the code reports as the position of a boundary means that boundary to a client. */
  ghost predicate Reported(text: string, k: nat)
    requires k <= |text|
  {
    LspBoundaryAt(text, PositionOf(text, k)) == Some(k)
  }

  lemma CleanInCrlf(text: string, k: nat)
    requires k <= |text| && !InsideEnd(text, k)
    requires forall i | 0 <= i < k :: text[i] == '\r' ==> i + 1 < |text| && text[i + 1] == '\n'
    ensures CleanBefore(text, k)
  {
    var before := text[..k];
    var start := LastLine(before);
    var head, line := text[..start], text[start..k];
    assert head == before[..start] && line == before[start..];
    forall i | 0 <= i < |head| ensures head[i] == '\r' ==> i + 1 < |head| && head[i + 1] == '\n' {
      if head[i] == '\r' { assert text[i + 1] == '\n' && before[start - 1] == '\n'; }
    }
    forall i | 0 <= i < |line| ensures line[i] != '\r' {
      assert start + i + 1 < k ==> before[start + i + 1] != '\n';
    }
  }

  lemma LoneReturn(text: string) returns (k: nat)
    requires !CrlfOnly(text)
    ensures k < |text| && text[k] == '\r' && !InsideEnd(text, k + 1)
    ensures forall i | 0 <= i < k :: text[i] == '\r' ==> text[i + 1] == '\n'
  {
    k := 0;
    while text[k] != '\r' || (k + 1 < |text| && text[k + 1] == '\n')
      invariant k < |text|
      invariant forall i | 0 <= i < k :: text[i] == '\r' ==> text[i + 1] == '\n'
      decreases |text| - k
    {
      assert k + 1 == |text| ==> CrlfOnly(text);
      k := k + 1;
    }
  }

  /** Every boundary outside line ends is reported so that a client finds it, if and only if each `\r`
      of the text stands before a `\n`. */
  lemma ReportsIff(text: string)
    ensures (forall k | 0 <= k <= |text| && !InsideEnd(text, k) :: Reported(text, k)) <==> CrlfOnly(text)
  {
    if CrlfOnly(text) {
      forall k | 0 <= k <= |text| && !InsideEnd(text, k) ensures Reported(text, k) {
        CleanInCrlf(text, k);
        BothFrom(text, k, 0);
      }
    } else {
      var k := LoneReturn(text);
      CleanInCrlf(text, k);
      BothFrom(text, k, 1);
      WalksFromEnd(text[k..]);
      NextPosition(text, k);
      assert !Reported(text, k + 1);
    }
  }

  lemma NextPosition(text: string, k: nat)
    requires k < |text| && text[k] == '\r' && CleanBefore(text, k)
    ensures var p := PositionOf(text, k);
            PositionOf(text, k + 1) == Position(p.line, p.character + 1)
  {
    hide *;
    CutAt(text, k);
    var start := LastLine(text[..k]);
    var head, line, after := text[..start], text[start..k], text[k + 1..];
    CutBehind(text, start, k);
    PositionOver(head, line, text[k..]);
    PositionOver(head, line + ['\r'], after);
    OneUnit(line);
  }

  lemma CutBehind(text: string, start: nat, k: nat)
    requires start <= k < |text|
    ensures text == text[..start] + ((text[start..k] + [text[k]]) + text[k + 1..])
  {
  }

  lemma OneUnit(line: string)
    ensures Utf16Length(line + ['\r']) == Utf16Length(line) + 1
  {
    Utf16Concat(line, ['\r']);
    assert ['\r'][1..] == "";
  }

  /** Behind a `\r\n` the code goes one too far, and it does not see the line behind a lone `\r`. */
  lemma ReturnsAreMisread()
    ensures BoundaryAt("a\r\nb", Position(0, 9)) == Some(2) && LspBoundaryAt("a\r\nb", Position(0, 9)) == Some(1)
    ensures BoundaryAt("a\rb", Position(1, 0)) == None && LspBoundaryAt("a\rb", Position(1, 0)) == Some(2)
  {
    var crlf, lone := "a\r\nb", "a\rb";
    assert crlf[1..] == "\r\nb" && crlf[1..][1..] == "\nb";
    assert Walk(crlf[1..], 8) == 1 && Walk(crlf, 9) == 2;
    assert crlf[0..] == crlf;
    assert lone[1..] == "\rb" && lone[1..][1..] == "b" && "b"[1..] == "";
    assert LineStart("b", 1) == None && LineStart("\rb", 1) == None;
    assert LspLineStart("b", 0) == Some(0) && LspLineStart("\rb", 1) == Some(1);
  }
}
