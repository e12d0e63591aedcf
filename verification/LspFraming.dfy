/** Messages on the wire: a header with the length of the body in bytes, an empty line, the body (LSP 3.17
    Base Protocol, section "Header Part"). Which bodies are JSON is a parameter. */
module LspFraming {
  import opened Unicode
  import opened Wrappers
  import opened Utf8
  import opened Decimal

  datatype ReadError = NotUtf8 | UnexpectedEof | InvalidLength | MissingLength | ShortBody | BadJson

  const CR: Byte := 13
  const LF: Byte := 10
  const SPACE: Byte := 32

  // ----- writing -----

  /** The bytes of `Content-Length:`. */
  const LENGTH_HEADER: seq<Byte> := [67, 111, 110, 116, 101, 110, 116, 45, 76, 101, 110, 103, 116, 104, 58]

  function Written(body: seq<Byte>): seq<Byte> {
    LENGTH_HEADER + [SPACE] + Digits(|body|) + [CR, LF, CR, LF] + body
  }

  function WrittenAll(bodies: seq<seq<Byte>>): seq<Byte> {
    if bodies == [] then [] else Written(bodies[0]) + WrittenAll(bodies[1..])
  }

  // ----- reading -----

  /** Length of the first line with its line feed, or of everything when there is none. */
  function LineLength(input: seq<Byte>): (n: nat)
    ensures n <= |input| && (input != [] ==> n > 0)
  {
    if input == [] then 0
    else if input[0] == LF then 1
    else 1 + LineLength(input[1..])
  }

  const LENGTH_NAME := "Content-Length:"

  function TrimEnd(line: string): string {
    if line != [] && line[|line| - 1] in ['\r', '\n'] then TrimEnd(line[..|line| - 1]) else line
  }

  /** `str::trim`. */
  function Trim(s: string): string {
    if s != [] && IsWhitespace(s[0]) then Trim(s[1..])
    else if s != [] && IsWhitespace(s[|s| - 1]) then Trim(s[..|s| - 1])
    else s
  }

  predicate HasPrefix(s: string, prefix: string) {
    |s| >= |prefix| && s[..|prefix|] == prefix
  }

  /** How the header part ends. */
  datatype Header =
    | CleanEnd
    | Failed(error: ReadError)
    | HeaderEnd(length: Option<nat>, rest: seq<Byte>)

  function ReadHeader(input: seq<Byte>, length: Option<nat>, sawHeader: bool): Header
    decreases |input|
  {
    if input == [] then (if sawHeader then Failed(UnexpectedEof) else CleanEnd)
    else
      var n := LineLength(input);
      var line := Decode(input[..n]);
      if line.None? then Failed(NotUtf8)
      else
        var trimmed := TrimEnd(line.value);
        if trimmed == [] then HeaderEnd(length, input[n..])
        else if HasPrefix(trimmed, LENGTH_NAME) then
          var value := ParseUsize(Bytes(Trim(trimmed[|LENGTH_NAME|..])));
          if value.None? then Failed(InvalidLength) else ReadHeader(input[n..], value, true)
        else ReadHeader(input[n..], length, true)
  }

  /** One message and what follows it; None at a clean end. */
  function ReadMessage(json: seq<Byte> -> bool, input: seq<Byte>): Result<Option<(seq<Byte>, seq<Byte>)>, ReadError> {
    var header := ReadHeader(input, None, false);
    match header
    case CleanEnd => Ok(None)
    case Failed(error) => Err(error)
    case HeaderEnd(length, rest) =>
      if length.None? then Err(MissingLength)
      else if |rest| < length.value then Err(ShortBody)
      else if !json(rest[..length.value]) then Err(BadJson)
      else Ok(Some((rest[..length.value], rest[length.value..])))
  }

  // ----- writing and reading back -----

  lemma {:induction false} LineEndsAtFeed(line: seq<Byte>, rest: seq<Byte>)
    requires LF !in line
    ensures LineLength(line + [LF] + rest) == |line| + 1
  {
    if line != [] {
      assert (line + [LF] + rest)[1..] == line[1..] + [LF] + rest;
      LineEndsAtFeed(line[1..], rest);
    }
  }

  lemma TrimmedLine(line: string)
    requires line != [] ==> line[|line| - 1] !in ['\r', '\n']
    ensures TrimEnd(line + "\r\n") == line
  {
    var s, t := line + "\r\n", line + "\r";
    assert s[..|s| - 1] == t && t[..|t| - 1] == line;
    assert TrimEnd(s) == TrimEnd(t);
    assert TrimEnd(t) == TrimEnd(line) == line;
  }

  lemma HeaderNameSpells()
    ensures LENGTH_HEADER == Bytes(LENGTH_NAME)
  {
    hide Bytes;
    BytesOfAscii(LENGTH_NAME, LENGTH_HEADER);
  }

  /** The header line without its end, as bytes and as text. */
  function LengthLine(n: nat): seq<Byte> {
    LENGTH_HEADER + [SPACE] + Digits(n)
  }

  function DigitText(n: nat): string {
    assert forall b | b in Digits(n) :: IsDigit(b);
    Ascii(Digits(n))
  }

  function LengthText(n: nat): string {
    LENGTH_NAME + " " + DigitText(n)
  }

  lemma LengthLineIs(n: nat)
    ensures Bytes(LengthText(n)) == LengthLine(n) && Bytes(DigitText(n)) == Digits(n)
  {
    hide Digits, Bytes;
    assert forall b | b in Digits(n) :: IsDigit(b);
    AsciiDecodes(Digits(n));
    HeaderNameSpells();
    BytesConcat(LENGTH_NAME, " ");
    BytesConcat(LENGTH_NAME + " ", DigitText(n));
    BytesOfAscii(" ", [SPACE]);
  }

  lemma DigitsInText(n: nat)
    ensures DigitText(n) != "" && forall c | c in DigitText(n) :: '0' <= c <= '9'
  {
    hide Digits;
    var d := Digits(n);
    assert forall i | 0 <= i < |d| :: d[i] in d && IsDigit(d[i]);
  }

  lemma TextIsHeader(n: nat)
    ensures var text := LengthText(n);
            && text != [] && text[|text| - 1] !in ['\r', '\n']
            && HasPrefix(text, LENGTH_NAME)
            && Trim(text[|LENGTH_NAME|..]) == DigitText(n)
  {
    hide DigitText;
    DigitsInText(n);
    var d := DigitText(n);
    assert d[0] in d && d[|d| - 1] in d;
    assert LengthText(n)[|LENGTH_NAME|..] == " " + d && (" " + d)[1..] == d;
    assert !IsWhitespace(d[0]) && !IsWhitespace(d[|d| - 1]);
  }

  lemma LengthLineRead(n: nat, after: seq<Byte>)
    requires n < 0x1_0000_0000_0000_0000
    ensures ReadHeader(LengthLine(n) + [CR, LF] + after, None, false) == ReadHeader(after, Some(n), true)
  {
    hide Digits, ParseUsize, Trim, TrimEnd, LengthLine, LengthText, DigitText, LineLength, Decode, Bytes, HasPrefix;
    LengthLineIs(n);
    TextIsHeader(n);
    PrintParse(n);
    NoFeedIn(n);
    FirstLine(LengthText(n), after);
    var input := LengthLine(n) + [CR, LF] + after;
    assert input[|LengthLine(n)| + 2..] == after;
  }

  lemma NoFeedIn(n: nat)
    ensures LF !in Bytes(LengthText(n))
  {
    hide DigitText, Bytes;
    DigitsInText(n);
    AsciiInBytes(LengthText(n), LF);
    assert '\n' !in LENGTH_NAME && '\n' !in DigitText(n);
  }

  /** A written message reads back, and reading stops right behind it. */
  lemma ReadsBack(json: seq<Byte> -> bool, body: seq<Byte>, rest: seq<Byte>)
    requires json(body) && |body| < 0x1_0000_0000_0000_0000
    ensures ReadMessage(json, Written(body) + rest) == Ok(Some((body, rest)))
  {
    var n := |body|;
    var after := [CR, LF] + (body + rest);
    assert Written(body) + rest == LengthLine(n) + [CR, LF] + after by {
      hide Digits;
    }
    hide Digits, Written, LengthLine, ReadHeader;
    LengthLineRead(n, after);
    SecondLine(body + rest, n);
    assert (body + rest)[..n] == body && (body + rest)[n..] == rest;
  }

  lemma FirstLine(text: string, after: seq<Byte>)
    requires LF !in Bytes(text) && (text != [] ==> text[|text| - 1] !in ['\r', '\n'])
    ensures var line := Bytes(text);
            var input := line + [CR, LF] + after;
            && LineLength(input) == |line| + 2
            && Decode(input[..|line| + 2]) == Some(text + "\r\n")
            && TrimEnd(text + "\r\n") == text
  {
    hide Bytes, Decode, TrimEnd, LineLength;
    var line := Bytes(text);
    var input := line + [CR, LF] + after;
    assert input == line + [CR] + [LF] + after;
    LineEndsAtFeed(line + [CR], after);
    TrimmedLine(text);
    assert input[..|line| + 2] == line + [CR, LF];
    BytesConcat(text, "\r\n");
    BytesOfAscii("\r\n", [CR, LF]);
    DecodeInverts(text + "\r\n");
  }

  lemma SecondLine(rest: seq<Byte>, n: nat)
    ensures ReadHeader([CR, LF] + rest, Some(n), true) == HeaderEnd(Some(n), rest)
  {
    hide LineLength, TrimEnd, HasPrefix, ParseUsize, Trim, Decode;
    assert Bytes("") == [];
    FirstLine("", rest);
    var input := [CR, LF] + rest;
    assert [] + [CR, LF] + rest == input && "" + "\r\n" == "\r\n";
    assert input[2..] == rest;
  }

  /** Everything until the clean end; None when some message cannot be read. */
  function ReadAll(json: seq<Byte> -> bool, input: seq<Byte>): Option<seq<seq<Byte>>>
    decreases |input|
  {
    var message := ReadMessage(json, input);
    if message.Err? then None
    else if message.value.None? then Some([])
    else
      var (body, rest) := message.value.value;
      if |rest| >= |input| then None
      else
        var more := ReadAll(json, rest);
        if more.None? then None else Some([body] + more.value)
  }

  lemma WrittenIsLonger(body: seq<Byte>)
    ensures |Written(body)| > |body|
  {
    hide Digits;
  }

  lemma NothingReads(json: seq<Byte> -> bool)
    ensures ReadAll(json, []) == Some([])
  {
  }

  lemma ReadOneMore(json: seq<Byte> -> bool, written: seq<Byte>, body: seq<Byte>, rest: seq<Byte>)
    requires |written| > 0 && ReadMessage(json, written + rest) == Ok(Some((body, rest)))
    ensures ReadAll(json, rest).Some? ==> ReadAll(json, written + rest) == Some([body] + ReadAll(json, rest).value)
  {
    hide ReadMessage;
  }

  /** Any list of messages reads back, in order, to the last byte, and then reports a clean end. */
  lemma {:induction false} MessagesReadBack(json: seq<Byte> -> bool, bodies: seq<seq<Byte>>)
    requires forall body | body in bodies :: json(body) && |body| < 0x1_0000_0000_0000_0000
    ensures ReadAll(json, WrittenAll(bodies)) == Some(bodies)
  {
    NothingReads(json);
    hide ReadMessage, Written, ReadAll;
    if bodies != [] {
      var body, rest := bodies[0], bodies[1..];
      MessagesReadBack(json, rest);
      ReadsBack(json, body, WrittenAll(rest));
      WrittenIsLonger(body);
      ReadOneMore(json, Written(body), body, WrittenAll(rest));
      assert bodies == [body] + rest;
    }
  }

  // ----- the stream -----

  class Stream {
    var input: seq<Byte>
    var output: seq<Byte>

    constructor (input: seq<Byte>)
      ensures this.input == input && this.output == []
    {
      this.input := input;
      this.output := [];
    }

    /** `read_line`: takes the bytes of a line, and fails when they are not UTF-8. */
    method ReadLine() returns (taken: nat, line: Option<string>)
      modifies this`input
      ensures taken == LineLength(old(input)) && input == old(input)[taken..]
      ensures line == Decode(old(input)[..taken])
    {
      var n := 0;
      assert input[0..] == input;
      while n < |input| && (n == 0 || input[n - 1] != LF)
        invariant n <= |input| && input == old(input)
        invariant LineLength(input) == if n > 0 && input[n - 1] == LF then n else n + LineLength(input[n..])
        invariant forall i | 0 <= i < n - 1 :: input[i] != LF
      {
        LineStep(input, n);
        n := n + 1;
      }
      assert n == |input| ==> input[n..] == [];
      assert LineLength(input) == n;
      taken, line := n, Decode(input[..n]);
      input := input[n..];
    }

    method ReadHeaderLines() returns (header: Header)
      modifies this`input
      ensures header == ReadHeader(old(input), None, false)
      ensures header.CleanEnd? ==> input == []
      ensures header.HeaderEnd? ==> input == header.rest
    {
      hide ParseUsize, Trim, TrimEnd, LineLength, Decode, Bytes;
      var length: Option<nat> := None;
      var sawHeader := false;
      while true
        invariant ReadHeader(input, length, sawHeader) == ReadHeader(old(input), None, false)
        decreases |input|
      {
        var taken, line := ReadLine();
        if taken == 0 {
          return if sawHeader then Failed(UnexpectedEof) else CleanEnd;
        }
        if line.None? { return Failed(NotUtf8); }
        var trimmed := TrimEnd(line.value);
        if trimmed == [] { return HeaderEnd(length, input); }
        sawHeader := true;
        if HasPrefix(trimmed, LENGTH_NAME) {
          length := ParseUsize(Bytes(Trim(trimmed[|LENGTH_NAME|..])));
          if length.None? { return Failed(InvalidLength); }
        }
      }
    }

    /** The body of the next message; what was read is gone from the input. */
    method Read(json: seq<Byte> -> bool) returns (r: Result<Option<seq<Byte>>, ReadError>)
      modifies this`input
      ensures var message := ReadMessage(json, old(input));
              && r.Err? == message.Err?
              && (r.Err? ==> r.error == message.error)
              && (r.Ok? ==> r.value.Some? == message.value.Some?)
              && (r.Ok? && r.value.None? ==> input == [])
              && (r.Ok? && r.value.Some? ==> (r.value.value, input) == message.value.value)
    {
      hide ReadHeader;
      var header := ReadHeaderLines();
      match header {
        case CleanEnd =>
          return Ok(None);
        case Failed(error) =>
          return Err(error);
        case HeaderEnd(length, _) =>
          if length.None? { return Err(MissingLength); }
          if |input| < length.value { return Err(ShortBody); }
          var body := input[..length.value];
          input := input[length.value..];
          if !json(body) { return Err(BadJson); }
          r := Ok(Some(body));
      }
    }

    method Write(body: seq<Byte>)
      modifies this`output
      ensures output == old(output) + Written(body)
    {
      hide Digits;
      output := output + (LENGTH_HEADER + [SPACE] + Digits(|body|) + [CR, LF, CR, LF]);
      output := output + body;
    }
  }

  lemma LineStep(input: seq<Byte>, n: nat)
    requires n < |input|
    ensures LineLength(input[n..]) == if input[n] == LF then 1 else 1 + LineLength(input[n + 1..])
  {
    assert input[n..][1..] == input[n + 1..];
  }
}
