/** Text as bytes, in UTF-8 (RFC 3629, section 3). */
module Utf8 {
  import opened Wrappers

  type Byte = b: int | 0 <= b < 256

  function CharBytes(c: char): (r: seq<Byte>)
    ensures 1 <= |r| <= 4
  {
    var v := c as int;
    if v < 0x80 then [v]
    else if v < 0x800 then [0xC0 + v / 0x40, 0x80 + v % 0x40]
    else if v < 0x1_0000 then [0xE0 + v / 0x1000, 0x80 + v / 0x40 % 0x40, 0x80 + v % 0x40]
    else [0xF0 + v / 0x4_0000, 0x80 + v / 0x1000 % 0x40, 0x80 + v / 0x40 % 0x40, 0x80 + v % 0x40]
  }

  function Bytes(s: string): seq<Byte> {
    if s == [] then [] else CharBytes(s[0]) + Bytes(s[1..])
  }

  /** A byte below 0x80 stands for itself and for nothing else. */
  lemma AsciiBytes(c: char, b: Byte)
    requires b < 0x80
    ensures b in CharBytes(c) <==> c as int == b
    ensures c as int == b ==> CharBytes(c) == [b]
  {
  }

  lemma {:induction false} AsciiInBytes(s: string, b: Byte)
    requires b < 0x80
    ensures b in Bytes(s) <==> b as char in s
  {
    if s != [] {
      AsciiBytes(s[0], b);
      AsciiInBytes(s[1..], b);
    }
  }

  lemma {:induction false} BytesConcat(a: string, b: string)
    ensures Bytes(a + b) == Bytes(a) + Bytes(b)
  {
    if a == [] {
      assert a + b == b;
    } else {
      assert (a + b)[1..] == a[1..] + b;
      BytesConcat(a[1..], b);
    }
  }

  /** ASCII text is its own code points. */
  lemma {:induction false} BytesOfAscii(s: string, bytes: seq<Byte>)
    requires |bytes| == |s| && forall i | 0 <= i < |s| :: s[i] as int == bytes[i] < 0x80
    ensures Bytes(s) == bytes
  {
    if s != [] {
      BytesOfAscii(s[1..], bytes[1..]);
      assert bytes == [bytes[0]] + bytes[1..];
    }
  }

  lemma SplitAtLength(p: seq<Byte>, x: seq<Byte>, q: seq<Byte>, y: seq<Byte>)
    requires |p| == |q| && p + x == q + y
    ensures p == q && x == y
  {
    assert p == (p + x)[..|p|] && q == (q + y)[..|q|];
    assert x == (p + x)[|p|..] && y == (q + y)[|q|..];
  }

  /** The scalar value that a character's bytes carry. */
  function Scalar(p: seq<Byte>): int {
    if |p| == 1 then p[0]
    else if |p| == 2 then (p[0] as int - 0xC0) * 0x40 + (p[1] as int - 0x80)
    else if |p| == 3 then ((p[0] as int - 0xE0) * 0x40 + (p[1] as int - 0x80)) * 0x40 + (p[2] as int - 0x80)
    else if |p| == 4 then
      (((p[0] as int - 0xF0) * 0x40 + (p[1] as int - 0x80)) * 0x40 + (p[2] as int - 0x80)) * 0x40 + (p[3] as int - 0x80)
    else -1
  }

  lemma Base64(v: nat)
    ensures v == v / 0x40 * 0x40 + v % 0x40
    ensures v / 0x40 == v / 0x1000 * 0x40 + v / 0x40 % 0x40
    ensures v / 0x1000 == v / 0x4_0000 * 0x40 + v / 0x1000 % 0x40
  {
    assert v / 0x1000 == v / 0x40 / 0x40 && v / 0x4_0000 == v / 0x1000 / 0x40;
  }

  lemma ScalarOfChar(c: char)
    ensures Scalar(CharBytes(c)) == c as int
  {
    Base64(c as int);
  }

  /** No character's bytes begin another's, so the first character of a text is decided by its bytes. */
  lemma CharDecided(c: char, d: char, x: seq<Byte>, y: seq<Byte>)
    requires CharBytes(c) + x == CharBytes(d) + y
    ensures c == d && x == y
  {
    var p, q := CharBytes(c), CharBytes(d);
    assert p[0] == (p + x)[0] == (q + y)[0] == q[0];
    SplitAtLength(p, x, q, y);
    ScalarOfChar(c);
    ScalarOfChar(d);
    assert c as int == d as int;
  }

  /** Different texts have different bytes. */
  lemma {:induction false} BytesAreInjective(s: string, t: string)
    requires Bytes(s) == Bytes(t)
    ensures s == t
  {
    if s != [] && t != [] {
      CharDecided(s[0], t[0], Bytes(s[1..]), Bytes(t[1..]));
      BytesAreInjective(s[1..], t[1..]);
      assert s == [s[0]] + s[1..] && t == [t[0]] + t[1..];
    }
  }

  // ----- decoding -----

  /** How many bytes the character has whose first byte this is. */
  function LeadLength(b: Byte): (n: nat)
    ensures 1 <= n <= 4
  {
    if b < 0xC0 then 1 else if b < 0xE0 then 2 else if b < 0xF0 then 3 else 4
  }

  predicate IsScalar(v: int) {
    0 <= v < 0xD800 || 0xE000 <= v < 0x11_0000
  }

  /** The character at the front, if these are the bytes of one. */
  function DecodeChar(bytes: seq<Byte>): (r: Option<char>)
    requires bytes != []
    ensures r.Some? ==> CharBytes(r.value) <= bytes
  {
    var n := LeadLength(bytes[0]);
    if |bytes| < n || !IsScalar(Scalar(bytes[..n])) then None
    else
      var c := Scalar(bytes[..n]) as char;
      if CharBytes(c) == bytes[..n] then Some(c) else None
  }

  function Decode(bytes: seq<Byte>): Option<string> {
    if bytes == [] then Some("")
    else
      var c := DecodeChar(bytes);
      if c.None? then None
      else
        var rest := Decode(bytes[|CharBytes(c.value)|..]);
        if rest.None? then None else Some([c.value] + rest.value)
  }

  lemma CharDecodes(c: char, rest: seq<Byte>)
    ensures DecodeChar(CharBytes(c) + rest) == Some(c)
  {
    ScalarOfChar(c);
    assert (CharBytes(c) + rest)[..|CharBytes(c)|] == CharBytes(c);
    assert LeadLength(CharBytes(c)[0]) == |CharBytes(c)|;
  }

  /** Decoding finds every text from its bytes. */
  lemma {:induction false} DecodeInverts(s: string)
    ensures Decode(Bytes(s)) == Some(s)
  {
    hide CharBytes, DecodeChar;
    if s != [] {
      CharDecodes(s[0], Bytes(s[1..]));
      DecodeInverts(s[1..]);
      assert Bytes(s)[|CharBytes(s[0])|..] == Bytes(s[1..]);
      assert s == [s[0]] + s[1..];
    }
  }

  /** What is decoded are the bytes of a text; everything else is refused. */
  lemma {:induction false} DecodedIsText(bytes: seq<Byte>)
    requires Decode(bytes).Some?
    ensures Bytes(Decode(bytes).value) == bytes
    decreases |bytes|
  {
    hide CharBytes, DecodeChar;
    if bytes != [] {
      var c := DecodeChar(bytes).value;
      var rest := bytes[|CharBytes(c)|..];
      DecodedIsText(rest);
      assert Decode(bytes).value == [c] + Decode(rest).value;
      assert ([c] + Decode(rest).value)[1..] == Decode(rest).value;
      assert bytes == CharBytes(c) + rest;
    }
  }

  function Ascii(bytes: seq<Byte>): (r: string)
    requires forall b | b in bytes :: b < 0x80
    ensures |r| == |bytes| && forall i | 0 <= i < |r| :: r[i] == bytes[i] as char
  {
    seq(|bytes|, i requires 0 <= i < |bytes| => assert bytes[i] in bytes; bytes[i] as char)
  }

  lemma AsciiDecodes(bytes: seq<Byte>)
    requires forall b | b in bytes :: b < 0x80
    ensures Bytes(Ascii(bytes)) == bytes && Decode(bytes) == Some(Ascii(bytes))
  {
    var s := Ascii(bytes);
    assert forall i | 0 <= i < |s| :: bytes[i] in bytes && s[i] as int == bytes[i];
    BytesOfAscii(s, bytes);
    DecodeInverts(s);
  }
}
