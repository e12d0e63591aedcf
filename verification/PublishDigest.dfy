/** The bytes that are digested to recognise a repeated publish: each part of the body with its label and
    its length in eight bytes, the optional parts only when present. */
module PublishDigest {
  import opened Wrappers
  import opened Utf8

  datatype Body = Body(
    metadata: seq<Byte>, archive: seq<Byte>, provenance: Option<seq<Byte>>, signature: Option<seq<Byte>>)

  const LIMIT: nat := 0x1_0000_0000_0000_0000

  // ----- lengths -----

  function Power256(k: nat): (r: nat)
    ensures r > 0
  {
    if k == 0 then 1 else 256 * Power256(k - 1)
  }

  /** The k lowest bytes of a number, lowest first. */
  function LittleEndian(n: nat, k: nat): (r: seq<Byte>)
    ensures |r| == k
  {
    if k == 0 then [] else [n % 256] + LittleEndian(n / 256, k - 1)
  }

  lemma {:induction false} LittleEndianIsInjective(m: nat, n: nat, k: nat)
    requires m < Power256(k) && n < Power256(k) && LittleEndian(m, k) == LittleEndian(n, k)
    ensures m == n
  {
    if k > 0 {
      var p, q := LittleEndian(m, k), LittleEndian(n, k);
      assert p[0] == m % 256 && q[0] == n % 256;
      assert p[1..] == LittleEndian(m / 256, k - 1) && q[1..] == LittleEndian(n / 256, k - 1);
      LittleEndianIsInjective(m / 256, n / 256, k - 1);
      assert m == m / 256 * 256 + m % 256 && n == n / 256 * 256 + n % 256;
    }
  }

  lemma LimitIsPower()
    ensures Power256(8) == LIMIT
  {
    assert Power256(2) == 0x1_0000;
    assert Power256(4) == 0x1_0000_0000;
    assert Power256(6) == 0x1_0000_0000_0000;
  }

  // ----- parts -----

  // the labels, in ASCII
  const METADATA: seq<Byte> := [109, 101, 116, 97, 100, 97, 116, 97]
  const ARCHIVE: seq<Byte> := [97, 114, 99, 104, 105, 118, 101]
  const PROVENANCE: seq<Byte> := [112, 114, 111, 118, 101, 110, 97, 110, 99, 101]
  const SIGNATURE: seq<Byte> := [115, 105, 103, 110, 97, 116, 117, 114, 101]

  function Part(name: seq<Byte>, bytes: seq<Byte>): seq<Byte> {
    name + LittleEndian(|bytes|, 8) + bytes
  }

  function OptionalPart(name: seq<Byte>, bytes: Option<seq<Byte>>): seq<Byte> {
    if bytes.Some? then Part(name, bytes.value) else []
  }

  function Preimage(body: Body): seq<Byte> {
    Part(METADATA, body.metadata) + Part(ARCHIVE, body.archive)
    + OptionalPart(PROVENANCE, body.provenance) + OptionalPart(SIGNATURE, body.signature)
  }

  /** Lengths fit the eight bytes. */
  predicate Fits(body: Body) {
    && |body.metadata| < LIMIT && |body.archive| < LIMIT
    && (body.provenance.Some? ==> |body.provenance.value| < LIMIT)
    && (body.signature.Some? ==> |body.signature.value| < LIMIT)
  }

  /** A part under a known label is decided by the bytes that start with it. */
  lemma PartDecided(name: seq<Byte>, a: seq<Byte>, x: seq<Byte>, b: seq<Byte>, y: seq<Byte>)
    requires |a| < LIMIT && |b| < LIMIT && Part(name, a) + x == Part(name, b) + y
    ensures a == b && x == y
  {
    LimitIsPower();
    hide LittleEndian, Power256;
    var p, q, tag := LittleEndian(|a|, 8), LittleEndian(|b|, 8), name;
    assert tag + (p + (a + x)) == Part(name, a) + x;
    assert tag + (q + (b + y)) == Part(name, b) + y;
    SplitAtLength(tag, p + (a + x), tag, q + (b + y));
    SplitAtLength(p, a + x, q, b + y);
    LittleEndianIsInjective(|a|, |b|, 8);
    SplitAtLength(a, x, b, y);
  }

  lemma LabelsDiffer(a: seq<Byte>, x: seq<Byte>, b: seq<Byte>, y: seq<Byte>)
    ensures Part(PROVENANCE, a) + x != Part(SIGNATURE, b) + y
    ensures Part(PROVENANCE, a) + x != [] && Part(SIGNATURE, b) + y != []
  {
    FirstByte(PROVENANCE, a);
    FirstByte(SIGNATURE, b);
    hide Part;
    assert (Part(PROVENANCE, a) + x)[0] == 112 && (Part(SIGNATURE, b) + y)[0] == 115;
  }

  lemma FirstByte(name: seq<Byte>, bytes: seq<Byte>)
    requires name != []
    ensures Part(name, bytes) != [] && Part(name, bytes)[0] == name[0]
  {
  }

  /** What the labels spell. */
  lemma LabelsSpell()
    ensures METADATA == Bytes("metadata") && ARCHIVE == Bytes("archive")
    ensures PROVENANCE == Bytes("provenance") && SIGNATURE == Bytes("signature")
  {
    hide Bytes;
    BytesOfAscii("metadata", METADATA);
    BytesOfAscii("archive", ARCHIVE);
    BytesOfAscii("provenance", PROVENANCE);
    BytesOfAscii("signature", SIGNATURE);
  }

  lemma LastPartDecided(s: Option<seq<Byte>>, t: Option<seq<Byte>>)
    requires s.Some? ==> |s.value| < LIMIT
    requires t.Some? ==> |t.value| < LIMIT
    requires OptionalPart(SIGNATURE, s) == OptionalPart(SIGNATURE, t)
    ensures s == t
  {
    var a, b := if s.Some? then s.value else [], if t.Some? then t.value else [];
    FirstByte(SIGNATURE, a);
    FirstByte(SIGNATURE, b);
    hide Part;
    assert Part(SIGNATURE, a) + [] == Part(SIGNATURE, a) && Part(SIGNATURE, b) + [] == Part(SIGNATURE, b);
    if s.Some? && t.Some? { PartDecided(SIGNATURE, a, [], b, []); }
  }

  lemma OptionalPartsDecided(p: Option<seq<Byte>>, s: Option<seq<Byte>>, q: Option<seq<Byte>>, t: Option<seq<Byte>>)
    requires p.Some? ==> |p.value| < LIMIT
    requires s.Some? ==> |s.value| < LIMIT
    requires q.Some? ==> |q.value| < LIMIT
    requires t.Some? ==> |t.value| < LIMIT
    requires OptionalPart(PROVENANCE, p) + OptionalPart(SIGNATURE, s)
          == OptionalPart(PROVENANCE, q) + OptionalPart(SIGNATURE, t)
    ensures p == q && s == t
  {
    var x, y := OptionalPart(SIGNATURE, s), OptionalPart(SIGNATURE, t);
    hide Part;
    if p.Some? && q.Some? {
      PartDecided(PROVENANCE, p.value, x, q.value, y);
    } else if p.Some? {
      assert [] + y == y;
      PresentOrAbsent(p.value, s, t);
    } else if q.Some? {
      assert [] + x == x;
      PresentOrAbsent(q.value, t, s);
    } else {
      assert [] + x == x && [] + y == y;
    }
    LastPartDecided(s, t);
  }

  lemma PresentOrAbsent(p: seq<Byte>, s: Option<seq<Byte>>, t: Option<seq<Byte>>)
    ensures Part(PROVENANCE, p) + OptionalPart(SIGNATURE, s) != OptionalPart(SIGNATURE, t)
  {
    hide Part;
    var b := if t.Some? then t.value else [];
    var x, whole := OptionalPart(SIGNATURE, s), Part(SIGNATURE, b);
    LabelsDiffer(p, x, b, []);
    assert whole + [] == whole;
    var y := OptionalPart(SIGNATURE, t);
    assert y == if t.Some? then whole else [];
    assert Part(PROVENANCE, p) + x != y;
  }

  /** Different bodies are digested as different byte strings, whatever optional parts each has. */
  lemma PreimageIsUniquelyDecodable(a: Body, b: Body)
    requires Fits(a) && Fits(b) && Preimage(a) == Preimage(b)
    ensures a == b
  {
    var x := OptionalPart(PROVENANCE, a.provenance) + OptionalPart(SIGNATURE, a.signature);
    var y := OptionalPart(PROVENANCE, b.provenance) + OptionalPart(SIGNATURE, b.signature);
    hide Part, OptionalPart;
    var m, n := Part(ARCHIVE, a.archive) + x, Part(ARCHIVE, b.archive) + y;
    assert Preimage(a) == Part(METADATA, a.metadata) + m;
    assert Preimage(b) == Part(METADATA, b.metadata) + n;
    PartDecided(METADATA, a.metadata, m, b.metadata, n);
    PartDecided(ARCHIVE, a.archive, x, b.archive, y);
    OptionalPartsDecided(a.provenance, a.signature, b.provenance, b.signature);
  }

  // ----- feeding the hasher -----

  method UpdateDigestPart(fed: seq<Byte>, name: seq<Byte>, bytes: seq<Byte>) returns (r: seq<Byte>)
    ensures r == fed + Part(name, bytes)
  {
    hide LittleEndian;
    r := fed + name;
    r := r + LittleEndian(|bytes|, 8);
    r := r + bytes;
  }

  method PublishBody(metadata: seq<Byte>, archive: seq<Byte>, provenance: Option<seq<Byte>>, signature: Option<seq<Byte>>)
    returns (fed: seq<Byte>)
    ensures fed == Preimage(Body(metadata, archive, provenance, signature))
  {
    hide Part;
    fed := UpdateDigestPart([], METADATA, metadata);
    fed := UpdateDigestPart(fed, ARCHIVE, archive);
    if provenance.Some? { fed := UpdateDigestPart(fed, PROVENANCE, provenance.value); }
    if signature.Some? { fed := UpdateDigestPart(fed, SIGNATURE, signature.value); }
  }
}
