/** The bytes an audit record is hashed over: every field length-prefixed, in a fixed order. */
module AuditEncoding {
  import opened Common

  /** A string as the program holds one: bytes, with a length that fits the machine's integer. */
  type Text = s: seq<Byte> | |s| < 0x8000_0000_0000_0000

  datatype Entry = Entry(
    timestamp: Text, actor: Text, actorKind: Text, correlation: Text, operation: Text, kind: Text,
    namespace: Text, name: Text, uid: Text, project: Text, fromState: Text, toState: Text,
    reason: Text, details: Text)

  /** The part of a record its hash is over. */
  datatype Content = Content(prevHash: Text, sequence: int, entry: Entry)

  /** A row: what is hashed, and the hash stored beside it. */
  datatype Record = Record(sequence: int, prevHash: Text, entry: Entry, hash: Text)

  function ContentOf(r: Record): Content {
    Content(r.prevHash, r.sequence, r.entry)
  }

  function Fields(e: Entry): seq<Text> {
    [e.timestamp, e.actor, e.actorKind, e.correlation, e.operation, e.kind, e.namespace,
     e.name, e.uid, e.project, e.fromState, e.toState, e.reason, e.details]
  }

  function BigEndian(value: nat, width: nat): (bytes: seq<Byte>)
    ensures |bytes| == width
  {
    if width == 0 then [] else BigEndian(value / 256, width - 1) + [value % 256]
  }

  predicate IsInt64(value: int) {
    -0x8000_0000_0000_0000 <= value < 0x8000_0000_0000_0000
  }

  /** A signed 64-bit value is written as its two's complement. */
  function WriteUint(value: int): (bytes: seq<Byte>)
    ensures |bytes| == 8
  {
    BigEndian(value % TwoTo64, 8)
  }

  function WriteField(value: Text): seq<Byte> {
    WriteUint(|value|) + value
  }

  function WriteFields(values: seq<Text>): seq<Byte> {
    if values == [] then [] else WriteField(values[0]) + WriteFields(values[1..])
  }

  function Encode(c: Content): seq<Byte> {
    WriteField(c.prevHash) + (WriteUint(c.sequence) + WriteFields(Fields(c.entry)))
  }

  function Power256(width: nat): nat {
    if width == 0 then 1 else 256 * Power256(width - 1)
  }

  lemma {:induction false} BigEndianIsInjective(a: nat, b: nat, width: nat)
    requires a < Power256(width) && b < Power256(width)
    requires BigEndian(a, width) == BigEndian(b, width)
    ensures a == b
  {
    if width > 0 {
      var x, y := BigEndian(a, width), BigEndian(b, width);
      assert x[..width - 1] == BigEndian(a / 256, width - 1) && y[..width - 1] == BigEndian(b / 256, width - 1);
      BigEndianIsInjective(a / 256, b / 256, width - 1);
      assert x[width - 1] == a % 256 && y[width - 1] == b % 256;
    }
  }

  lemma Power256Of8()
    ensures Power256(8) == 0x1_0000_0000_0000_0000
  {
    assert Power256(2) == 0x1_0000;
    assert Power256(4) == 0x1_0000_0000;
    assert Power256(6) == 0x1_0000_0000_0000;
  }

  const TwoTo64 := 0x1_0000_0000_0000_0000

  lemma TwosComplement(value: int)
    requires IsInt64(value)
    ensures value % TwoTo64 == if value >= 0 then value else value + TwoTo64
  {
    if value < 0 {
      assert 0 <= value + TwoTo64 < TwoTo64;
      assert value == -1 * TwoTo64 + (value + TwoTo64);
    }
  }

  lemma WriteUintIsInjective(a: int, b: int)
    requires IsInt64(a) && IsInt64(b)
    requires WriteUint(a) == WriteUint(b)
    ensures a == b
  {
    Power256Of8();
    BigEndianIsInjective(a % TwoTo64, b % TwoTo64, 8);
    TwosComplement(a);
    TwosComplement(b);
  }

  /** No field's content can be read as the boundary before the next. */
  lemma FieldBoundaryIsUnambiguous(a: Text, b: Text, x: seq<Byte>, y: seq<Byte>)
    requires WriteField(a) + x == WriteField(b) + y
    ensures a == b && x == y
  {
    assert WriteUint(|a|) == (WriteField(a) + x)[..8] == (WriteField(b) + y)[..8] == WriteUint(|b|);
    WriteUintIsInjective(|a|, |b|);
    assert a == (WriteField(a) + x)[8..8 + |a|] == (WriteField(b) + y)[8..8 + |b|] == b;
    assert x == (WriteField(a) + x)[8 + |a|..] == (WriteField(b) + y)[8 + |b|..] == y;
  }

  lemma {:induction false} WriteFieldsIsInjective(xs: seq<Text>, ys: seq<Text>)
    requires |xs| == |ys| && WriteFields(xs) == WriteFields(ys)
    ensures xs == ys
  {
    if xs != [] {
      FieldBoundaryIsUnambiguous(xs[0], ys[0], WriteFields(xs[1..]), WriteFields(ys[1..]));
      WriteFieldsIsInjective(xs[1..], ys[1..]);
      assert xs == [xs[0]] + xs[1..] && ys == [ys[0]] + ys[1..];
    }
  }

  /** Two records are hashed over the same bytes only if they agree on everything that is hashed. */
  lemma EncodeIsInjective(a: Content, b: Content)
    requires IsInt64(a.sequence) && IsInt64(b.sequence)
    requires Encode(a) == Encode(b)
    ensures a == b
  {
    var x, y := WriteFields(Fields(a.entry)), WriteFields(Fields(b.entry));
    FieldBoundaryIsUnambiguous(a.prevHash, b.prevHash, WriteUint(a.sequence) + x, WriteUint(b.sequence) + y);
    assert WriteUint(a.sequence) == (WriteUint(a.sequence) + x)[..8];
    assert WriteUint(b.sequence) == (WriteUint(b.sequence) + y)[..8];
    assert x == (WriteUint(a.sequence) + x)[8..] == (WriteUint(b.sequence) + y)[8..] == y;
    WriteFieldsIsInjective(Fields(a.entry), Fields(b.entry));
    EntryFromFields(a.entry, b.entry);
    WriteUintIsInjective(a.sequence, b.sequence);
  }

  lemma EntryFromFields(a: Entry, b: Entry)
    requires Fields(a) == Fields(b)
    ensures a == b
  {
    forall i | 0 <= i < 14 ensures Fields(a)[i] == Fields(b)[i] {
    }
    assert Fields(a)[0] == a.timestamp && Fields(a)[1] == a.actor && Fields(a)[2] == a.actorKind;
    assert Fields(a)[3] == a.correlation && Fields(a)[4] == a.operation && Fields(a)[5] == a.kind;
    assert Fields(a)[6] == a.namespace && Fields(a)[7] == a.name && Fields(a)[8] == a.uid;
    assert Fields(a)[9] == a.project && Fields(a)[10] == a.fromState && Fields(a)[11] == a.toState;
    assert Fields(a)[12] == a.reason && Fields(a)[13] == a.details;
  }
}
