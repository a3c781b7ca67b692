/** Reading back what an audit record is hashed over: the layout, field by field, from the reader's side. */
module AuditDecoding {
  import opened Common
  import opened AuditEncoding

  /** The number some bytes are, most significant first. */
  function Number(bytes: seq<Byte>): nat {
    if bytes == [] then 0 else 256 * Number(bytes[..|bytes| - 1]) + bytes[|bytes| - 1]
  }

  lemma {:induction false} NumberReadsBack(value: nat, width: nat)
    requires value < Power256(width)
    ensures Number(BigEndian(value, width)) == value
  {
    if width > 0 {
      NumberReadsBack(value / 256, width - 1);
      assert BigEndian(value, width)[..width - 1] == BigEndian(value / 256, width - 1);
    }
  }

  function ReadInt64(bytes: seq<Byte>): int {
    if Number(bytes) >= 0x8000_0000_0000_0000 then Number(bytes) - 0x1_0000_0000_0000_0000 else Number(bytes)
  }

  lemma IntReadsBack(value: int)
    requires IsInt64(value)
    ensures ReadInt64(WriteUint(value)) == value && (value >= 0 ==> Number(WriteUint(value)) == value)
  {
    TwosComplement(value);
    Power256Of8();
    NumberReadsBack(value % TwoTo64, 8);
  }

  /** A field at the front: its length in eight bytes, that many bytes, and what follows. */
  function ReadField(bytes: seq<Byte>): Option<(seq<Byte>, seq<Byte>)> {
    if |bytes| < 8 then None
    else
      var n := Number(bytes[..8]);
      if |bytes| < 8 + n then None else Some((bytes[8..8 + n], bytes[8 + n..]))
  }

  lemma FieldReadsBack(value: Text, rest: seq<Byte>)
    ensures ReadField(WriteField(value) + rest) == Some((value, rest))
  {
    var bytes := WriteField(value) + rest;
    IntReadsBack(|value|);
    assert bytes[..8] == WriteUint(|value|);
    assert bytes[8..8 + |value|] == value && bytes[8 + |value|..] == rest;
  }

  function ReadFields(bytes: seq<Byte>, count: nat): Option<seq<seq<Byte>>> {
    if count == 0 then if bytes == [] then Some([]) else None
    else
      var first := ReadField(bytes);
      if first.None? then None
      else
        var others := ReadFields(first.value.1, count - 1);
        if others.None? then None else Some([first.value.0] + others.value)
  }

  lemma {:induction false} FieldsReadBack(values: seq<Text>)
    ensures ReadFields(WriteFields(values), |values|) == Some(values)
  {
    if values != [] {
      FieldReadsBack(values[0], WriteFields(values[1..]));
      FieldsReadBack(values[1..]);
      assert values == [values[0]] + values[1..];
    }
  }

  /** The layout: the link, the number in eight bytes, and the fourteen fields of the entry in this order. */
  datatype Layout = Layout(
    prevHash: seq<Byte>, sequence: int,
    timestamp: seq<Byte>, actor: seq<Byte>, actorKind: seq<Byte>, correlation: seq<Byte>, operation: seq<Byte>,
    kind: seq<Byte>, namespace: seq<Byte>, name: seq<Byte>, uid: seq<Byte>, project: seq<Byte>,
    fromState: seq<Byte>, toState: seq<Byte>, reason: seq<Byte>, details: seq<Byte>)

  function Decode(bytes: seq<Byte>): Option<Layout> {
    var link := ReadField(bytes);
    if link.None? || |link.value.1| < 8 then None
    else
      var fields := ReadFields(link.value.1[8..], 14);
      if fields.None? || |fields.value| != 14 then None
      else
        var f := fields.value;
        Some(Layout(link.value.0, ReadInt64(link.value.1[..8]),
                    f[0], f[1], f[2], f[3], f[4], f[5], f[6], f[7], f[8], f[9], f[10], f[11], f[12], f[13]))
  }

  function LayoutOf(c: Content): Layout {
    var e := c.entry;
    Layout(c.prevHash, c.sequence, e.timestamp, e.actor, e.actorKind, e.correlation, e.operation, e.kind, e.namespace,
           e.name, e.uid, e.project, e.fromState, e.toState, e.reason, e.details)
  }

  lemma FieldsAreTheLayouts(c: Content)
    ensures var f := Fields(c.entry);
            && |f| == 14
            && Layout(c.prevHash, c.sequence, f[0], f[1], f[2], f[3], f[4], f[5], f[6], f[7], f[8], f[9], f[10],
                      f[11], f[12], f[13]) == LayoutOf(c)
  {
  }

  /** Every record's bytes read back as the record, each field from its own place. */
  lemma ContentReadsBack(c: Content)
    requires IsInt64(c.sequence)
    ensures Decode(Encode(c)) == Some(LayoutOf(c))
  {
    var fields := WriteFields(Fields(c.entry));
    var rest := WriteUint(c.sequence) + fields;
    FieldReadsBack(c.prevHash, rest);
    assert rest[..8] == WriteUint(c.sequence) && rest[8..] == fields;
    IntReadsBack(c.sequence);
    FieldsReadBack(Fields(c.entry));
    FieldsAreTheLayouts(c);
  }
}
