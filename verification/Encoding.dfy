/** What nanopb puts on the wire for a message: the function the encoder methods are proved against. */
module Encoding {
  import opened Common
  import opened Varint
  import opened Schema

  function ZigZag(v: int): nat
    requires -0x8000_0000_0000_0000 <= v < 0x8000_0000_0000_0000
  {
    if v < 0 then U64 - 1 - ((U64 + v) * 2) % U64 else 2 * v
  }

  /** n little-endian bytes of v */
  function LittleEndian(v: nat, n: nat): (r: seq<Byte>)
    ensures |r| == n
  {
    if n == 0 then [] else [v % 256] + LittleEndian(v / 256, n - 1)
  }

  function EncInt(k: Kind, i: int): seq<Byte>
  {
    match k
    case VarInt => EncodeVarint(i % U64)
    case UVarInt => EncodeVarint(i % U64)
    case SVarInt =>
      if -0x8000_0000_0000_0000 <= i < 0x8000_0000_0000_0000 then EncodeVarint(ZigZag(i)) else []
    case Fixed32 => LittleEndian(i % U32, 4)
    case Fixed64 => LittleEndian(i % U64, 8)
    case _ => []
  }

  function EncLengthPrefixed(b: seq<Byte>): seq<Byte>
  {
    EncodeVarint(|b|) + b
  }

  function EncValue(f: Field, v: Value): seq<Byte>
    decreases f, 0
  {
    match f.kind
    case Sub(fs) => EncLengthPrefixed(EncFrom(fs, 0, MsgOf(v)))
    case Bytes => EncLengthPrefixed(BytesOf(v))
    case Str => EncLengthPrefixed(BytesOf(v))
    case FixedBytes => EncLengthPrefixed(BytesOf(v))
    case k => EncInt(k, IntOf(v))
  }

  function EncTag(f: Field): seq<Byte>
  {
    EncodeVarint(8 * f.tag + WireType(f.kind))
  }

  function EncPackedTag(f: Field): seq<Byte>
  {
    EncodeVarint(8 * f.tag + 2)
  }

  function EncPacked(k: Kind, items: seq<Value>): seq<Byte>
  {
    if items == [] then [] else EncInt(k, IntOf(items[0])) + EncPacked(k, items[1..])
  }

  function EncUnpacked(f: Field, items: seq<Value>): seq<Byte>
    decreases f, 1, |items|
  {
    if items == [] then [] else EncTag(f) + EncValue(f, items[0]) + EncUnpacked(f, items[1..])
  }

  function EncField(f: Field, m: Message, i: nat): seq<Byte>
    decreases f, 2
  {
    if !Carried(f, m, i) then []
    else if f.rule.Repeated? then
      var items := ItemsOf(SlotAt(m, i));
      if Packable(f.kind) then EncPackedTag(f) + EncLengthPrefixed(EncPacked(f.kind, items))
      else EncUnpacked(f, items)
    else EncTag(f) + EncValue(f, CurOf(SlotAt(m, i)))
  }

  /** The bytes of table entries i, i+1, ... */
  function EncFrom(fields: seq<Field>, i: nat, m: Message): seq<Byte>
    decreases fields, |fields| - i
  {
    if i >= |fields| then [] else EncField(fields[i], m, i) + EncFrom(fields, i + 1, m)
  }

  function Encode(fields: seq<Field>, m: Message): seq<Byte>
  {
    EncFrom(fields, 0, m)
  }

  // ---- the encoder's error conditions ----

  /** "bytes size exceeded" and "array max size exceeded" do not occur in what is emitted. */
  predicate EncodableValue(f: Field, v: Value)
    decreases f, 0
  {
    match f.kind
    case Bytes => AllocSize(|BytesOf(v)|) <= f.dataSize
    case Sub(fs) => Encodable(fs, MsgOf(v))
    case _ => true
  }

  predicate EncodableItems(f: Field, items: seq<Value>)
    decreases f, 1, |items|
  {
    items != [] ==> EncodableValue(f, items[0]) && EncodableItems(f, items[1..])
  }

  predicate EncodableField(f: Field, m: Message, i: nat)
    decreases f, 2
  {
    Carried(f, m, i) ==>
      if f.rule.Repeated? then
        var items := ItemsOf(SlotAt(m, i));
        |items| <= f.arraySize && EncodableItems(f, items)
      else EncodableValue(f, CurOf(SlotAt(m, i)))
  }

  predicate Encodable(fields: seq<Field>, m: Message)
    decreases fields
  {
    forall i :: 0 <= i < |fields| ==> EncodableField(fields[i], m, i)
  }

  // ---- messages that survive the trip ----

  /** A value that fits its allocation, with submessages of representable length. */
  predicate ReadyValue(f: Field, v: Value)
    decreases f, 0
  {
    match f.kind
    case Sub(fs) => v.MsgV? && Ready(fs, v.m) && |Encode(fs, v.m)| < U32
    case _ => ScalarFits(f, v)
  }

  predicate ReadyItems(f: Field, items: seq<Value>)
    decreases f, 1, |items|
  {
    items != [] ==> ReadyValue(f, items[0]) && ReadyItems(f, items[1..])
  }

  /** A packed array has a representable length. */
  predicate ShortArray(f: Field, items: seq<Value>)
  {
    Packable(f.kind) ==> |EncPacked(f.kind, items)| < U32
  }

  predicate ReadyField(f: Field, m: Message, i: nat)
    decreases f, 2
  {
    var s := SlotAt(m, i);
    && (f.rule.Optional? ==> s.Opt?)
    && (f.rule.Repeated? ==> s.Rep?)
    && (!f.rule.Optional? && !f.rule.Repeated? ==> s.One?)
    && (f.rule.Implicit? ==> ReadyValue(f, s.v))
    && (Carried(f, m, i) ==>
          if s.Rep? then |s.items| <= f.arraySize && ReadyItems(f, s.items) && ShortArray(f, s.items)
          else ReadyValue(f, s.v))
  }

  predicate Ready(fields: seq<Field>, m: Message)
    decreases fields
  {
    && |m.slots| == |fields|
    && forall i :: 0 <= i < |fields| ==> ReadyField(fields[i], m, i)
  }
}
