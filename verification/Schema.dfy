/** nanopb field tables (pb_field_t arrays) and the C structures they describe.
    A message is one slot per table entry plus the `which_` variable of each oneof. */
module Schema {
  import opened Common

  datatype Kind =
    | VarInt | UVarInt | SVarInt | Fixed32 | Fixed64
    | Bytes | Str | FixedBytes
    | Sub(fields: seq<Field>)

  /** Optional has a has_ flag; Implicit is the proto3 form without one (size_offset 0). */
  datatype Rule = Required | Optional | Implicit | Repeated | OneOf(group: nat)

  datatype Field = Field(
    tag: nat,
    kind: Kind,
    rule: Rule,
    dataSize: nat,
    arraySize: nat,
    dataOffset: int,
    sizeOffset: int,
    dflt: Option<Value>)

  /** Strings are held as the characters before the NUL; the rest of the array is not observable. */
  datatype Value = IntV(i: int) | BytesV(b: seq<Byte>) | MsgV(m: Message)

  datatype Slot = One(v: Value) | Opt(has: bool, v: Value) | Rep(items: seq<Value>)

  datatype Message = Msg(slots: seq<Slot>, which: map<nat, nat>)

  // ---- total accessors ----

  function IntOf(v: Value): int { if v.IntV? then v.i else 0 }

  function BytesOf(v: Value): seq<Byte> { if v.BytesV? then v.b else [] }

  function MsgOf(v: Value): Message { if v.MsgV? then v.m else Msg([], map[]) }

  function ItemsOf(s: Slot): seq<Value> { if s.Rep? then s.items else [] }

  function CurOf(s: Slot): Value { if s.Rep? then IntV(0) else s.v }

  function SlotAt(m: Message, i: nat): Slot { if i < |m.slots| then m.slots[i] else Rep([]) }

  function SetSlot(m: Message, i: nat, s: Slot): Message
  {
    if i < |m.slots| then m.(slots := m.slots[i := s]) else m
  }

  /** The which_ variable of a oneof; 0 when no member is selected. */
  function Which(m: Message, group: nat): nat { if group in m.which then m.which[group] else 0 }

  // ---- the width of pb_size_t ----

  type SizeWidth = n: nat | n == 1 || n == 2 || n == 4 witness 1

  /** sizeof(pb_size_t): 1, or 2 with PB_FIELD_16BIT, or 4 with PB_FIELD_32BIT */
  const SIZE_WIDTH: SizeWidth

  const PB_SIZE_MAX: nat := if SIZE_WIDTH == 1 then 0xFF else if SIZE_WIDTH == 2 then 0xFFFF else 0xFFFF_FFFF

  /** PB_BYTES_ARRAY_T_ALLOCSIZE: a bytes array starts with its count */
  function AllocSize(n: nat): nat { n + SIZE_WIDTH }

  // ---- field kinds ----

  predicate Packable(k: Kind) { k.VarInt? || k.UVarInt? || k.SVarInt? || k.Fixed32? || k.Fixed64? }

  function WireType(k: Kind): (r: nat)
    ensures r < 8
  {
    match k
    case VarInt => 0
    case UVarInt => 0
    case SVarInt => 0
    case Fixed64 => 1
    case Fixed32 => 5
    case _ => 2
  }

  function SizeRange(n: nat): nat
  {
    if n == 1 then 0x100 else if n == 2 then 0x1_0000 else if n == 4 then U32 else U64
  }

  predicate InRange(k: Kind, n: nat, i: int)
  {
    match k
    case VarInt => -(SizeRange(n) / 2) <= i < SizeRange(n) / 2
    case SVarInt => -(SizeRange(n) / 2) <= i < SizeRange(n) / 2
    case UVarInt => 0 <= i < SizeRange(n)
    case Fixed32 => 0 <= i < U32
    case Fixed64 => 0 <= i < U64
    case _ => false
  }

  // ---- values that fit their allocation ----

  /** A C value of a non-submessage field, inside its array and NUL-terminated. */
  predicate ScalarFits(f: Field, v: Value)
  {
    match f.kind
    case Bytes => v.BytesV? && AllocSize(|v.b|) <= f.dataSize
    case Str => v.BytesV? && |v.b| < f.dataSize && 0 !in v.b
    case FixedBytes => v.BytesV? && |v.b| == f.dataSize
    case Sub(_) => false
    case k => v.IntV? && InRange(k, f.dataSize, v.i)
  }

  // ---- well-formed tables ----

  predicate WellFormed(fields: seq<Field>)
    decreases fields
  {
    && (forall i :: 0 <= i < |fields| ==> WellFormedField(fields[i]))
    && (forall i, j :: 0 <= i < j < |fields| ==> fields[i].tag != fields[j].tag)
  }

  predicate WellFormedField(f: Field)
    decreases f
  {
    && 1 <= f.tag <= PB_SIZE_MAX && f.tag < 0x2000_0000
    && f.dataSize <= PB_SIZE_MAX && f.arraySize <= PB_SIZE_MAX
    && (f.kind.VarInt? || f.kind.UVarInt? || f.kind.SVarInt? ==> f.dataSize in {1, 2, 4, 8})
    && (f.kind.Bytes? ==> f.dataSize >= SIZE_WIDTH) && (f.kind.Str? ==> f.dataSize >= 1)
    && (f.dflt.Some? ==> ScalarFits(f, f.dflt.value))
    && (f.rule.Implicit? ==> f.dflt.None?)
    && (f.kind.Sub? ==> WellFormed(f.kind.fields))
  }

  lemma TableField(fields: seq<Field>, i: nat)
    requires WellFormed(fields) && i < |fields|
    ensures WellFormedField(fields[i])
  {
  }

  // ---- initial contents (pb_message_set_to_defaults) ----

  function Zeros(n: nat): seq<Byte> { seq(n, _ => 0) }

  function InitValue(f: Field): Value
    decreases f, 0
  {
    match f.kind
    case Sub(fs) => MsgV(Default(fs))
    case _ =>
      if f.dflt.Some? then f.dflt.value
      else if Packable(f.kind) then IntV(0)
      else if f.kind.FixedBytes? then BytesV(Zeros(f.dataSize))
      else BytesV([])
  }

  function InitSlot(f: Field): Slot
    decreases f, 1
  {
    match f.rule
    case Optional => Opt(false, InitValue(f))
    case Repeated => Rep([])
    case _ => One(InitValue(f))
  }

  function Default(fields: seq<Field>): Message
    decreases fields
  {
    Msg(seq(|fields|, i requires 0 <= i < |fields| => InitSlot(fields[i])), map[])
  }

  lemma SubInit(f: Field)
    requires f.kind.Sub?
    ensures InitValue(f) == MsgV(Default(f.kind.fields))
    ensures WellFormedField(f) ==> WellFormed(f.kind.fields)
  {
    hide Default, WellFormed;
  }

  // ---- proto3 implicit presence (pb_check_proto3_default_value) ----

  predicate IsDefault(f: Field, m: Message, i: nat)
    decreases f
  {
    match f.rule
    case Required => false
    case Repeated => ItemsOf(SlotAt(m, i)) == []
    case OneOf(g) => Which(m, g) == 0
    case Optional => SlotAt(m, i).Opt? && !SlotAt(m, i).has
    case Implicit =>
      var v := CurOf(SlotAt(m, i));
      match f.kind
      case Bytes => BytesOf(v) == []
      case Str => BytesOf(v) == []
      case FixedBytes => f.dataSize == 0
      case Sub(fs) => forall j :: 0 <= j < |fs| ==> IsDefault(fs[j], MsgOf(v), j)
      case _ => IntOf(v) == 0
  }

  /** Whether the encoder emits table entry f, stored in slot i of m. */
  predicate Carried(f: Field, m: Message, i: nat)
  {
    match f.rule
    case Required => true
    case Optional => SlotAt(m, i).Opt? && SlotAt(m, i).has
    case Implicit => !IsDefault(f, m, i)
    case Repeated => ItemsOf(SlotAt(m, i)) != []
    case OneOf(g) => Which(m, g) == f.tag
  }

  // ---- message equality: absent fields and unselected oneof members do not count ----

  predicate SameValue(f: Field, v: Value, w: Value)
    decreases f, 0
  {
    if f.kind.Sub? then v.MsgV? && w.MsgV? && SameMessage(f.kind.fields, v.m, w.m) else v == w
  }

  predicate SameField(f: Field, m: Message, n: Message, i: nat)
    decreases f, 1
  {
    var s, t := SlotAt(m, i), SlotAt(n, i);
    match f.rule
    case Required => s.One? && t.One? && SameValue(f, s.v, t.v)
    case Implicit => s.One? && t.One? && SameValue(f, s.v, t.v)
    case Optional => s.Opt? && t.Opt? && s.has == t.has && (s.has ==> SameValue(f, s.v, t.v))
    case Repeated =>
      && s.Rep? && t.Rep? && |s.items| == |t.items|
      && forall k :: 0 <= k < |s.items| ==> SameValue(f, s.items[k], t.items[k])
    case OneOf(g) =>
      && (Which(m, g) == f.tag <==> Which(n, g) == f.tag)
      && (Which(m, g) == f.tag ==> s.One? && t.One? && SameValue(f, s.v, t.v))
  }

  predicate SameMessage(fields: seq<Field>, m: Message, n: Message)
    decreases fields
  {
    forall i :: 0 <= i < |fields| ==> SameField(fields[i], m, n, i)
  }
}
