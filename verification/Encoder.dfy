/** pb_encode.c: the encoder over an output stream. Every method either puts exactly the bytes of
    the `Encoding` function on the stream, or fails without going past the stream's limit. */
module Encoder {
  import opened Common
  import V = Varint
  import opened Schema
  import opened Encoding
  import opened OStreams
  import opened FieldIters

  /** ok exactly when there is no error in the data and the bytes e fit; then e was written. */
  ghost predicate Outcome(k: Sink, k': Sink, ok: bool, legal: bool, e: seq<Byte>)
  {
    && Sound(k) && Sound(k')
    && ok == (legal && Accepts(k, |e|))
    && (ok ==> k' == After(k, e))
    && (!ok ==> Confined(k, k'))
  }

  lemma Chain(k: Sink, k1: Sink, k2: Sink, legal1: bool, a: seq<Byte>, ok: bool, legal2: bool, b: seq<Byte>)
    requires Outcome(k, k1, true, legal1, a) && Outcome(k1, k2, ok, legal2, b)
    ensures Outcome(k, k2, ok, legal1 && legal2, a + b)
  {
    hide After, Confined;
    AfterIsSound(k, a);
    if Accepts(k, |a| + |b|) { AfterBoth(k, a, b); }
    if !ok { ConfinedAfter(k, a, k2); }
  }

  lemma Stopped(k: Sink, k1: Sink, legal1: bool, a: seq<Byte>, legal2: bool, b: seq<Byte>)
    requires Outcome(k, k1, false, legal1, a)
    ensures Outcome(k, k1, false, legal1 && legal2, a + b)
  {
    hide After, Confined;
  }

  lemma Wrote(k: Sink, k': Sink, ok: bool, e: seq<Byte>)
    requires Sound(k) && ok == Accepts(k, |e|)
    requires ok ==> k' == After(k, e)
    requires !ok ==> k' == k
    ensures Outcome(k, k', ok, true, e)
  {
    if ok { AfterIsSound(k, e); }
  }

  lemma NothingWritten(k: Sink)
    requires Sound(k)
    ensures Outcome(k, k, true, true, [])
  {
    AfterNothing(k);
  }

  lemma Refused(k: Sink, e: seq<Byte>)
    requires Sound(k)
    ensures Outcome(k, k, false, false, e)
  {
  }

  // ---- C-typed messages ----

  /** A value of the field's C type; lengths are size_t. Its count or size may exceed its array. */
  predicate CValue(f: Field, v: Value)
    decreases f, 0
  {
    match f.kind
    case Bytes => v.BytesV? && |v.b| <= PB_SIZE_MAX
    case Str => v.BytesV? && |v.b| <= f.dataSize
    case FixedBytes => v.BytesV? && |v.b| == f.dataSize
    case Sub(fs) => v.MsgV? && CMessage(fs, v.m) && |Encode(fs, v.m)| < U64
    case k => v.IntV? && InRange(k, f.dataSize, v.i)
  }

  predicate CItems(f: Field, items: seq<Value>)
    decreases f, 1, |items|
  {
    items != [] ==> CValue(f, items[0]) && CItems(f, items[1..])
  }

  predicate CField(f: Field, m: Message, i: nat)
    decreases f, 2
  {
    Carried(f, m, i) ==>
      if f.rule.Repeated? then
        var items := ItemsOf(SlotAt(m, i));
        CItems(f, items) && (Packable(f.kind) ==> |EncPacked(f.kind, items)| < U64)
      else CValue(f, CurOf(SlotAt(m, i)))
  }

  predicate CMessage(fields: seq<Field>, m: Message)
    decreases fields
  {
    forall i :: 0 <= i < |fields| ==> CField(fields[i], m, i)
  }

  // ---- scalars ----

  /** pb_encode_varint with an Outcome */
  method PutVarint(stream: OStream, value: nat) returns (ok: bool)
    requires stream.Valid() && value < U64
    modifies stream, stream.Memory()
    ensures Outcome(old(stream.State()), stream.State(), ok, true, V.EncodeVarint(value))
  {
    ghost var k := stream.State();
    ok := stream.EncodeVarint(value);
    hide After, Outcome, Accepts;
    Wrote(k, stream.State(), ok, V.EncodeVarint(value));
  }

  method PutBytes(stream: OStream, b: seq<Byte>) returns (ok: bool)
    requires stream.Valid()
    modifies stream, stream.Memory()
    ensures Outcome(old(stream.State()), stream.State(), ok, true, b)
  {
    ghost var k := stream.State();
    ok := stream.Write(b);
    hide After, Outcome, Accepts;
    Wrote(k, stream.State(), ok, b);
  }

  /** pb_encode_svarint */
  method PutSVarint(stream: OStream, value: int) returns (ok: bool)
    requires stream.Valid() && -0x8000_0000_0000_0000 <= value < 0x8000_0000_0000_0000
    modifies stream, stream.Memory()
    ensures Outcome(old(stream.State()), stream.State(), ok, true, V.EncodeVarint(ZigZag(value)))
  {
    var zigzagged: nat;
    if value < 0 {
      zigzagged := U64 - 1 - ((value + U64) * 2) % U64;
    } else {
      zigzagged := value * 2;
    }
    ok := PutVarint(stream, zigzagged);
  }

  /** pb_encode_fixed32 */
  method PutFixed32(stream: OStream, val: nat) returns (ok: bool)
    requires stream.Valid() && val < U32
    modifies stream, stream.Memory()
    ensures Outcome(old(stream.State()), stream.State(), ok, true, LittleEndian(val, 4))
  {
    var bytes := [val % 0x100, val / 0x100 % 0x100, val / 0x1_0000 % 0x100, val / 0x100_0000 % 0x100];
    FourBytes(val);
    ok := PutBytes(stream, bytes);
  }

  lemma FourBytes(v: nat)
    ensures LittleEndian(v, 4) == [v % 0x100, v / 0x100 % 0x100, v / 0x1_0000 % 0x100, v / 0x100_0000 % 0x100]
  {
    assert v / 0x100 / 0x100 == v / 0x1_0000;
    assert v / 0x1_0000 / 0x100 == v / 0x100_0000;
    var a := v / 0x100_0000;
    assert LittleEndian(a, 1) == [a % 0x100];
    assert LittleEndian(v / 0x1_0000, 2) == [v / 0x1_0000 % 0x100, a % 0x100];
    assert LittleEndian(v / 0x100, 3) == [v / 0x100 % 0x100, v / 0x1_0000 % 0x100, a % 0x100];
  }

  lemma EightBytes(v: nat)
    ensures LittleEndian(v, 8) == LittleEndian(v, 4) + LittleEndian(v / U32, 4)
  {
    FourBytes(v);
    var b, c, d := v / 0x100, v / 0x1_0000, v / 0x100_0000;
    assert b / 0x100 == c && c / 0x100 == d && d / 0x100 == v / U32;
    assert LittleEndian(d, 5) == [d % 0x100] + LittleEndian(v / U32, 4);
    assert LittleEndian(c, 6) == [c % 0x100] + LittleEndian(d, 5);
    assert LittleEndian(b, 7) == [b % 0x100] + LittleEndian(c, 6);
  }

  /** pb_encode_fixed64 */
  method PutFixed64(stream: OStream, val: nat) returns (ok: bool)
    requires stream.Valid() && val < U64
    modifies stream, stream.Memory()
    ensures Outcome(old(stream.State()), stream.State(), ok, true, LittleEndian(val, 8))
  {
    var high := val / U32;
    var bytes := [val % 0x100, val / 0x100 % 0x100, val / 0x1_0000 % 0x100, val / 0x100_0000 % 0x100]
      + [high % 0x100, high / 0x100 % 0x100, high / 0x1_0000 % 0x100, high / 0x100_0000 % 0x100];
    FourBytes(val);
    FourBytes(high);
    EightBytes(val);
    ok := PutBytes(stream, bytes);
  }

  /** pb_enc_varint, pb_enc_uvarint, pb_enc_svarint, pb_enc_fixed32, pb_enc_fixed64 */
  method PutInt(stream: OStream, f: Field, i: int) returns (ok: bool)
    requires stream.Valid() && Packable(f.kind) && InRange(f.kind, f.dataSize, i)
    modifies stream, stream.Memory()
    ensures Outcome(old(stream.State()), stream.State(), ok, true, EncInt(f.kind, i))
  {
    hide Outcome, V.EncodeVarint, LittleEndian;
    match f.kind {
      case VarInt => ok := PutVarint(stream, if i < 0 then i + U64 else i);
      case UVarInt => ok := PutVarint(stream, i);
      case SVarInt => ok := PutSVarint(stream, i);
      case Fixed32 => ok := PutFixed32(stream, i);
      case Fixed64 => ok := PutFixed64(stream, i);
    }
  }

  /** pb_encode_string */
  method PutString(stream: OStream, b: seq<Byte>) returns (ok: bool)
    requires stream.Valid() && |b| < U64
    modifies stream, stream.Memory()
    ensures Outcome(old(stream.State()), stream.State(), ok, true, EncLengthPrefixed(b))
  {
    ghost var k := stream.State();
    ok := PutVarint(stream, |b|);
    ghost var k1 := stream.State();
    assert stream.Valid() by { assert Outcome(k, k1, ok, true, V.EncodeVarint(|b|)); }
    hide Outcome;
    if !ok {
      Stopped(k, k1, true, V.EncodeVarint(|b|), true, b);
      return;
    }
    ok := PutBytes(stream, b);
    Chain(k, k1, stream.State(), true, V.EncodeVarint(|b|), ok, true, b);
  }

  /** pb_encode_tag */
  method PutTag(stream: OStream, wt: nat, tag: nat) returns (ok: bool)
    requires stream.Valid() && wt < 8 && tag < U32
    modifies stream, stream.Memory()
    ensures Outcome(old(stream.State()), stream.State(), ok, true, V.EncodeVarint(8 * tag + wt))
  {
    ok := PutVarint(stream, tag * 8 + wt);
  }

  /** pb_encode_tag_for_field */
  method PutTagForField(stream: OStream, f: Field) returns (ok: bool)
    requires stream.Valid() && f.tag < U32
    modifies stream, stream.Memory()
    ensures Outcome(old(stream.State()), stream.State(), ok, true, EncTag(f))
  {
    var wiretype: nat;
    match f.kind {
      case VarInt => wiretype := 0;
      case UVarInt => wiretype := 0;
      case SVarInt => wiretype := 0;
      case Fixed32 => wiretype := 5;
      case Fixed64 => wiretype := 1;
      case _ => wiretype := 2;
    }
    ok := PutTag(stream, wiretype, f.tag);
  }

  // ---- arrays ----

  lemma PackedItemAt(k: Kind, items: seq<Value>, i: nat)
    requires i < |items|
    ensures EncPacked(k, items[i..]) == EncInt(k, IntOf(items[i])) + EncPacked(k, items[i + 1..])
  {
    hide EncInt;
    assert items[i..][0] == items[i] && items[i..][1..] == items[i + 1..];
  }

  /** A loop step: e went out (or not) after done, with rest still to come. */
  lemma StepDone(k: Sink, k1: Sink, k2: Sink, ok: bool, legal: bool, done: seq<Byte>, e: seq<Byte>, legalRest: bool,
                 rest: seq<Byte>)
    requires Outcome(k, k1, true, true, done) && Outcome(k1, k2, ok, legal, e)
    ensures Sound(k2)
    ensures ok ==> legal && Outcome(k, k2, true, true, done + e) && done + e + rest == done + (e + rest)
    ensures !ok ==> Outcome(k, k2, false, legal && legalRest, done + (e + rest))
  {
    OutcomeSound(k1, k2, ok, legal, e);
    if ok { Succeeded(k1, k2, legal, e); }
    hide Outcome;
    if ok {
      Chain(k, k1, k2, true, done, true, true, e);
      Assoc(done, e, rest);
    } else {
      Stopped(k1, k2, legal, e, legalRest, rest);
      Chain(k, k1, k2, true, done, false, legal && legalRest, e + rest);
    }
  }

  lemma Begun(k: Sink, e: seq<Byte>)
    requires Sound(k)
    ensures Outcome(k, k, true, true, []) && [] + e == e
  {
    NothingWritten(k);
  }

  lemma Ended(done: seq<Byte>, rest: seq<Byte>, e: seq<Byte>)
    requires done + rest == e && rest == []
    ensures done == e
  {
  }

  lemma Succeeded(k: Sink, k': Sink, legal: bool, e: seq<Byte>)
    requires Outcome(k, k', true, legal, e)
    ensures legal && Outcome(k, k', true, true, e)
  {
  }

  lemma OutcomeSound(k: Sink, k': Sink, ok: bool, legal: bool, e: seq<Byte>)
    requires Outcome(k, k', ok, legal, e)
    ensures Sound(k')
  {
  }

  lemma Suffixes<T>(items: seq<T>)
    ensures items[0..] == items && items[|items|..] == []
  {
  }

  lemma {:induction false} CItemAt(f: Field, items: seq<Value>, i: nat)
    requires CItems(f, items) && i < |items|
    ensures CValue(f, items[i])
    decreases i
  {
    hide CValue;
    if i > 0 { CItemAt(f, items[1..], i - 1); }
  }

  /** The element loop of a packed array, used for the sizing pass and for the writing pass. */
  method PutPackedItems(stream: OStream, f: Field, items: seq<Value>) returns (ok: bool)
    requires stream.Valid() && Packable(f.kind) && CItems(f, items)
    modifies stream, stream.Memory()
    ensures Outcome(old(stream.State()), stream.State(), ok, true, EncPacked(f.kind, items))
  {
    hide Outcome, EncInt, EncPacked, CItems, InRange;
    ghost var k, done: seq<Byte> := stream.State(), [];
    Suffixes(items);
    Begun(k, EncPacked(f.kind, items));
    for i := 0 to |items|
      invariant stream.Valid() && Outcome(k, stream.State(), true, true, done)
      invariant done + EncPacked(f.kind, items[i..]) == EncPacked(f.kind, items)
    {
      ghost var k1 := stream.State();
      CItemAt(f, items, i);
      PackedItemAt(f.kind, items, i);
      ok := PutInt(stream, f, items[i].i);
      ghost var e, rest := EncInt(f.kind, items[i].i), EncPacked(f.kind, items[i + 1..]);
      StepDone(k, k1, stream.State(), ok, true, done, e, true, rest);
      if !ok {
        return;
      }
      done := done + e;
    }
    EmptyArray(f);
    Ended(done, EncPacked(f.kind, items[|items|..]), EncPacked(f.kind, items));
    return true;
  }

  lemma {:induction false} FixedSize(k: Kind, items: seq<Value>)
    requires k.Fixed32? || k.Fixed64?
    ensures |EncPacked(k, items)| == (if k.Fixed32? then 4 else 8) * |items|
  {
    if items != [] { FixedSize(k, items[1..]); }
  }

  /** The size of a packed array: computed for fixed-size elements, else by a sizing pass. */
  method PackedSize(f: Field, items: seq<Value>) returns (size: nat)
    requires Packable(f.kind) && CItems(f, items)
    ensures size == |EncPacked(f.kind, items)|
  {
    hide CItems, EncInt, EncPacked, After;
    FixedSizeOf(f.kind, items);
    if f.kind.Fixed32? {
      return 4 * |items|;
    } else if f.kind.Fixed64? {
      return 8 * |items|;
    }
    var sizestream := new OStream.Sizing();
    ghost var k := sizestream.State();
    var ok := PutPackedItems(sizestream, f, items);
    Counted(k, sizestream.State(), ok, true, EncPacked(f.kind, items));
    return sizestream.bytesWritten;
  }

  lemma FixedSizeOf(k: Kind, items: seq<Value>)
    ensures k.Fixed32? ==> |EncPacked(k, items)| == 4 * |items|
    ensures k.Fixed64? ==> |EncPacked(k, items)| == 8 * |items|
  {
    if k.Fixed32? || k.Fixed64? { FixedSize(k, items); }
  }

  /** A counting stream never fills up. */
  lemma Counted(k: Sink, k': Sink, ok: bool, legal: bool, e: seq<Byte>)
    requires Outcome(k, k', ok, legal, e) && k.counting
    ensures ok == legal
    ensures ok ==> k' == k.(written := k.written + |e|)
  {
  }

  /** The packed branch of encode_array. */
  method PutPackedArray(stream: OStream, f: Field, items: seq<Value>) returns (ok: bool)
    requires stream.Valid() && Packable(f.kind) && CItems(f, items) && f.tag < U32
    requires |EncPacked(f.kind, items)| < U64
    modifies stream, stream.Memory()
    ensures Outcome(old(stream.State()), stream.State(), ok, true,
        EncPackedTag(f) + EncLengthPrefixed(EncPacked(f.kind, items)))
  {
    hide CItems, EncPacked, After, Confined, Accepts, Outcome, V.EncodeVarint;
    ghost var k, body := stream.State(), EncPacked(f.kind, items);
    ghost var tag, len := V.EncodeVarint(8 * f.tag + 2), V.EncodeVarint(|body|);
    ok := PutTag(stream, 2, f.tag);
    ghost var k1 := stream.State();
    if !ok {
      Stopped(k, k1, true, tag, true, len + body);
      return;
    }
    OutcomeSound(k, k1, true, true, tag);
    var size := PackedSize(f, items);
    ok := PutVarint(stream, size);
    ghost var k2 := stream.State();
    if !ok {
      Stopped(k1, k2, true, len, true, body);
      Chain(k, k1, k2, true, tag, false, true, len + body);
      return;
    }
    OutcomeSound(k1, k2, true, true, len);
    if stream.buf == null {
      ok := stream.Count(body, size);
      Wrote(k2, stream.State(), ok, body) by { CountingAccepts(k2, body); }
    } else {
      ok := PutPackedItems(stream, f, items);
    }
    Chain(k1, k2, stream.State(), true, len, ok, true, body);
    Chain(k, k1, stream.State(), true, tag, ok, true, len + body);
  }

  lemma CountingAccepts(k: Sink, e: seq<Byte>)
    requires k.counting
    ensures Accepts(k, |e|)
  {
  }

  // ---- presence ----

  /** pb_check_proto3_default_value */
  method CheckDefault(f: Field, m: Message, i: nat) returns (isDefault: bool)
    ensures isDefault == IsDefault(f, m, i)
    decreases f
  {
    match f.rule {
      case Required => return false;
      case Repeated => return |ItemsOf(SlotAt(m, i))| == 0;
      case OneOf(g) => return Which(m, g) == 0;
      case Optional => return SlotAt(m, i).Opt? && !SlotAt(m, i).has;
      case Implicit =>
        var v := CurOf(SlotAt(m, i));
        match f.kind {
          case Bytes => return |BytesOf(v)| == 0;
          case Str => return |BytesOf(v)| == 0;
          case FixedBytes => return f.dataSize == 0;
          case Sub(fs) =>
            for j := 0 to |fs|
              invariant forall n :: 0 <= n < j ==> IsDefault(fs[n], MsgOf(v), n)
            {
              var d := CheckDefault(fs[j], MsgOf(v), j);
              if !d {
                return false;
              }
            }
            return true;
          case _ => return IntOf(v) == 0;
        }
    }
  }

  // ---- fields, messages, submessages ----

  /** The encoder that PB_ENCODERS selects. */
  method PutValue(stream: OStream, f: Field, v: Value) returns (ok: bool)
    requires stream.Valid() && WellFormedField(f) && CValue(f, v)
    modifies stream, stream.Memory()
    ensures Outcome(old(stream.State()), stream.State(), ok, EncodableValue(f, v), EncValue(f, v))
    decreases f, 0
  {
    hide Outcome, EncInt, EncLengthPrefixed, EncFrom, Encodable, CMessage, WellFormed, InRange, SizeRange;
    match f.kind {
      case Sub(fs) => ok := PutSubmessage(stream, fs, v.m);
      case Bytes =>
        if AllocSize(|v.b|) > f.dataSize {
          Refused(stream.State(), EncValue(f, v));
          return false;
        }
        ok := PutString(stream, v.b);
      case Str => ok := PutString(stream, v.b);
      case FixedBytes => ok := PutString(stream, v.b);
      case _ => ok := PutInt(stream, f, v.i);
    }
  }

  lemma {:induction false} EncodableItemAt(f: Field, items: seq<Value>, i: nat)
    requires i < |items|
    ensures EncodableItems(f, items[i..]) == (EncodableValue(f, items[i]) && EncodableItems(f, items[i + 1..]))
    ensures EncUnpacked(f, items[i..]) == EncTag(f) + EncValue(f, items[i]) + EncUnpacked(f, items[i + 1..])
  {
    hide EncodableValue, EncValue, EncTag;
    assert items[i..][0] == items[i] && items[i..][1..] == items[i + 1..];
  }

  /** One element of an array that is not packed: tag and value. */
  method PutTagged(stream: OStream, f: Field, v: Value) returns (ok: bool)
    requires stream.Valid() && WellFormedField(f) && CValue(f, v)
    modifies stream, stream.Memory()
    ensures Outcome(old(stream.State()), stream.State(), ok, EncodableValue(f, v), EncTag(f) + EncValue(f, v))
    decreases f, 1
  {
    hide Outcome, EncValue, EncTag, EncodableValue, CValue, WellFormed;
    ghost var k, e := stream.State(), EncValue(f, v);
    ok := PutTagForField(stream, f);
    ghost var k1 := stream.State();
    if !ok {
      Stopped(k, k1, true, EncTag(f), EncodableValue(f, v), e);
      return;
    }
    OutcomeSound(k, k1, true, true, EncTag(f));
    ok := PutValue(stream, f, v);
    Chain(k, k1, stream.State(), true, EncTag(f), ok, EncodableValue(f, v), e);
  }

  /** The unpacked branch of encode_array. */
  method PutUnpacked(stream: OStream, f: Field, items: seq<Value>) returns (ok: bool)
    requires stream.Valid() && WellFormedField(f) && CItems(f, items)
    modifies stream, stream.Memory()
    ensures Outcome(old(stream.State()), stream.State(), ok, EncodableItems(f, items), EncUnpacked(f, items))
    decreases f, 2
  {
    hide Outcome, EncValue, EncTag, EncodableValue, EncodableItems, EncUnpacked, CValue, CItems, WellFormedField;
    ghost var k, done: seq<Byte> := stream.State(), [];
    Suffixes(items);
    Begun(k, EncUnpacked(f, items));
    for i := 0 to |items|
      invariant stream.Valid() && Outcome(k, stream.State(), true, true, done)
      invariant done + EncUnpacked(f, items[i..]) == EncUnpacked(f, items)
      invariant EncodableItems(f, items) == EncodableItems(f, items[i..])
    {
      ghost var k1 := stream.State();
      CItemAt(f, items, i);
      EncodableItemAt(f, items, i);
      ok := PutTagged(stream, f, items[i]);
      ghost var e, rest := EncTag(f) + EncValue(f, items[i]), EncUnpacked(f, items[i + 1..]);
      StepDone(k, k1, stream.State(), ok, EncodableValue(f, items[i]), done, e, EncodableItems(f, items[i + 1..]),
          rest);
      if !ok {
        return;
      }
      done := done + e;
    }
    EmptyItems(f, items[|items|..]);
    Ended(done, EncUnpacked(f, items[|items|..]), EncUnpacked(f, items));
    return true;
  }

  lemma EmptyItems(f: Field, items: seq<Value>)
    requires items == []
    ensures EncUnpacked(f, items) == [] && EncodableItems(f, items)
  {
  }

  /** encode_array */
  method PutArray(stream: OStream, f: Field, items: seq<Value>) returns (ok: bool)
    requires stream.Valid() && WellFormedField(f) && CItems(f, items)
    requires Packable(f.kind) ==> |EncPacked(f.kind, items)| < U64
    modifies stream, stream.Memory()
    ensures Outcome(old(stream.State()), stream.State(), ok, ArrayLegal(f, items), EncArray(f, items))
    decreases f, 3
  {
    hide Outcome, EncPacked, EncPackedTag, EncUnpacked, EncLengthPrefixed, CItems, EncodableItems, WellFormed;
    ghost var k := stream.State();
    if |items| == 0 {
      NothingWritten(k);
      return true;
    }
    if |items| > f.arraySize {
      Refused(k, EncArray(f, items));
      return false;
    }
    if Packable(f.kind) {
      PackableEncodable(f, items);
      ok := PutPackedArray(stream, f, items);
    } else {
      ok := PutUnpacked(stream, f, items);
    }
  }

  predicate ArrayLegal(f: Field, items: seq<Value>)
  {
    items != [] ==> |items| <= f.arraySize && EncodableItems(f, items)
  }

  function EncArray(f: Field, items: seq<Value>): seq<Byte>
  {
    if items == [] then []
    else if Packable(f.kind) then EncPackedTag(f) + EncLengthPrefixed(EncPacked(f.kind, items))
    else EncUnpacked(f, items)
  }

  lemma {:induction false} PackableEncodable(f: Field, items: seq<Value>)
    requires Packable(f.kind)
    ensures EncodableItems(f, items)
  {
    if items != [] { PackableEncodable(f, items[1..]); }
  }

  /** encode_basic_field */
  method PutField(stream: OStream, f: Field, m: Message, i: nat) returns (ok: bool)
    requires stream.Valid() && WellFormedField(f) && CField(f, m, i)
    modifies stream, stream.Memory()
    ensures Outcome(old(stream.State()), stream.State(), ok, EncodableField(f, m, i), EncField(f, m, i))
    decreases f, 4
  {
    hide Outcome, EncPacked, EncPackedTag, EncUnpacked, EncTag, EncValue, EncLengthPrefixed, CItems, CValue,
         EncodableItems, EncodableValue, WellFormed, IsDefault;
    var slot := SlotAt(m, i);
    var present: bool;
    match f.rule {
      case Required => present := true;
      case Optional => present := slot.Opt? && slot.has;
      case Implicit =>
        var isDefault := CheckDefault(f, m, i);
        present := !isDefault;
      case Repeated =>
        ok := PutArrayField(stream, f, m, i);
        return;
      case OneOf(g) => present := Which(m, g) == f.tag;
    }
    if present {
      ok := PutTagged(stream, f, CurOf(slot));
    } else {
      NothingWritten(stream.State());
      return true;
    }
  }

  method PutArrayField(stream: OStream, f: Field, m: Message, i: nat) returns (ok: bool)
    requires stream.Valid() && WellFormedField(f) && CField(f, m, i) && f.rule.Repeated?
    modifies stream, stream.Memory()
    ensures Outcome(old(stream.State()), stream.State(), ok, EncodableField(f, m, i), EncField(f, m, i))
    decreases f, 4, 0
  {
    hide Outcome, EncPacked, EncPackedTag, EncUnpacked, EncTag, EncValue, EncLengthPrefixed, CItems, CValue,
         EncodableItems, EncodableValue, WellFormed, IsDefault;
    var items := ItemsOf(SlotAt(m, i));
    EmptyArray(f);
    ok := PutArray(stream, f, items);
  }

  lemma EmptyArray(f: Field)
    ensures CItems(f, []) && EncPacked(f.kind, []) == []
  {
  }

  lemma MessageEntry(fields: seq<Field>, m: Message, i: nat)
    requires i < |fields| && CMessage(fields, m)
    ensures CField(fields[i], m, i)
  {
    hide CField;
  }

  /** No encoder error in entries i, i+1, ... */
  predicate EncodableFrom(fields: seq<Field>, i: nat, m: Message)
  {
    forall j :: i <= j < |fields| ==> EncodableField(fields[j], m, j)
  }

  lemma EncodableStep(fields: seq<Field>, i: nat, m: Message)
    requires i < |fields|
    ensures EncodableFrom(fields, i, m) == (EncodableField(fields[i], m, i) && EncodableFrom(fields, i + 1, m))
    ensures Encodable(fields, m) == EncodableFrom(fields, 0, m)
  {
    hide EncodableField;
  }

  /** pb_encode */
  method PutMessage(stream: OStream, fields: seq<Field>, m: Message) returns (ok: bool)
    requires stream.Valid() && WellFormed(fields) && CMessage(fields, m)
    modifies stream, stream.Memory()
    ensures Outcome(old(stream.State()), stream.State(), ok, Encodable(fields, m), Encode(fields, m))
    decreases fields, 0
  {
    hide Outcome, EncFrom, EncField, Encodable, EncodableField, EncodableFrom, CField, WellFormed, WellFormedField,
         CMessage, DataAt, SizeAt;
    ghost var k := stream.State();
    ghost var done: seq<Byte> := [];
    var iter := new FieldIter(fields, 0);
    var more := iter.Begin();
    StartOfMessage(k, fields, m);
    ghost var n := 0;
    while more
      invariant iter.Valid() && fresh(iter) && iter.fields == fields
      invariant if more then n == iter.pos < |fields| else n == |fields|
      invariant stream.Valid() && Outcome(k, stream.State(), true, true, done)
      invariant done + EncFrom(fields, n, m) == Encode(fields, m)
      invariant Encodable(fields, m) == EncodableFrom(fields, n, m)
      decreases |fields| - n
    {
      ghost var k1 := stream.State();
      TableField(fields, n);
      MessageEntry(fields, m, n);
      ok := PutField(stream, iter.fields[iter.pos], m, iter.pos);
      FieldDone(k, k1, stream.State(), ok, fields, m, n, done);
      if !ok {
        return;
      }
      done := done + EncField(fields[n], m, n);
      n := n + 1;
      more := iter.Next();
    }
    AtEnd(fields, m, done);
    return true;
  }

  lemma StartOfMessage(k: Sink, fields: seq<Field>, m: Message)
    requires Sound(k)
    ensures Outcome(k, k, true, true, [])
    ensures [] + EncFrom(fields, 0, m) == Encode(fields, m)
    ensures Encodable(fields, m) == EncodableFrom(fields, 0, m)
  {
    hide Outcome, EncField, EncodableField;
    NothingWritten(k);
  }

  /** The loop step of pb_encode: entry n after the entries before it. */
  lemma FieldDone(k: Sink, k1: Sink, k2: Sink, ok: bool, fields: seq<Field>, m: Message, n: nat, done: seq<Byte>)
    requires n < |fields|
    requires Outcome(k, k1, true, true, done) && done + EncFrom(fields, n, m) == Encode(fields, m)
    requires Encodable(fields, m) == EncodableFrom(fields, n, m)
    requires Outcome(k1, k2, ok, EncodableField(fields[n], m, n), EncField(fields[n], m, n))
    ensures Sound(k2)
    ensures !ok ==> Outcome(k, k2, false, Encodable(fields, m), Encode(fields, m))
    ensures ok ==>
      && Outcome(k, k2, true, true, done + EncField(fields[n], m, n))
      && done + EncField(fields[n], m, n) + EncFrom(fields, n + 1, m) == Encode(fields, m)
      && Encodable(fields, m) == EncodableFrom(fields, n + 1, m)
  {
    EncodableStep(fields, n, m);
    EntrySplit(fields, m, n);
    hide Outcome, EncFrom, EncField, Encodable, EncodableField, EncodableFrom;
    StepDone(k, k1, k2, ok, EncodableField(fields[n], m, n), done, EncField(fields[n], m, n),
             EncodableFrom(fields, n + 1, m), EncFrom(fields, n + 1, m));
  }

  lemma EntrySplit(fields: seq<Field>, m: Message, i: nat)
    requires i < |fields|
    ensures EncFrom(fields, i, m) == EncField(fields[i], m, i) + EncFrom(fields, i + 1, m)
  {
    hide EncField;
  }

  lemma AtEnd(fields: seq<Field>, m: Message, done: seq<Byte>)
    requires done + EncFrom(fields, |fields|, m) == Encode(fields, m)
    ensures done == Encode(fields, m) && EncodableFrom(fields, |fields|, m)
  {
    assert done + [] == done;
  }

  /** pb_encode_submessage: size first, then write through a substream of exactly that size. */
  method PutSubmessage(stream: OStream, fields: seq<Field>, m: Message) returns (ok: bool)
    requires stream.Valid() && WellFormed(fields) && CMessage(fields, m) && |Encode(fields, m)| < U64
    modifies stream, stream.Memory()
    ensures Outcome(old(stream.State()), stream.State(), ok, Encodable(fields, m), EncLengthPrefixed(Encode(fields, m)))
    decreases fields, 2
  {
    hide Outcome, Encode, Encodable, CMessage, WellFormed, V.EncodeVarint, Accepts, After, Confined;
    ghost var k, body := stream.State(), Encode(fields, m);
    ghost var len := V.EncodeVarint(|body|);
    var size: nat;
    ok, size := EncodedSize(fields, m);
    if !ok {
      Refused(k, len + body);
      return;
    }
    ok := PutVarint(stream, size);
    ghost var k1 := stream.State();
    if !ok {
      Stopped(k, k1, true, len, true, body);
      return;
    }
    OutcomeSound(k, k1, true, true, len);
    if stream.buf == null {
      ok := stream.Count(body, size);
      Wrote(k1, stream.State(), ok, body) by { CountingAccepts(k1, body); }
    } else {
      ok := PutSized(stream, fields, m, size);
    }
    Chain(k, k1, stream.State(), true, len, ok, true, body);
  }

  /** The writing pass. "submsg size changed" cannot happen: the result is decided by the room left. */
  method PutSized(stream: OStream, fields: seq<Field>, m: Message, size: nat) returns (ok: bool)
    requires stream.Valid() && stream.buf != null
    requires WellFormed(fields) && CMessage(fields, m) && Encodable(fields, m) && size == |Encode(fields, m)|
    modifies stream, stream.Memory()
    ensures Outcome(old(stream.State()), stream.State(), ok, true, Encode(fields, m))
    decreases fields, 1
  {
    hide Encode, Encodable, CMessage, WellFormed;
    ghost var k, body := stream.State(), Encode(fields, m);
    if stream.bytesWritten + size > stream.maxSize {
      return false;
    }
    var substream := new OStream.Substream(stream.buf, stream.state, size);
    ghost var s := substream.State();
    var status := PutMessage(substream, fields, m);
    stream.bytesWritten := stream.bytesWritten + substream.bytesWritten;
    stream.state := substream.state;
    assert substream.bytesWritten == size; // "submsg size changed" is unreachable
    ok := status;
    AfterIsSound(k, body);
  }

  /** pb_get_encoded_size */
  method EncodedSize(fields: seq<Field>, m: Message) returns (ok: bool, size: nat)
    requires WellFormed(fields) && CMessage(fields, m)
    ensures ok == Encodable(fields, m)
    ensures ok ==> size == |Encode(fields, m)|
    decreases fields, 1
  {
    hide Encode, Encodable, CMessage, WellFormed, After;
    var stream := new OStream.Sizing();
    ghost var k := stream.State();
    ok := PutMessage(stream, fields, m);
    size := stream.bytesWritten;
    Counted(k, stream.State(), ok, Encodable(fields, m), Encode(fields, m));
  }

  /** pb_encode into a caller's buffer of capacity n: it succeeds iff the sizing pass does with a size
      of at most n, and then the buffer starts with exactly the encoding and is otherwise untouched. */
  method EncodeToBuffer(buf: array<Byte>, fields: seq<Field>, m: Message) returns (ok: bool, n: nat)
    requires WellFormed(fields) && CMessage(fields, m)
    modifies buf
    ensures ok == (Encodable(fields, m) && |Encode(fields, m)| <= buf.Length)
    ensures ok ==> n == |Encode(fields, m)| && buf[..] == Encode(fields, m) + old(buf[n..])
  {
    hide Encode, Encodable, CMessage, WellFormed;
    var stream := new OStream.FromBuffer(buf);
    ghost var was := buf[..];
    ok := PutMessage(stream, fields, m);
    n := stream.bytesWritten;
    if ok {
      assert was[..0] == [];
    }
  }

  /** pb_encode_delimited */
  method EncodeDelimitedTo(stream: OStream, fields: seq<Field>, m: Message) returns (ok: bool)
    requires stream.Valid() && WellFormed(fields) && CMessage(fields, m) && |Encode(fields, m)| < U64
    modifies stream, stream.Memory()
    ensures Outcome(old(stream.State()), stream.State(), ok, Encodable(fields, m), EncLengthPrefixed(Encode(fields, m)))
  {
    ok := PutSubmessage(stream, fields, m);
  }

  /** pb_encode_nullterminated */
  method EncodeNullTerminated(stream: OStream, fields: seq<Field>, m: Message) returns (ok: bool)
    requires stream.Valid() && WellFormed(fields) && CMessage(fields, m)
    modifies stream, stream.Memory()
    ensures Outcome(old(stream.State()), stream.State(), ok, Encodable(fields, m), Encode(fields, m) + [0])
  {
    hide Outcome, Encode, Encodable, CMessage, WellFormed;
    ghost var k := stream.State();
    ok := PutMessage(stream, fields, m);
    ghost var k1 := stream.State();
    if !ok {
      Stopped(k, k1, Encodable(fields, m), Encode(fields, m), true, [0]);
      return;
    }
    OutcomeSound(k, k1, true, Encodable(fields, m), Encode(fields, m));
    ok := PutBytes(stream, [0]);
    Chain(k, k1, stream.State(), Encodable(fields, m), Encode(fields, m), ok, true, [0]);
  }
}
