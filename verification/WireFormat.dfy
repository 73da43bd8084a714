/** The wire format in its own terms: the bytes of each kind of field, what is accepted of each, and the
    Protocol Buffers rules for fields that come more than once. */
module WireFormat {
  import opened Common
  import opened Varint
  import opened Schema
  import opened Encoding
  import opened Decoding
  import opened Streaming
  import opened Scalars
  import opened Merging
  import opened RoundTrip
  import opened Wire

  // ---- varints and tags, byte by byte ----

  /** Byte k of a varint holds bits 7k to 7k + 6, and its top bit says that another byte follows. */
  lemma {:induction false} VarintByte(v: nat, k: nat)
    requires k < |EncodeVarint(v)|
    ensures Pow(128, k) > 0 && EncodeVarint(v)[k] % 128 == v / Pow(128, k) % 128
    ensures EncodeVarint(v)[k] >= 128 <==> k + 1 < |EncodeVarint(v)|
  {
    PowZero(128);
    PowPositive(128, k);
    if v >= 128 && k > 0 {
      PowPositive(128, k - 1);
      VarintByte(v / 128, k - 1);
      PowStep(128, k - 1);
      DivTwice(v, 128, Pow(128, k - 1));
      assert EncodeVarint(v)[k] == EncodeVarint(v / 128)[k - 1];
    }
  }

  lemma DivTwice(v: nat, a: nat, b: nat)
    requires a > 0 && b > 0
    ensures a * b > 0 && v / a / b == v / (a * b)
  {
    var q, r := v / a / b, v / a % b;
    DivSplit(v, a);
    DivSplit(v / a, b);
    MulAssoc(q, b, a);
    MulDistributes(q * b, r, a);
    assert v == q * (b * a) + (r * a + v % a);
    MulGap(a, b, r);
    Quotient(v, b * a, q, r * a + v % a);
  }

  lemma Quotient(v: nat, b: nat, q: nat, r: nat)
    requires r < b && v == q * b + r
    ensures v / b == q
  {
    DivSplit(v, b);
    MulGap(b, q, v / b);
    MulGap(b, v / b, q);
  }

  /** The number that the groups of a varint make up, however long it is */
  function Groups(b: seq<Byte>): nat
  {
    if b == [] then 0 else b[0] % 128 + 128 * Groups(b[1..])
  }

  lemma {:induction false} CompleteFrom(b: seq<Byte>, t: seq<Byte>, k: nat, acc: nat)
    requires IsVarint(b) && k <= 10
    ensures DecodeVarintFrom(b + t, k, acc % U64)
         == if k + |b| <= 10 then Good((acc + Shl7(Groups(b), k)) % U64, t) else Bad
    decreases |b|
  {
    hide Shl7, NextAcc64, DecodeVarintFrom;
    var s := b + t;
    assert s[1..] == b[1..] + t;
    if k == 10 {
      TooLong(s, acc % U64);
    } else {
      Step64(s, k, acc % U64);
      NextModulo(b[0] % 128, k, acc);
      if |b| == 1 {
        assert b[1..] == [] && Groups(b) == b[0] % 128;
      } else {
        Shl7Add(b[0] % 128, 128 * Groups(b[1..]), k);
        Shl7Group(Groups(b[1..]), k);
        CompleteFrom(b[1..], t, k + 1, acc + Shl7(b[0] % 128, k));
      }
    }
  }

  lemma TooLong(s: seq<Byte>, acc: nat)
    ensures DecodeVarintFrom(s, 10, acc) == Bad
  {
  }

  lemma NextModulo(low: nat, k: nat, acc: nat)
    ensures NextAcc64(low, k, acc % U64) == (acc + Shl7(low, k)) % U64
  {
    hide Shl7;
    var x := Shl7(low, k);
    assert (acc % U64 + x) % U64 == (acc + x) % U64;
  }

  /** The 64-bit decoder on any complete varint, canonical or not: at most ten bytes are accepted, and the
      number is taken modulo 2^64. */
  lemma CompleteVarint(b: seq<Byte>, t: seq<Byte>)
    requires IsVarint(b)
    ensures DecodeVarint(b + t) == if |b| <= 10 then Good(Groups(b) % U64, t) else Bad
  {
    CompleteFrom(b, t, 0, 0);
    Shl7AtZero(Groups(b));
    hide DecodeVarintFrom, IsVarint, Groups;
  }

  /** The tags of the first fifteen fields are one byte: eight times the number and the wire type, which
      is 0 for varints, 1 for eight bytes, 5 for four bytes and 2 for everything with a length. */
  lemma TagByte(f: Field)
    requires 1 <= f.tag <= 15
    ensures f.kind.VarInt? || f.kind.UVarInt? || f.kind.SVarInt? ==> EncTag(f) == [8 * f.tag]
    ensures f.kind.Fixed64? ==> EncTag(f) == [8 * f.tag + 1]
    ensures f.kind.Fixed32? ==> EncTag(f) == [8 * f.tag + 5]
    ensures f.kind.Bytes? || f.kind.Str? || f.kind.FixedBytes? || f.kind.Sub? ==> EncTag(f) == [8 * f.tag + 2]
    ensures EncPackedTag(f) == [8 * f.tag + 2]
  {
  }

  // ---- which numbers are accepted ----

  /** The C types of dataSize bytes: int8_t, int16_t, int32_t, int64_t and their unsigned kin. */
  predicate IntN(n: nat, i: int)
  {
    match n
    case 1 => -0x80 <= i < 0x80
    case 2 => -0x8000 <= i < 0x8000
    case 4 => -0x8000_0000 <= i < 0x8000_0000
    case _ => -0x8000_0000_0000_0000 <= i < 0x8000_0000_0000_0000
  }

  predicate UIntN(n: nat, i: int)
  {
    match n
    case 1 => 0 <= i < 0x100
    case 2 => 0 <= i < 0x1_0000
    case 4 => 0 <= i < 0x1_0000_0000
    case _ => 0 <= i < 0x1_0000_0000_0000_0000
  }

  /** A varint is an int64 by its low 64 bits and a smaller signed type by its low 32 bits, whether those
      were sent as five bytes or, sign-extended, as ten; it is refused when the type cannot hold it. */
  lemma SignedAcceptedExactly(n: nat, v: nat, t: seq<Byte>, i: int)
    requires n in {1, 2, 4, 8} && v < U64
    ensures DecInt(VarInt, n, EncodeVarint(v) + t) == Good(i, t)
       <==> IntN(n, i) && (if n == 8 then v == i || v == i + U64
                           else v % U32 == i || v % U32 == i + U32)
  {
    hide EncodeVarint, DecodeVarint;
    DecodeEncodedVarint(v, t);
    var c := Cast(VarInt, n, v);
    assert InRange(VarInt, n, c) <==> IntN(n, c);
  }

  lemma UnsignedAcceptedExactly(n: nat, v: nat, t: seq<Byte>, i: int)
    requires n in {1, 2, 4, 8} && v < U64
    ensures DecInt(UVarInt, n, EncodeVarint(v) + t) == Good(i, t) <==> UIntN(n, i) && v == i
  {
    hide EncodeVarint, DecodeVarint;
    DecodeEncodedVarint(v, t);
  }

  /** Zigzag: 0, -1, 1, -2, ... are sent as 0, 1, 2, 3, ... */
  lemma ZigZagAcceptedExactly(n: nat, v: nat, t: seq<Byte>, i: int)
    requires n in {1, 2, 4, 8} && v < U64
    ensures DecInt(SVarInt, n, EncodeVarint(v) + t) == Good(i, t)
       <==> IntN(n, i) && v == if i < 0 then -2 * i - 1 else 2 * i
  {
    hide EncodeVarint, DecodeVarint, IntN, InRange, UnZigZag, Cast;
    DecodeEncodedVarint(v, t);
    ZigZagOnly(v, i);
    SVarIntRange(n, v);
  }

  lemma SVarIntRange(n: nat, v: nat)
    requires n in {1, 2, 4, 8} && v < U64
    ensures Cast(SVarInt, n, v) == UnZigZag(v)
    ensures forall c :: InRange(SVarInt, n, c) <==> IntN(n, c)
    ensures forall c :: IntN(n, c) ==> -0x8000_0000_0000_0000 <= c < 0x8000_0000_0000_0000
  {
  }

  lemma ZigZagOnly(v: nat, i: int)
    requires v < U64
    ensures -0x8000_0000_0000_0000 <= i < 0x8000_0000_0000_0000 ==>
              (UnZigZag(v) == i <==> v == if i < 0 then -2 * i - 1 else 2 * i)
    ensures -0x8000_0000_0000_0000 <= UnZigZag(v) < 0x8000_0000_0000_0000
  {
    UnZigZagRoundTrip(v);
    if -0x8000_0000_0000_0000 <= i < 0x8000_0000_0000_0000 { ZigZagRoundTrip(i); }
    hide UnZigZag, ZigZag;
  }

  /** Negative numbers of any signed type go out as the ten-byte varint of their 64-bit form. */
  lemma NegativeInt(i: int)
    requires -0x8000_0000_0000_0000 <= i < 0
    ensures EncInt(VarInt, i) == EncodeVarint(i + U64) && |EncInt(VarInt, i)| == 10
  {
    hide EncodeVarint;
    assert i % U64 == i + U64;
    DecodeEncodedVarint(i + U64, []);
    TenBytes(i + U64);
  }

  lemma {:induction false} LongAtLeast(v: nat, k: nat)
    requires v >= Shl7(1, k)
    ensures |EncodeVarint(v)| >= k + 1
    decreases k
  {
    if k > 0 {
      Shl7Monotone(1, k);
      Shl7Values();
      LongAtLeast(v / 128, k - 1);
    }
  }

  lemma TenBytes(v: nat)
    requires v >= 0x8000_0000_0000_0000
    ensures |EncodeVarint(v)| >= 10
  {
    Shl7Values();
    LongAtLeast(v, 9);
  }

  // ---- which strings are accepted ----

  /** A bytes field takes what fits behind its pb_size_t count, and has it as sent. */
  lemma BytesAcceptedExactly(f: Field, b: seq<Byte>, t: seq<Byte>, cur: Value)
    requires f.kind.Bytes? && |b| < U32
    ensures DecValue(f, EncLengthPrefixed(b) + t, cur)
         == if |b| + SIZE_WIDTH <= f.dataSize && |b| <= PB_SIZE_MAX then Good(BytesV(b), t) else Bad
  {
    hide Delimited, EncLengthPrefixed;
    DelimitedRoundTrip(b, t);
  }

  /** A string field keeps a byte for the terminator; a NUL that was sent ends the C string early. */
  lemma StringAcceptedExactly(f: Field, b: seq<Byte>, t: seq<Byte>, cur: Value, n: nat)
    requires f.kind.Str? && |b| < U32
    requires n <= |b| && 0 !in b[..n] && (n < |b| ==> b[n] == 0)
    ensures DecValue(f, EncLengthPrefixed(b) + t, cur) == if |b| < f.dataSize then Good(BytesV(b[..n]), t) else Bad
  {
    hide Delimited, EncLengthPrefixed, UpToNul;
    DelimitedRoundTrip(b, t);
    CString(b, n);
  }

  lemma {:induction false} CString(b: seq<Byte>, n: nat)
    requires n <= |b| && 0 !in b[..n] && (n < |b| ==> b[n] == 0)
    ensures UpToNul(b) == b[..n]
  {
    if n > 0 {
      assert b[..n][0] == b[0] && b[..n][1..] == b[1..][..n - 1];
      assert forall x :: x in b[1..][..n - 1] ==> x in b[..n];
      CString(b[1..], n - 1);
    }
  }

  /** Fixed-length bytes take exactly their length, or nothing, which clears them. */
  lemma FixedBytesAcceptedExactly(f: Field, b: seq<Byte>, t: seq<Byte>, cur: Value)
    requires f.kind.FixedBytes? && |b| < U32 && f.dataSize <= PB_SIZE_MAX
    ensures DecValue(f, EncLengthPrefixed(b) + t, cur)
         == if b == [] then Good(BytesV(seq(f.dataSize, _ => 0)), t)
            else if |b| == f.dataSize then Good(BytesV(b), t) else Bad
  {
    hide Delimited, EncLengthPrefixed;
    DelimitedRoundTrip(b, t);
  }

  /** Groups and the wire types that do not exist cannot be skipped. */
  lemma OtherWireTypesFail(wt: nat, s: seq<Byte>)
    ensures wt !in {0, 1, 2, 5} ==> SkipField(wt, s) == Bad
  {
  }

  // ---- fields that come more than once ----

  /** One occurrence of entry i with value v */
  function Sent(fields: seq<Field>, i: nat, v: Value): seq<Byte>
    requires i < |fields|
  {
    EncTag(fields[i]) + EncValue(fields[i], v)
  }

  lemma StoreTwice(f: Field, i: nat, m: Message, v: Value, w: Value)
    requires !f.rule.Repeated?
    ensures Store(f, i, Store(f, i, m, v), w) == Store(f, i, m, w)
  {
    var n, k := Store(f, i, Store(f, i, m, v), w), Store(f, i, m, w);
    assert n.slots == k.slots;
    assert n.which == k.which;
  }

  lemma MarkTwice(fields: seq<Field>, i: nat, seen: set<nat>)
    requires i < |fields|
    ensures Mark(fields, i, Mark(fields, i, seen)) == Mark(fields, i, seen)
  {
  }

  lemma ScalarMerge(f: Field, cur: Value, v: Value)
    requires !f.kind.Sub?
    ensures MergeValue(f, cur, v) == v && RoomValue(f, cur, v)
  {
  }

  /** Of two occurrences of a number, string or byte array, and of a oneof member of any kind, the last one
      counts: the first might as well not have been sent. */
  lemma LastOneWins(fields: seq<Field>, i: nat, v: Value, w: Value, m: Message, seen: set<nat>, t: seq<Byte>)
    requires WellFormed(fields) && i < |fields| && !fields[i].rule.Repeated?
    requires fields[i].rule.OneOf? || !fields[i].kind.Sub?
    requires ReadyValue(fields[i], v) && ReadyValue(fields[i], w)
    ensures DecodeLoop(fields, Sent(fields, i, v) + (Sent(fields, i, w) + t), m, seen)
         == DecodeLoop(fields, Sent(fields, i, w) + t, m, seen)
  {
    hide *;
    var f := fields[i];
    TableField(fields, i);
    SentIs(fields, i, v);
    SentIs(fields, i, w);
    BaseTwice(f, m, i, v, w);
    PlainMerge(fields, i, v, m, seen, Sent(fields, i, w) + t);
    PlainMerge(fields, i, w, Store(f, i, m, MergeValue(f, Base(f, m, i), v)), Mark(fields, i, seen), t);
    PlainMerge(fields, i, w, m, seen, t);
    MarkTwice(fields, i, seen);
  }

  lemma SentIs(fields: seq<Field>, i: nat, v: Value)
    requires i < |fields|
    ensures Sent(fields, i, v) == EncTag(fields[i]) + EncValue(fields[i], v)
  {
  }

  lemma BaseTwice(f: Field, m: Message, i: nat, v: Value, w: Value)
    requires WellFormedField(f) && !f.rule.Repeated? && (f.rule.OneOf? || !f.kind.Sub?)
    requires ReadyValue(f, v) && ReadyValue(f, w)
    ensures var m' := Store(f, i, m, MergeValue(f, Base(f, m, i), v));
            && RoomValue(f, Base(f, m, i), v) && RoomValue(f, Base(f, m, i), w) && RoomValue(f, Base(f, m', i), w)
            && Store(f, i, m', MergeValue(f, Base(f, m', i), w)) == Store(f, i, m, MergeValue(f, Base(f, m, i), w))
  {
    var m' := Store(f, i, m, MergeValue(f, Base(f, m, i), v));
    if f.kind.Sub? {
      RoomInit(f, v);
      RoomInit(f, w);
    } else {
      ScalarMerge(f, Base(f, m, i), v);
      ScalarMerge(f, Base(f, m, i), w);
      ScalarMerge(f, Base(f, m', i), w);
    }
    hide MergeValue, RoomValue, InitValue, WellFormedField, ReadyValue, Store;
    StoreTwice(f, i, m, MergeValue(f, Base(f, m, i), v), MergeValue(f, Base(f, m', i), w));
  }

  /** A submessage field with body b behind its tag */
  function SubSent(fields: seq<Field>, i: nat, b: seq<Byte>): seq<Byte>
    requires i < |fields|
  {
    EncTag(fields[i]) + EncLengthPrefixed(b)
  }

  lemma SubDecoded(fields: seq<Field>, i: nat, b: seq<Byte>, m: Message, seen: set<nat>, t: seq<Byte>)
    requires WellFormed(fields) && i < |fields| && fields[i].kind.Sub? && |b| < U32
    requires !fields[i].rule.Repeated? && !fields[i].rule.OneOf?
    requires DecodeNoInit(fields[i].kind.fields, b, MsgOf(CurOf(SlotAt(m, i)))).Good?
    ensures var r := DecodeNoInit(fields[i].kind.fields, b, MsgOf(CurOf(SlotAt(m, i)))).value;
            DecodeLoop(fields, SubSent(fields, i, b) + t, m, seen)
              == DecodeLoop(fields, t, Store(fields[i], i, m, MsgV(r)), Mark(fields, i, seen))
  {
    hide *;
    var f := fields[i];
    var r := DecodeNoInit(f.kind.fields, b, MsgOf(CurOf(SlotAt(m, i)))).value;
    SubFieldDecoded(f, i, b, m, t);
    SubSentIs(fields, i, b);
    OwnTag(fields, i, EncLengthPrefixed(b) + t, m, seen, Store(f, i, m, MsgV(r)), t);
    Assoc(EncTag(f), EncLengthPrefixed(b), t);
  }

  lemma SubSentIs(fields: seq<Field>, i: nat, b: seq<Byte>)
    requires i < |fields|
    ensures SubSent(fields, i, b) == EncTag(fields[i]) + EncLengthPrefixed(b)
  {
  }

  lemma SubFieldDecoded(f: Field, i: nat, b: seq<Byte>, m: Message, t: seq<Byte>)
    requires f.kind.Sub? && |b| < U32 && !f.rule.Repeated? && !f.rule.OneOf?
    requires DecodeNoInit(f.kind.fields, b, MsgOf(CurOf(SlotAt(m, i)))).Good?
    ensures var r := DecodeNoInit(f.kind.fields, b, MsgOf(CurOf(SlotAt(m, i)))).value;
            DecodeField(f, i, WireType(f.kind), EncLengthPrefixed(b) + t, m) == Good(Store(f, i, m, MsgV(r)), t)
  {
    hide DecodeNoInit, EncLengthPrefixed, Delimited, Store, DecPacked, InitValue, DecValue, SlotAt;
    DelimitedRoundTrip(b, t);
    SubDecValue(f, b, CurOf(SlotAt(m, i)), t);
  }

  lemma SubDecValue(f: Field, b: seq<Byte>, cur: Value, t: seq<Byte>)
    requires f.kind.Sub? && |b| < U32 && !f.rule.Repeated? && DecodeNoInit(f.kind.fields, b, MsgOf(cur)).Good?
    ensures DecValue(f, EncLengthPrefixed(b) + t, cur)
         == Good(MsgV(DecodeNoInit(f.kind.fields, b, MsgOf(cur)).value), t)
  {
    hide DecodeNoInit, EncLengthPrefixed, Delimited, Default;
    DelimitedRoundTrip(b, t);
  }

  /** Two occurrences of a submessage are one occurrence with their bodies joined. */
  lemma SubBodiesJoin(fields: seq<Field>, i: nat, b: seq<Byte>, c: seq<Byte>, m: Message, seen: set<nat>,
                      t: seq<Byte>)
    requires WellFormed(fields) && i < |fields| == |m.slots| && fields[i].kind.Sub? && |b| + |c| < U32
    requires !fields[i].rule.Repeated? && !fields[i].rule.OneOf?
    requires WholeFields(fields[i].kind.fields, b, MsgOf(CurOf(SlotAt(m, i))))
    requires DecodeNoInit(fields[i].kind.fields, c,
                          DecodeNoInit(fields[i].kind.fields, b, MsgOf(CurOf(SlotAt(m, i)))).value).Good?
    ensures DecodeLoop(fields, SubSent(fields, i, b) + (SubSent(fields, i, c) + t), m, seen)
         == DecodeLoop(fields, SubSent(fields, i, b + c) + t, m, seen)
  {
    hide DecodeLoop, WellFormed, Mark, SubSent, DecodeNoInit, RequiredSeen;
    var f, cur := fields[i], MsgOf(CurOf(SlotAt(m, i)));
    var fs := f.kind.fields;
    assert DecodeNoInit(fs, b, cur).Good?;
    var r := DecodeNoInit(fs, b, cur).value;
    var m' := Store(f, i, m, MsgV(r));
    ConcatenationIsMerge(fs, b, c, cur);
    SubDecoded(fields, i, b, m, seen, SubSent(fields, i, c) + t);
    SubDecoded(fields, i, c, m', Mark(fields, i, seen), t);
    SubDecoded(fields, i, b + c, m, seen, t);
    StoreTwice(f, i, m, MsgV(r), MsgV(DecodeNoInit(fs, c, r).value));
    MarkTwice(fields, i, seen);
  }

  // ---- packed arrays in pieces ----

  function PackedSent(fields: seq<Field>, i: nat, items: seq<Value>): seq<Byte>
    requires i < |fields|
  {
    EncPackedTag(fields[i]) + EncLengthPrefixed(EncPacked(fields[i].kind, items))
  }

  lemma {:induction false} ReadyJoin(f: Field, x: seq<Value>, y: seq<Value>)
    requires ReadyItems(f, x) && ReadyItems(f, y)
    ensures ReadyItems(f, x + y) && EncPacked(f.kind, x + y) == EncPacked(f.kind, x) + EncPacked(f.kind, y)
    decreases |x|
  {
    hide ReadyValue, EncInt;
    if x == [] {
      assert x + y == y;
    } else {
      assert (x + y)[1..] == x[1..] + y;
      ReadyJoin(f, x[1..], y);
    }
  }

  /** An array sent in two packed pieces is the array sent in one. */
  lemma PackedPiecesJoin(fields: seq<Field>, i: nat, x: seq<Value>, y: seq<Value>, m: Message, seen: set<nat>,
                         t: seq<Byte>)
    requires WellFormed(fields) && i < |fields| == |m.slots| && fields[i].rule.Repeated? && Packable(fields[i].kind)
    requires |ItemsOf(SlotAt(m, i))| + |x| + |y| <= fields[i].arraySize
    requires ReadyItems(fields[i], x) && ReadyItems(fields[i], y) && ShortArray(fields[i], x + y)
    ensures DecodeLoop(fields, PackedSent(fields, i, x) + (PackedSent(fields, i, y) + t), m, seen)
         == DecodeLoop(fields, PackedSent(fields, i, x + y) + t, m, seen)
  {
    hide DecodeLoop, WellFormed, ReadyItems, EncPacked, EncLengthPrefixed, EncPackedTag, PackedSent;
    var f, had := fields[i], ItemsOf(SlotAt(m, i));
    ReadyJoin(f, x, y);
    PackedOnce(fields, i, x, m, seen, PackedSent(fields, i, y) + t);
    PackedOnce(fields, i, y, SetSlot(m, i, Rep(had + x)), seen, t);
    PackedOnce(fields, i, x + y, m, seen, t);
    AppendTwice(m, i, had + x, y);
    Assoc(had, x, y);
  }

  lemma PackedOnce(fields: seq<Field>, i: nat, x: seq<Value>, m: Message, seen: set<nat>, t: seq<Byte>)
    requires WellFormed(fields) && i < |fields| && fields[i].rule.Repeated? && Packable(fields[i].kind)
    requires |ItemsOf(SlotAt(m, i))| + |x| <= fields[i].arraySize
    requires ReadyItems(fields[i], x) && ShortArray(fields[i], x)
    ensures DecodeLoop(fields, PackedSent(fields, i, x) + t, m, seen)
         == DecodeLoop(fields, t, SetSlot(m, i, Rep(ItemsOf(SlotAt(m, i)) + x)), seen)
  {
    hide DecodeLoop, WellFormed, ReadyItems, EncPacked, EncLengthPrefixed, EncPackedTag;
    PackedMerge(fields, i, x, m, seen, t);
  }

  /** A number of an array sent on its own, with the wire type of the number, is a packed piece of one. */
  lemma UnpackedIsPackedOne(fields: seq<Field>, i: nat, v: Value, m: Message, seen: set<nat>, t: seq<Byte>)
    requires WellFormed(fields) && i < |fields| && fields[i].rule.Repeated? && Packable(fields[i].kind)
    requires |ItemsOf(SlotAt(m, i))| < fields[i].arraySize && ReadyValue(fields[i], v)
    ensures DecodeLoop(fields, Sent(fields, i, v) + t, m, seen)
         == DecodeLoop(fields, PackedSent(fields, i, [v]) + t, m, seen)
  {
    hide *;
    var f := fields[i];
    TableField(fields, i);
    OneNumber(f, i, v, m, t);
    NumberAlone(f, v);
    SentIs(fields, i, v);
    PackedOnce(fields, i, [v], m, seen, t);
    NotRequired(fields, i, seen);
    OwnTag(fields, i, EncValue(f, v) + t, m, seen, SetSlot(m, i, Rep(ItemsOf(SlotAt(m, i)) + [v])), t);
    Assoc(EncTag(f), EncValue(f, v), t);
  }

  lemma NumberAlone(f: Field, v: Value)
    requires WellFormedField(f) && Packable(f.kind) && ReadyValue(f, v)
    ensures |[v]| == 1 && ReadyItems(f, [v]) && ShortArray(f, [v])
  {
    hide ReadyValue, EncInt, InRange;
    assert [v][1..] == [];
    PackedItemSize(f, v);
  }

  lemma PackedItemSize(f: Field, v: Value)
    requires WellFormedField(f) && Packable(f.kind) && ReadyValue(f, v)
    ensures |EncPacked(f.kind, [v])| <= 10
  {
    hide EncInt, InRange;
    IntRoundTrip(f.kind, f.dataSize, IntOf(v), []);
    assert [v][1..] == [];
  }

  lemma OneNumber(f: Field, i: nat, v: Value, m: Message, t: seq<Byte>)
    requires WellFormedField(f) && f.rule.Repeated? && Packable(f.kind) && ReadyValue(f, v)
    requires |ItemsOf(SlotAt(m, i))| < f.arraySize
    ensures DecodeField(f, i, WireType(f.kind), EncValue(f, v) + t, m)
         == Good(SetSlot(m, i, Rep(ItemsOf(SlotAt(m, i)) + [v])), t)
  {
    hide WellFormed, DecInt, EncInt, InRange, SlotAt, ItemsOf, SetSlot;
    IntRoundTrip(f.kind, f.dataSize, IntOf(v), t);
  }

  // ---- what the encoder refuses ----

  predicate OverfullValue(f: Field, v: Value)
    decreases f, 0
  {
    match f.kind
    case Bytes => |BytesOf(v)| + SIZE_WIDTH > f.dataSize
    case Sub(fs) => Overfull(fs, MsgOf(v))
    case _ => false
  }

  predicate OverfullField(f: Field, s: Slot)
    decreases f, 1
  {
    if f.rule.Repeated? then
      |ItemsOf(s)| > f.arraySize || exists k :: 0 <= k < |ItemsOf(s)| && OverfullValue(f, ItemsOf(s)[k])
    else OverfullValue(f, CurOf(s))
  }

  /** Some field that is to be sent, at whatever depth, claims more array elements than its array has, or more
      bytes than its byte array can hold. */
  predicate Overfull(fields: seq<Field>, m: Message)
    decreases fields
  {
    exists i :: 0 <= i < |fields| && Carried(fields[i], m, i) && OverfullField(fields[i], SlotAt(m, i))
  }

  lemma {:induction false} ValueRefused(f: Field, v: Value)
    ensures EncodableValue(f, v) <==> !OverfullValue(f, v)
    decreases f, 0
  {
    if f.kind.Sub? {
      RefusedExactly(f.kind.fields, MsgOf(v));
    }
  }

  lemma {:induction false} ItemsRefused(f: Field, items: seq<Value>)
    ensures EncodableItems(f, items) <==> forall k :: 0 <= k < |items| ==> !OverfullValue(f, items[k])
    decreases f, 1, |items|
  {
    hide EncodableValue, OverfullValue;
    if items != [] {
      ValueRefused(f, items[0]);
      ItemsRefused(f, items[1..]);
      assert forall k :: 1 <= k < |items| ==> items[k] == items[1..][k - 1];
      assert forall k :: 0 <= k < |items| - 1 ==> items[1..][k] == items[k + 1];
    }
  }

  lemma {:induction false} FieldRefused(f: Field, m: Message, i: nat)
    ensures EncodableField(f, m, i) <==> !(Carried(f, m, i) && OverfullField(f, SlotAt(m, i)))
    decreases f, 2
  {
    hide EncodableValue, OverfullValue, EncodableItems, IsDefault;
    if f.rule.Repeated? {
      ItemsRefused(f, ItemsOf(SlotAt(m, i)));
    } else {
      ValueRefused(f, CurOf(SlotAt(m, i)));
    }
  }

  /** The encoder finds an error in the data exactly when some field is overfull. */
  lemma {:induction false} RefusedExactly(fields: seq<Field>, m: Message)
    ensures Encodable(fields, m) <==> !Overfull(fields, m)
    decreases fields
  {
    hide EncodableField, OverfullField, Carried;
    forall i | 0 <= i < |fields|
      ensures EncodableField(fields[i], m, i) <==> !(Carried(fields[i], m, i) && OverfullField(fields[i], SlotAt(m, i)))
    {
      FieldRefused(fields[i], m, i);
    }
  }

  // ---- field number 0 ----

  /** A tag with field number 0 is a field like any unknown one, except to an empty table, whose terminator
      answers to it and rejects the value. */
  lemma FieldNumberZero(fields: seq<Field>, wt: Byte, s: seq<Byte>, m: Message, seen: set<nat>)
    requires 1 <= wt < 8 && WellFormed(fields)
    ensures fields == [] ==> DecodeLoop(fields, [wt] + s, m, seen) == Bad
    ensures fields != [] && SkipField(wt, s).Good? ==>
              DecodeLoop(fields, [wt] + s, m, seen) == DecodeLoop(fields, SkipField(wt, s).rest, m, seen)
  {
    hide DecodeLoop, DecodeField, SkipField, FindFrom, WellFormedField;
    var b := [wt] + s;
    assert b[0] == wt && b[1..] == s;
    assert DecodeVarint32(b) == Good(wt, s);
    assert DecodeTag(b) == Tagged(0, wt, s);
    LoopStep(fields, b, m, seen);
    forall j | 0 <= j < |fields|
      ensures fields[j].tag != 0
    {
      TableField(fields, j);
      TagPositive(fields[j]);
    }
    NoneFound(fields, 0);
  }

  lemma {:induction false} NoneFound(fields: seq<Field>, i: nat)
    requires forall j :: i <= j < |fields| ==> fields[j].tag != 0
    ensures FindFrom(fields, i, 0) == None
    decreases |fields| - i
  {
    if i < |fields| {
      NoneFound(fields, i + 1);
    }
  }

  // ---- the required-field check, in numbers ----

  /** When the field loop goes through, the decoder succeeds iff every required entry that has fewer than
      64 required entries before it was met. */
  lemma FirstSixtyFourRequired(fields: seq<Field>, s: seq<Byte>, m: Message)
    requires DecodeLoop(fields, s, m, {}).Good?
    ensures DecodeNoInit(fields, s, m).Good? <==>
            forall i :: 0 <= i < |fields| && fields[i].rule.Required? && RequiredBefore(fields, i) < 64
                    ==> i in Met(fields, s, m)
  {
    hide *;
    RequiredCheckIsExact(fields, s, m);
    AllMetExactly(fields, Met(fields, s, m));
  }

  lemma AllMetExactly(fields: seq<Field>, met: seq<nat>)
    ensures AllRequiredMet(fields, met) <==>
            forall i :: 0 <= i < |fields| && fields[i].rule.Required? && RequiredBefore(fields, i) < 64 ==> i in met
  {
    hide RequiredBefore, Occurs;
    if AllRequiredMet(fields, met) {
      forall i | 0 <= i < |fields| && fields[i].rule.Required? && RequiredBefore(fields, i) < 64
        ensures i in met
      {
        RankBelow(fields, i, |fields|);
        assert Occurs(fields, RequiredBefore(fields, i), met);
        OnlyOfItsRank(fields, i, met);
      }
    } else {
      var r: nat :| r < RequiredBefore(fields, |fields|) && r < MAX_REQUIRED && !Occurs(fields, r, met);
      var i := RankOf(fields, |fields|, r);
      if i in met { MetOccurs(fields, i, met); }
    }
  }

  lemma MetOccurs(fields: seq<Field>, i: nat, met: seq<nat>)
    requires i < |fields| && fields[i].rule.Required? && i in met
    ensures Occurs(fields, RequiredBefore(fields, i), met)
  {
    hide RequiredBefore;
  }

  lemma OnlyOfItsRank(fields: seq<Field>, i: nat, met: seq<nat>)
    requires i < |fields| && fields[i].rule.Required? && Occurs(fields, RequiredBefore(fields, i), met)
    ensures i in met
  {
    hide RequiredBefore;
    var j :| j in met && j < |fields| && fields[j].rule.Required?
             && RequiredBefore(fields, j) == RequiredBefore(fields, i);
    if i < j { RankBelow(fields, i, j); }
    if j < i { RankBelow(fields, j, i); }
  }

  lemma {:induction false} RankBelow(fields: seq<Field>, i: nat, n: nat)
    requires i < n <= |fields| && fields[i].rule.Required?
    ensures RequiredBefore(fields, i) < RequiredBefore(fields, n)
  {
    if i < n - 1 { RankBelow(fields, i, n - 1); }
  }

  lemma {:induction false} RankOf(fields: seq<Field>, n: nat, r: nat) returns (i: nat)
    requires n <= |fields| && r < RequiredBefore(fields, n)
    ensures i < n && fields[i].rule.Required? && RequiredBefore(fields, i) == r
  {
    if r < RequiredBefore(fields, n - 1) { i := RankOf(fields, n - 1, r); } else { i := n - 1; }
  }

  // ---- the examples of the Protocol Buffers encoding guide ----

  /** A required entry with the given number and type, four bytes wide or as wide as its text */
  function Entry(tag: nat, kind: Kind, rule: Rule, size: nat): Field
  {
    Field(tag, kind, rule, size, 3, 0, 0, None)
  }

  function Alone(s: Slot): Message
  {
    Msg([s], map[])
  }

  lemma OneEntry(f: Field, s: Slot)
    ensures Encode([f], Alone(s)) == EncField(f, Alone(s), 0)
  {
    hide EncField;
    assert EncFrom([f], 1, Alone(s)) == [];
  }

  /** int32 150 in field 1, "testing" in field 2, a submessage with the former in field 3, and the packed
      numbers 3, 270 and 86942 in field 6 */
  lemma GuideExamples()
    ensures Encode([Entry(1, VarInt, Required, 4)], Alone(One(IntV(150)))) == [0x08, 0x96, 0x01]
    ensures Encode([Entry(2, Str, Required, 16)], Alone(One(BytesV([0x74, 0x65, 0x73, 0x74, 0x69, 0x6e, 0x67]))))
         == [0x12, 0x07, 0x74, 0x65, 0x73, 0x74, 0x69, 0x6e, 0x67]
    ensures Encode([Entry(3, Sub([Entry(1, VarInt, Required, 4)]), Required, 4)],
                   Alone(One(MsgV(Alone(One(IntV(150))))))) == [0x1a, 0x03, 0x08, 0x96, 0x01]
    ensures Encode([Entry(6, VarInt, Repeated, 4)], Alone(Rep([IntV(3), IntV(270), IntV(86942)])))
         == [0x32, 0x06, 0x03, 0x8e, 0x02, 0x9e, 0xa7, 0x05]
  {
    hide *;
    NumberExample();
    TextExample();
    SubExample(Entry(1, VarInt, Required, 4), Alone(One(IntV(150))));
    PackedExample();
  }

  lemma NumberExample()
    ensures Encode([Entry(1, VarInt, Required, 4)], Alone(One(IntV(150)))) == [0x08, 0x96, 0x01]
  {
    var a, m: Message := Entry(1, VarInt, Required, 4), Alone(One(IntV(150)));
    assert EncodeVarint(150) == [0x96, 0x01];
    OneEntry(a, One(IntV(150)));
    assert EncField(a, m, 0) == [0x08] + EncodeVarint(150);
  }

  lemma TextExample()
    ensures Encode([Entry(2, Str, Required, 16)], Alone(One(BytesV([0x74, 0x65, 0x73, 0x74, 0x69, 0x6e, 0x67]))))
         == [0x12, 0x07, 0x74, 0x65, 0x73, 0x74, 0x69, 0x6e, 0x67]
  {
    OneEntry(Entry(2, Str, Required, 16), One(BytesV([0x74, 0x65, 0x73, 0x74, 0x69, 0x6e, 0x67])));
    hide EncFrom;
  }

  lemma SubExample(a: Field, m: Message)
    requires Encode([a], m) == [0x08, 0x96, 0x01]
    ensures Encode([Entry(3, Sub([a]), Required, 4)], Alone(One(MsgV(m)))) == [0x1a, 0x03, 0x08, 0x96, 0x01]
  {
    hide EncFrom;
    var f := Entry(3, Sub([a]), Required, 4);
    OneEntry(f, One(MsgV(m)));
    assert EncodeVarint(26) == [0x1a] && EncodeVarint(3) == [3];
    assert EncValue(f, MsgV(m)) == EncLengthPrefixed(Encode([a], m));
  }

  lemma PackedExample()
    ensures Encode([Entry(6, VarInt, Repeated, 4)], Alone(Rep([IntV(3), IntV(270), IntV(86942)])))
         == [0x32, 0x06, 0x03, 0x8e, 0x02, 0x9e, 0xa7, 0x05]
  {
    var f, items := Entry(6, VarInt, Repeated, 4), [IntV(3), IntV(270), IntV(86942)];
    OneEntry(f, Rep(items));
    PackedBody();
    TagByte(f);
    hide EncPacked, EncFrom, EncPackedTag;
    assert EncodeVarint(6) == [6];
    assert EncField(f, Alone(Rep(items)), 0) == EncPackedTag(f) + EncLengthPrefixed(EncPacked(VarInt, items));
  }

  lemma PackedBody()
    ensures EncPacked(VarInt, [IntV(3), IntV(270), IntV(86942)]) == [0x03, 0x8e, 0x02, 0x9e, 0xa7, 0x05]
  {
    var items := [IntV(3), IntV(270), IntV(86942)];
    assert EncodeVarint(270) == [0x8e, 0x02] && EncodeVarint(679) == [0xa7, 0x05];
    assert EncodeVarint(86942) == [0x9e] + EncodeVarint(679);
    assert items[1..] == [IntV(270), IntV(86942)] && items[1..][1..] == [IntV(86942)];
    hide EncodeVarint, EncPacked;
    PackedSplit(VarInt, items);
    PackedSplit(VarInt, items[1..]);
    PackedSplit(VarInt, items[1..][1..]);
    assert EncodeVarint(3) == [3] && EncPacked(VarInt, []) == [];
  }
}
