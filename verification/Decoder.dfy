/** pb_decode.c: the decoder over an input stream, proved against the `Decoding` functions.
    The destination structure is passed in and returned as a value. */
module Decoder {
  import opened Common
  import V = Varint
  import opened Schema
  import opened Decoding
  import opened Streaming
  import opened IStreams
  import opened FieldIters
  import opened Bitset

  // ---- skipping ----

  /** pb_skip_varint */
  method SkipVarintOf(stream: IStream) returns (ok: bool)
    requires stream.Valid()
    modifies stream
    ensures Took(old(stream.Here()), stream.Here(), ok, SkipVarint(Rest(old(stream.Here()))))
  {
    hide Rest, SkipVarint;
    ghost var r := SkipVarint(Rest(stream.Here()));
    var b: Byte := 128;
    while b >= 128
      invariant stream.Valid() && stream.state + stream.bytesLeft == old(stream.state + stream.bytesLeft)
      invariant r == if b >= 128 then SkipVarint(Rest(stream.Here())) else Good((), Rest(stream.Here()))
      decreases stream.bytesLeft, b
    {
      SkipVarintTurn(Rest(stream.Here()));
      ok, b := stream.ReadByte();
      if !ok {
        return false;
      }
    }
    return true;
  }

  lemma SkipVarintTurn(s: seq<Byte>)
    ensures s == [] ==> SkipVarint(s) == Bad
    ensures s != [] ==> SkipVarint(s) == if s[0] >= 128 then SkipVarint(s[1..]) else Good((), s[1..])
  {
  }

  /** pb_skip_string */
  method SkipString(stream: IStream) returns (ok: bool)
    requires stream.Valid()
    modifies stream
    ensures Took(old(stream.Here()), stream.Here(), ok, Skipped(Delimited(Rest(old(stream.Here())))))
  {
    hide Rest, ReadBytes, V.DecodeVarint32;
    var length: nat, eof: bool;
    ok, length, eof := stream.DecodeVarint32();
    if ok {
      ok := stream.Skip(length);
    }
  }

  /** pb_skip_field */
  method SkipFieldOf(stream: IStream, wt: nat) returns (ok: bool)
    requires stream.Valid()
    modifies stream
    ensures Took(old(stream.Here()), stream.Here(), ok, SkipField(wt, Rest(old(stream.Here()))))
  {
    hide Rest, ReadBytes, SkipVarint, Delimited;
    match wt {
      case 0 => ok := SkipVarintOf(stream);
      case 1 => ok := stream.Skip(8);
      case 2 => ok := SkipString(stream);
      case 5 => ok := stream.Skip(4);
      case _ => ok := false;
    }
  }

  /** How pb_decode_tag answers for each outcome of the tag decoder. */
  ghost predicate TagTaken(v: Source, v': Source, ok: bool, wt: nat, tag: nat, eof: bool, r: TagResult)
  {
    && Within(v, v')
    && ok == r.Tagged?
    && (ok ==> wt == r.wt && tag == r.tag && Rest(v') == r.rest)
    && (!ok ==> eof == r.Stop?)
    && (r.Stop? ==> Rest(v') == r.rest)
    && (!r.NoTag? ==> v'.at + v'.left == v.at + v.left)
  }

  /** pb_decode_tag */
  method DecodeTagOf(stream: IStream) returns (ok: bool, wt: nat, tag: nat, eof: bool)
    requires stream.Valid()
    modifies stream
    ensures TagTaken(old(stream.Here()), stream.Here(), ok, wt, tag, eof, DecodeTag(Rest(old(stream.Here()))))
  {
    hide V.DecodeVarint32, Rest;
    wt, tag := 0, 0;
    var temp: nat;
    ok, temp, eof := stream.DecodeVarint32();
    if !ok {
      EmptyTag(Rest(old(stream.Here())));
      return;
    }
    if temp == 0 {
      return false, wt, tag, true;
    }
    tag, wt := temp / 8, temp % 8;
  }

  lemma EmptyTag(s: seq<Byte>)
    ensures s == [] ==> V.DecodeVarint32(s) == Bad
  {
  }

  // ---- substreams ----

  /** Child c is the delimited part of v and parent p what follows it, not yet moved forward. */
  ghost predicate Parted(v: Source, p: Source, c: Source, r: Parse<seq<Byte>>)
  {
    && Sound(v) && Sound(c) && p.data == c.data == v.data
    && p.at <= c.at
    && c.at + c.left + p.left == v.at + v.left
    && r == Good(Rest(c), v.data[c.at + c.left..v.at + v.left])
  }

  /** pb_make_string_substream */
  method MakeSubstream(stream: IStream) returns (ok: bool, sub: IStream)
    requires stream.Valid()
    modifies stream
    ensures fresh(sub) && sub.Valid()
    ensures Within(old(stream.Here()), stream.Here())
    ensures ok == Delimited(Rest(old(stream.Here()))).Good?
    ensures ok ==> Parted(old(stream.Here()), stream.Here(), sub.Here(), Delimited(Rest(old(stream.Here()))))
  {
    hide V.DecodeVarint32;
    var size: nat, eof: bool;
    ok, size, eof := stream.DecodeVarint32();
    sub := new IStream(stream.data, stream.state, stream.bytesLeft);
    if !ok {
      return;
    }
    if sub.bytesLeft < size {
      return false, sub;
    }
    ghost var s := Rest(stream.Here());
    sub.bytesLeft := size;
    stream.bytesLeft := stream.bytesLeft - size;
    assert s[..size] == Rest(sub.Here());
    assert s[size..] == stream.data[stream.state + size..old(stream.state + stream.bytesLeft)];
  }

  /** pb_close_string_substream */
  method CloseSubstream(stream: IStream, sub: IStream, ghost v: Source, ghost c: Source, ghost r: Parse<seq<Byte>>)
    requires stream != sub && Parted(v, stream.Here(), c, r) && Within(c, sub.Here())
    modifies stream, sub
    ensures Within(v, stream.Here())
    ensures old(sub.state + sub.bytesLeft) == c.at + c.left ==> Took(v, stream.Here(), true, r)
  {
    if sub.bytesLeft > 0 {
      var _ := sub.Skip(sub.bytesLeft);
    }
    stream.state := sub.state;
  }

  // ---- scalars ----

  /** pb_decode_svarint */
  method DecodeSVarint(stream: IStream) returns (ok: bool, dest: int)
    requires stream.Valid()
    modifies stream
    ensures Took(old(stream.Here()), stream.Here(), ok, V.DecodeVarint(Rest(old(stream.Here()))))
    ensures ok ==> V.DecodeVarint(Rest(old(stream.Here()))).value < U64
    ensures ok ==> dest == UnZigZag(V.DecodeVarint(Rest(old(stream.Here()))).value)
  {
    hide V.DecodeVarint, Rest;
    var value: nat;
    ok, value := stream.DecodeVarint();
    dest := 0;
    if ok {
      if value % 2 == 1 {
        dest := ToSigned(U64 - 1 - value / 2, U64);
      } else {
        dest := ToSigned(value / 2, U64);
      }
    }
  }

  /** What remains of an integer stored in n bytes and read back. */
  function Clamp(signed: bool, n: nat, i: int): int
  {
    var range := SizeRange(n);
    if signed then ToSigned(i % range, range) else i % range
  }

  lemma ClampKeeps(k: Kind, n: nat, i: int)
    requires k.VarInt? || k.SVarInt? || k.UVarInt?
    ensures InRange(k, n, i) <==> Clamp(!k.UVarInt?, n, i) == i
  {
  }

  /** pb_dec_varint, pb_dec_uvarint, pb_dec_svarint */
  method GetVarint(stream: IStream, f: Field) returns (ok: bool, i: int)
    requires stream.Valid() && (f.kind.VarInt? || f.kind.SVarInt? || f.kind.UVarInt?)
    modifies stream
    ensures Took(old(stream.Here()), stream.Here(), ok, DecInt(f.kind, f.dataSize, Rest(old(stream.Here()))))
    ensures ok ==> i == DecInt(f.kind, f.dataSize, Rest(old(stream.Here()))).value
  {
    hide V.DecodeVarint, Rest, InRange, UnZigZag, Clamp;
    i := 0;
    if f.kind.SVarInt? {
      ok, i := DecodeSVarint(stream);
    } else {
      var value: nat;
      ok, value := stream.DecodeVarint();
      if ok {
        if f.kind.UVarInt? {
          i := value;
        } else if f.dataSize == 8 {
          i := ToSigned(value, U64);
        } else {
          i := ToSigned(value % U32, U32);
        }
      }
    }
    ClampKeeps(f.kind, f.dataSize, i);
    if ok && Clamp(!f.kind.UVarInt?, f.dataSize, i) != i {
      ok := false;
    }
  }

  /** The shifts and ORs of pb_decode_fixed32/64 over the bytes read. */
  function Assembled(b: seq<Byte>, k: nat): nat
    requires k <= |b|
  {
    if k == 0 then 0 else V.BitOr(Assembled(b, k - 1), V.Shl(b[k - 1], 8 * (k - 1)))
  }

  function Shl8(x: nat, k: nat): nat
  {
    if k == 0 then x else 256 * Shl8(x, k - 1)
  }

  lemma {:induction false} Shl8IsShl(x: nat, k: nat)
    ensures Shl8(x, k) == V.Shl(x, 8 * k)
  {
    if k > 0 {
      Shl8IsShl(x, k - 1);
      var y := V.Shl(x, 8 * (k - 1));
      V.ShlAdd(x, 8, 8 * (k - 1));
      V.ShlAdd(y, 1, 7);
      V.ShlSeven(y);
    }
  }

  lemma {:induction false} Shl8Bound(x: Byte, k: nat)
    ensures Shl8(x, k) + Shl8(1, k) <= Shl8(1, k + 1)
  {
    if k > 0 { Shl8Bound(x, k - 1); }
  }

  lemma {:induction false} LastByte(b: seq<Byte>, x: Byte)
    ensures FromLittleEndian(b + [x]) == FromLittleEndian(b) + Shl8(x, |b|)
    ensures FromLittleEndian(b) < Shl8(1, |b|)
  {
    if b == [] {
      assert ([] + [x])[1..] == [];
    } else {
      LastByte(b[1..], x);
      assert (b + [x])[1..] == b[1..] + [x];
    }
  }

  /** No two shifted bytes share a bit, so ORing them is the little-endian sum. */
  lemma {:induction false} AssembledIsLittleEndian(b: seq<Byte>, k: nat)
    requires k <= |b|
    ensures Assembled(b, k) == FromLittleEndian(b[..k])
  {
    hide V.BitOr, V.Shl, FromLittleEndian, Shl8;
    if k == 0 {
      NoBytes();
    } else {
      AssembledIsLittleEndian(b, k - 1);
      LastByte(b[..k - 1], b[k - 1]);
      assert b[..k] == b[..k - 1] + [b[k - 1]];
      Shl8IsShl(1, k - 1);
      Shl8IsShl(b[k - 1], k - 1);
      V.OrOfDisjointIsSum(FromLittleEndian(b[..k - 1]), b[k - 1], 8 * (k - 1));
    }
  }

  lemma NoBytes()
    ensures FromLittleEndian([]) == 0
  {
  }

  /** pb_decode_fixed32 (n = 4) and pb_decode_fixed64 (n = 8) */
  method GetFixed(stream: IStream, n: nat) returns (ok: bool, i: int)
    requires stream.Valid()
    modifies stream
    ensures Took(old(stream.Here()), stream.Here(), ok, ReadInt(Rest(old(stream.Here())), n))
    ensures ok ==> i == ReadInt(Rest(old(stream.Here())), n).value
  {
    hide Rest, FromLittleEndian, Assembled;
    var bytes: seq<Byte>;
    ok, bytes := stream.Read(n);
    i := 0;
    if ok {
      AssembledIsLittleEndian(bytes, n);
      i := Assembled(bytes, n);
      assert bytes[..n] == bytes;
    }
  }

  /** The PB_DECODERS entries of the packable types */
  method GetInt(stream: IStream, f: Field) returns (ok: bool, i: int)
    requires stream.Valid() && Packable(f.kind)
    modifies stream
    ensures Took(old(stream.Here()), stream.Here(), ok, DecInt(f.kind, f.dataSize, Rest(old(stream.Here()))))
    ensures ok ==> i == DecInt(f.kind, f.dataSize, Rest(old(stream.Here()))).value
  {
    hide V.DecodeVarint, Rest, InRange, Cast, ReadInt;
    if f.kind.Fixed32? {
      ok, i := GetFixed(stream, 4);
    } else if f.kind.Fixed64? {
      ok, i := GetFixed(stream, 8);
    } else {
      ok, i := GetVarint(stream, f);
    }
  }

  // ---- length-delimited values ----

  /** pb_dec_bytes and pb_dec_fixed_length_bytes */
  method GetBytes(stream: IStream, f: Field) returns (ok: bool, b: seq<Byte>)
    requires stream.Valid() && (f.kind.Bytes? || f.kind.FixedBytes?)
    modifies stream
    ensures Took(old(stream.Here()), stream.Here(), ok, DecValue(f, Rest(old(stream.Here())), IntV(0)))
    ensures ok ==> BytesV(b) == DecValue(f, Rest(old(stream.Here())), IntV(0)).value
  {
    hide V.DecodeVarint32, Rest, DecodeNoInit, Default, DecInt;
    var size: nat, eof: bool;
    b := [];
    ok, size, eof := stream.DecodeVarint32();
    if !ok {
      return;
    }
    if size > PB_SIZE_MAX {
      return false, b;
    }
    if f.kind.Bytes? {
      if AllocSize(size) > f.dataSize {
        return false, b;
      }
    } else {
      if size == 0 {
        return true, Zeros(f.dataSize);
      }
      if size != f.dataSize {
        return false, b;
      }
    }
    ok, b := stream.Read(size);
  }

  /** pb_dec_string: the bytes, up to the NUL they may hold, as a C string */
  method GetString(stream: IStream, f: Field) returns (ok: bool, b: seq<Byte>)
    requires stream.Valid() && f.kind.Str?
    modifies stream
    ensures Took(old(stream.Here()), stream.Here(), ok, DecValue(f, Rest(old(stream.Here())), IntV(0)))
    ensures ok ==> BytesV(b) == DecValue(f, Rest(old(stream.Here())), IntV(0)).value
  {
    hide V.DecodeVarint32, Rest, UpToNul, DecodeNoInit, Default, DecInt;
    var size: nat, eof: bool;
    b := [];
    ok, size, eof := stream.DecodeVarint32();
    if !ok {
      return;
    }
    if size + 1 > f.dataSize {
      return false, b;
    }
    ok, b := stream.Read(size);
    if ok {
      b := UpToNul(b);
    }
  }

  // ---- defaults ----

  /** pb_field_set_to_default for a field that is not a submessage; counts, flags and which_ go to 0. */
  method ScalarDefault(f: Field) returns (v: Value)
    requires !f.kind.Sub?
    ensures v == InitValue(f)
  {
    if f.dflt.Some? {
      return f.dflt.value;
    }
    match f.kind {
      case Bytes => v := BytesV([]);
      case Str => v := BytesV([]);
      case FixedBytes => v := BytesV(Zeros(f.dataSize));
      case _ => v := IntV(0);
    }
  }

  /** pb_field_set_to_default */
  method FieldDefault(f: Field) returns (s: Slot)
    ensures s == InitSlot(f)
    decreases f
  {
    hide Default;
    var v: Value;
    if f.rule.Repeated? {
      return Rep([]);
    }
    if f.kind.Sub? {
      var m := SetToDefaults(f.kind.fields);
      v := MsgV(m);
    } else {
      v := ScalarDefault(f);
    }
    s := if f.rule.Optional? then Opt(false, v) else One(v);
  }

  /** pb_message_set_to_defaults */
  method SetToDefaults(fields: seq<Field>) returns (m: Message)
    ensures m == Default(fields)
    decreases fields
  {
    hide InitSlot;
    var iter := new FieldIter(fields, 0);
    var slots: seq<Slot> := [];
    var more := fields != [];
    while more
      invariant iter.Valid() && fresh(iter) && iter.fields == fields
      invariant more ==> |slots| == iter.pos < |fields|
      invariant !more ==> |slots| == |fields|
      invariant forall i :: 0 <= i < |slots| ==> slots[i] == InitSlot(fields[i])
      decreases |fields| - |slots|, more
    {
      var s := FieldDefault(fields[iter.pos]);
      slots := slots + [s];
      more := iter.Next();
    }
    m := Msg(slots, map[]);
  }

  // ---- values ----

  /** PB_DECODERS: the reader for each field type */
  method GetValue(stream: IStream, f: Field, cur: Value) returns (ok: bool, v: Value)
    requires stream.Valid() && WellFormedField(f)
    modifies stream
    ensures Took(old(stream.Here()), stream.Here(), ok, DecValue(f, Rest(old(stream.Here())), cur))
    ensures ok ==> v == DecValue(f, Rest(old(stream.Here())), cur).value
    decreases f, 1
  {
    hide Rest, DecInt;
    ghost var s := Rest(stream.Here());
    var b: seq<Byte>, i: int;
    match f.kind {
      case Bytes =>
        ok, b := GetBytes(stream, f);
        v := BytesV(b);
        CurIgnored(f, s, cur);
      case FixedBytes =>
        ok, b := GetBytes(stream, f);
        v := BytesV(b);
        CurIgnored(f, s, cur);
      case Str =>
        ok, b := GetString(stream, f);
        v := BytesV(b);
        CurIgnored(f, s, cur);
      case Sub(_) =>
        ok, v := GetSub(stream, f, cur);
      case _ =>
        ok, i := GetInt(stream, f);
        v := IntV(i);
        IntValue(f, s, cur);
    }
  }

  lemma CurIgnored(f: Field, s: seq<Byte>, cur: Value)
    requires !f.kind.Sub?
    ensures DecValue(f, s, cur) == DecValue(f, s, IntV(0))
  {
    hide Delimited, DecInt;
  }

  lemma IntValue(f: Field, s: seq<Byte>, cur: Value)
    requires Packable(f.kind)
    ensures DecInt(f.kind, f.dataSize, s).Bad? ==> DecValue(f, s, cur) == Bad
    ensures DecInt(f.kind, f.dataSize, s).Good? ==>
      DecValue(f, s, cur) == Good(IntV(DecInt(f.kind, f.dataSize, s).value), DecInt(f.kind, f.dataSize, s).rest)
  {
    hide DecInt;
  }

  /** pb_dec_submessage: array entries start from defaults, other fields from what they hold. */
  method GetSub(stream: IStream, f: Field, cur: Value) returns (ok: bool, v: Value)
    requires stream.Valid() && WellFormedField(f) && f.kind.Sub?
    modifies stream
    ensures Took(old(stream.Here()), stream.Here(), ok, DecValue(f, Rest(old(stream.Here())), cur))
    ensures ok ==> v == DecValue(f, Rest(old(stream.Here())), cur).value
    decreases f, 0
  {
    hide Rest, Delimited, DecodeNoInit, Default;
    ghost var here := stream.Here();
    ghost var r := Delimited(Rest(here));
    var sub: IStream, m: Message;
    v := cur;
    ok, sub := MakeSubstream(stream);
    if !ok {
      return;
    }
    ghost var c := sub.Here();
    if f.rule.Repeated? {
      ok, m := DecodeOf(sub, f.kind.fields);
    } else {
      ok, m := DecodeNoInitOf(sub, f.kind.fields, MsgOf(cur));
    }
    CloseSubstream(stream, sub, here, c, r);
    v := MsgV(m);
  }

  // ---- fields ----

  /** A length-delimited run of packed items appended to those already stored. */
  function Packed(f: Field, s: seq<Byte>, items: seq<Value>): Parse<seq<Value>>
  {
    match Delimited(s)
    case Bad => Bad
    case Good(body, rest) =>
      match DecPacked(f, body, items)
      case None => Bad
      case Some(all) => Good(all, rest)
  }

  lemma PackedTurn(f: Field, body: seq<Byte>, items: seq<Value>)
    requires body != [] && |items| < f.arraySize
    ensures var r := DecInt(f.kind, f.dataSize, body);
            DecPacked(f, body, items) == if r.Good?
                && |r.rest| < |body| then DecPacked(f, r.rest, items + [IntV(r.value)]) else None
  {
    hide DecInt;
  }

  lemma PackedEnds(f: Field, body: seq<Byte>, items: seq<Value>)
    requires body == [] || |items| >= f.arraySize
    ensures DecPacked(f, body, items) == if body == [] then Some(items) else None
  {
  }

  lemma IntTakesBytes(f: Field, s: seq<Byte>)
    requires Packable(f.kind) && DecInt(f.kind, f.dataSize, s).Good?
    ensures |DecInt(f.kind, f.dataSize, s).rest| < |s|
  {
    hide V.DecodeVarintFrom, FromLittleEndian, InRange, Cast;
  }

  /** The loop of decode_static_field over a packed substream */
  method PackedLoop(sub: IStream, f: Field, before: seq<Value>) returns (ok: bool, items: seq<Value>)
    requires sub.Valid() && Packable(f.kind)
    modifies sub
    ensures Within(old(sub.Here()), sub.Here())
    ensures ok == (DecPacked(f, Rest(old(sub.Here())), before).Some?)
    ensures ok ==> Some(items) == DecPacked(f, Rest(old(sub.Here())), before)
    ensures ok ==> sub.bytesLeft == 0 && sub.state + sub.bytesLeft == old(sub.state + sub.bytesLeft)
  {
    hide DecPacked, DecInt;
    ghost var c := sub.Here();
    items := before;
    var status := true;
    while status && sub.bytesLeft > 0 && |items| < f.arraySize
      invariant Within(c, sub.Here()) && sub.Valid()
      invariant status ==> sub.state + sub.bytesLeft == c.at + c.left
      invariant status ==> DecPacked(f, Rest(c), before) == DecPacked(f, Rest(sub.Here()), items)
      invariant !status ==> DecPacked(f, Rest(c), before) == None
      decreases f.arraySize - |items|, status
    {
      ghost var body := Rest(sub.Here());
      PackedTurn(f, body, items);
      var i: int;
      status, i := GetInt(sub, f);
      if status {
        IntTakesBytes(f, body);
        items := items + [IntV(i)];
      }
    }
    PackedEndsIf(f, sub.Here(), items, status);
    ok := status && sub.bytesLeft == 0;
  }

  lemma PackedEndsIf(f: Field, v: Source, items: seq<Value>, status: bool)
    requires Sound(v) && (status ==> v.left == 0 || |items| >= f.arraySize)
    ensures status ==> DecPacked(f, Rest(v), items) == if v.left == 0 then Some(items) else None
  {
    hide DecPacked;
    if status { PackedEnds(f, Rest(v), items); }
  }

  /** decode_static_field, packed array */
  method GetPacked(stream: IStream, f: Field, before: seq<Value>) returns (ok: bool, items: seq<Value>)
    requires stream.Valid() && Packable(f.kind)
    modifies stream
    ensures Took(old(stream.Here()), stream.Here(), ok, Packed(f, Rest(old(stream.Here())), before))
    ensures ok ==> items == Packed(f, Rest(old(stream.Here())), before).value
  {
    hide Delimited, DecPacked, Rest;
    ghost var here := stream.Here();
    ghost var r := Delimited(Rest(here));
    var sub: IStream;
    items := before;
    ok, sub := MakeSubstream(stream);
    if !ok {
      return;
    }
    ghost var c := sub.Here();
    ok, items := PackedLoop(sub, f, before);
    if sub.bytesLeft != 0 {
      PartedWithin(here, stream.Here(), c, r);
      return false, items;
    }
    CloseSubstream(stream, sub, here, c, r);
  }

  lemma PartedWithin(v: Source, p: Source, c: Source, r: Parse<seq<Byte>>)
    requires Parted(v, p, c, r)
    ensures Within(v, p)
  {
  }

  /** decode_static_field: the value goes to slot i of m. */
  method GetField(stream: IStream, f: Field, i: nat, wt: nat, m: Message) returns (ok: bool, m': Message)
    requires stream.Valid() && WellFormedField(f)
    modifies stream
    ensures Took(old(stream.Here()), stream.Here(), ok, DecodeField(f, i, wt, Rest(old(stream.Here())), m))
    ensures ok ==> m' == DecodeField(f, i, wt, Rest(old(stream.Here())), m).value
    decreases f, 2
  {
    hide Delimited, DecPacked, DecValue, Rest, WellFormedField, InitValue;
    var v: Value;
    m' := m;
    match f.rule {
      case Required =>
        ok, v := GetValue(stream, f, CurOf(SlotAt(m, i)));
        m' := SetSlot(m, i, One(v));
      case Implicit =>
        ok, v := GetValue(stream, f, CurOf(SlotAt(m, i)));
        m' := SetSlot(m, i, One(v));
      case Optional =>
        ok, v := GetValue(stream, f, CurOf(SlotAt(m, i)));
        m' := SetSlot(m, i, Opt(true, v));
      case Repeated =>
        var items := ItemsOf(SlotAt(m, i));
        if wt == 2 && Packable(f.kind) {
          ok, items := GetPacked(stream, f, items);
          m' := SetSlot(m, i, Rep(items));
        } else {
          if |items| >= f.arraySize {
            return false, m;
          }
          ok, v := GetValue(stream, f, CurOf(SlotAt(m, i)));
          m' := SetSlot(m, i, Rep(items + [v]));
        }
      case OneOf(group) =>
        var cur := CurOf(SlotAt(m, i));
        if f.kind.Sub? {
          var d := SetToDefaults(f.kind.fields);
          cur := MsgV(d);
          SubInit(f);
        }
        ok, v := GetValue(stream, f, cur);
        m' := SetSlot(m, i, One(v)).(which := m.which[group := f.tag]);
    }
  }

  // ---- messages ----

  /** The words hold the bits of the required entries met so far. */
  ghost predicate Tracks(words: array<nat>, iter: FieldIter, seen: set<nat>)
    reads words, iter
  {
    && words.Length == 2 && Holds(words[..], seen)
    && iter.Valid() && WellFormed(iter.fields) && Below(seen, RequiredBefore(iter.fields, |iter.fields|))
  }

  predicate Below(seen: set<nat>, n: nat)
  {
    forall r: nat :: r in seen ==> r < n
  }

  lemma {:induction false} RequiredMonotone(fields: seq<Field>, i: nat, n: nat)
    requires i <= n <= |fields|
    ensures RequiredBefore(fields, i) <= RequiredBefore(fields, n)
  {
    if i < n { RequiredMonotone(fields, i, n - 1); }
  }

  lemma MarkBelow(fields: seq<Field>, i: nat, seen: set<nat>)
    requires i < |fields| && Below(seen, RequiredBefore(fields, |fields|))
    ensures Below(Mark(fields, i, seen), RequiredBefore(fields, |fields|))
  {
    RequiredMonotone(fields, i + 1, |fields|);
  }

  /** The body of the field loop, once the tag is known. */
  method GetRecord(stream: IStream, iter: FieldIter, words: array<nat>, tag: nat, wt: nat, m: Message,
                   ghost seen: set<nat>)
    returns (ok: bool, m': Message, ghost seen': set<nat>)
    requires stream.Valid() && Tracks(words, iter, seen)
    modifies stream, iter, words
    ensures Took(old(stream.Here()), stream.Here(), ok, AfterTag(iter.fields, tag, wt, Rest(old(stream.Here())), m,
        seen))
    ensures ok ==> (m', seen') == AfterTag(iter.fields, tag, wt, Rest(old(stream.Here())), m, seen).value
    ensures ok ==> Tracks(words, iter, seen')
    decreases iter.fields, 0
  {
    hide Rest, DecodeField, SkipField, FindFrom, RequiredBefore, Holds, WellFormed, WellFormedField, Below;
    m', seen' := m, seen;
    var found := iter.Find(tag);
    if !found {
      ok := SkipFieldOf(stream, wt);
      return;
    }
    if iter.fields == [] {
      return false, m, seen; // the terminator entry has data size 0, which its decoder rejects
    }
    var f := iter.fields[iter.pos];
    TableField(iter.fields, iter.pos);
    seen' := Mark(iter.fields, iter.pos, seen);
    MarkBelow(iter.fields, iter.pos, seen);
    if f.rule.Required? && iter.requiredIndex < MAX_REQUIRED {
      SetBit(words, iter.requiredIndex, seen);
    }
    ok, m' := GetField(stream, f, iter.pos, wt, m);
  }

  /** Seeking to the end of the table: the number of required entries, with the fix-up for the last. */
  method CountRequired(iter: FieldIter) returns (count: nat)
    requires iter.Valid()
    modifies iter
    ensures iter.Valid() && count == RequiredBefore(iter.fields, |iter.fields|)
  {
    var more := true;
    var lastRequired := false;
    count := 0;
    while more
      invariant iter.Valid()
      invariant !more && iter.fields != [] ==>
        count == RequiredBefore(iter.fields, |iter.fields| - 1)
            && lastRequired == iter.fields[|iter.fields| - 1].rule.Required?
      invariant !more && iter.fields == [] ==> count == 0
      decreases more, |iter.fields| - iter.pos
    {
      count := iter.requiredIndex;
      lastRequired := iter.fields == [] || iter.fields[iter.pos].rule.Required?;
      more := iter.Next();
    }
    if lastRequired && iter.fields != [] {
      count := count + 1;
    }
  }

  lemma BitNumbers(words: seq<nat>, seen: set<nat>)
    requires Holds(words, seen)
    ensures Below(seen, MAX_REQUIRED)
  {
  }

  /** The check after the loop: every one of the first 64 required entries has its bit. */
  method CheckRequired(iter: FieldIter, words: array<nat>, ghost seen: set<nat>) returns (ok: bool)
    requires Tracks(words, iter, seen)
    modifies iter
    ensures ok == RequiredSeen(iter.fields, seen)
  {
    hide RequiredBefore, Holds, WellFormed;
    BitNumbers(words[..], seen);
    var count := CountRequired(iter);
    if count > MAX_REQUIRED {
      count := MAX_REQUIRED;
    }
    ok := AllSeen(words, count, seen);
  }

  /** pb_decode_noinit */
  method DecodeNoInitOf(stream: IStream, fields: seq<Field>, m: Message) returns (ok: bool, m': Message)
    requires stream.Valid() && WellFormed(fields)
    modifies stream
    ensures Took(old(stream.Here()), stream.Here(), ok, DecodeNoInit(fields, Rest(old(stream.Here())), m))
    ensures ok ==> m' == DecodeNoInit(fields, Rest(old(stream.Here())), m).value
    decreases fields, 1
  {
    hide Rest, DecodeLoop, RequiredSeen, WellFormed, Holds, DecodeTag, AfterTag, Below;
    ghost var here := stream.Here();
    ghost var r := DecodeLoop(fields, Rest(here), m, {});
    var words := new nat[2] [0, 0];
    NothingSeen();
    assert words[..] == [0, 0];
    var iter := new FieldIter(fields, 0);
    ghost var seen: set<nat> := {};
    NoneBelow(RequiredBefore(fields, |fields|));
    m' := m;
    var stopped := false;
    while stream.bytesLeft > 0 && !stopped
      invariant stream.Valid() && Within(here, stream.Here()) && stream.state + stream.bytesLeft == here.at + here.left
      invariant fresh(iter) && fresh(words) && iter.fields == fields && Tracks(words, iter, seen)
      invariant r == if stopped then Good(Progress(m', seen, true), Rest(stream.Here()))
                     else DecodeLoop(fields, Rest(stream.Here()), m', seen)
      decreases !stopped, stream.bytesLeft
    {
      ghost var s := Rest(stream.Here());
      SomethingLeft(stream.Here());
      LoopStep(fields, s, m', seen);
      var got, wt, tag, eof := DecodeTagOf(stream);
      if !got {
        if !eof {
          return false, m';
        }
        stopped := true;
      } else {
        ghost var t := DecodeTag(s);
        AfterTagShrinks(fields, t.tag, t.wt, t.rest, m', seen);
        var done: bool;
        done, m', seen := GetRecord(stream, iter, words, tag, wt, m', seen);
        if !done {
          return false, m';
        }
        SomethingLeft(stream.Here());
      }
    }
    SomethingLeft(stream.Here());
    LoopEnds(fields, m', seen);
    ok := CheckRequired(iter, words, seen);
  }

  lemma NoneBelow(n: nat)
    ensures Below({}, n)
  {
  }

  lemma SomethingLeft(v: Source)
    requires Sound(v)
    ensures |Rest(v)| == v.left
  {
  }

  lemma LoopEnds(fields: seq<Field>, m: Message, seen: set<nat>)
    ensures DecodeLoop(fields, [], m, seen) == Good(Progress(m, seen, false), [])
  {
  }

  /** pb_decode */
  method DecodeOf(stream: IStream, fields: seq<Field>) returns (ok: bool, m: Message)
    requires stream.Valid() && WellFormed(fields)
    modifies stream
    ensures Took(old(stream.Here()), stream.Here(), ok, Decode(fields, Rest(old(stream.Here()))))
    ensures ok ==> m == Decode(fields, Rest(old(stream.Here()))).value
    decreases fields, 2
  {
    hide DecodeNoInit, Default, Rest;
    m := SetToDefaults(fields);
    ok, m := DecodeNoInitOf(stream, fields, m);
  }

  /** pb_decode_delimited */
  method DecodeDelimitedOf(stream: IStream, fields: seq<Field>) returns (ok: bool, m: Message)
    requires stream.Valid() && WellFormed(fields)
    modifies stream
    ensures Took(old(stream.Here()), stream.Here(), ok, DecodeDelimited(fields, Rest(old(stream.Here()))))
    ensures ok ==> m == DecodeDelimited(fields, Rest(old(stream.Here()))).value
  {
    hide Delimited, Rest, Decode, Default;
    ghost var here := stream.Here();
    ghost var r := Delimited(Rest(here));
    var sub: IStream;
    m := Msg([], map[]);
    ok, sub := MakeSubstream(stream);
    if !ok {
      return;
    }
    ghost var c := sub.Here();
    ok, m := DecodeOf(sub, fields);
    CloseSubstream(stream, sub, here, c, r);
  }
}
