/** Scalar round trips: what the decoder's field functions make of the encoder's. */
module Scalars {
  import opened Common
  import opened Varint
  import opened Schema
  import opened Encoding
  import opened Decoding

  /** Zigzag is a bijection between int64 and uint64 that keeps small magnitudes small. */
  lemma ZigZagRoundTrip(v: int)
    requires -0x8000_0000_0000_0000 <= v < 0x8000_0000_0000_0000
    ensures ZigZag(v) < U64 && UnZigZag(ZigZag(v)) == v
    ensures ZigZag(v) == if v < 0 then -2 * v - 1 else 2 * v
  {
    if v < 0 {
      assert ((U64 + v) * 2) % U64 == U64 + 2 * v;
    }
  }

  lemma UnZigZagRoundTrip(u: nat)
    requires u < U64
    ensures -0x8000_0000_0000_0000 <= UnZigZag(u) < 0x8000_0000_0000_0000 && ZigZag(UnZigZag(u)) == u
  {
    ZigZagRoundTrip(UnZigZag(u));
  }

  lemma {:induction false} LittleEndianRoundTrip(v: nat, n: nat)
    requires v < Pow(256, n)
    ensures FromLittleEndian(LittleEndian(v, n)) == v
  {
    if n > 0 {
      LittleEndianRoundTrip(v / 256, n - 1);
      assert LittleEndian(v, n)[1..] == LittleEndian(v / 256, n - 1);
    }
  }

  lemma ReadIntRoundTrip(v: nat, n: nat, t: seq<Byte>)
    requires v < Pow(256, n)
    ensures ReadInt(LittleEndian(v, n) + t, n) == Good(v, t)
  {
    hide Pow, LittleEndian, FromLittleEndian;
    LittleEndianRoundTrip(v, n);
    var b := LittleEndian(v, n);
    assert (b + t)[..n] == b && (b + t)[n..] == t;
  }

  /** The cast undoes the conversion to uint64 on every value of the C type. */
  lemma CastRoundTrip(k: Kind, n: nat, i: int)
    requires k.VarInt? && n in {1, 2, 4, 8} && InRange(k, n, i)
    ensures Cast(k, n, i % U64) == i
  {
    var u := i % U64;
    assert u == if i < 0 then i + U64 else i;
    if n < 8 && i < 0 {
      ModIs(u, U32 - 1, i + U32);
    }
  }

  lemma EncIntShape(k: Kind, n: nat, i: int)
    requires Packable(k) && InRange(k, n, i) && (!k.Fixed32? && !k.Fixed64? ==> n in {1, 2, 4, 8})
    ensures k.VarInt? ==> EncInt(k, i) == EncodeVarint(i % U64)
    ensures k.UVarInt? ==> i >= 0 && i < U64 && EncInt(k, i) == EncodeVarint(i)
    ensures k.SVarInt? ==> -0x8000_0000_0000_0000 <= i < 0x8000_0000_0000_0000
    ensures k.SVarInt? ==> EncInt(k, i) == EncodeVarint(ZigZag(i))
    ensures k.Fixed32? ==> 0 <= i < U32 && EncInt(k, i) == LittleEndian(i, 4)
    ensures k.Fixed64? ==> 0 <= i < U64 && EncInt(k, i) == LittleEndian(i, 8)
  {
    hide EncodeVarint, LittleEndian, ZigZag;
  }

  lemma IntRoundTrip(k: Kind, n: nat, i: int, t: seq<Byte>)
    requires Packable(k) && InRange(k, n, i) && (!k.Fixed32? && !k.Fixed64? ==> n in {1, 2, 4, 8})
    ensures DecInt(k, n, EncInt(k, i) + t) == Good(i, t)
    ensures 1 <= |EncInt(k, i)| <= 10
  {
    EncIntShape(k, n, i);
    hide EncodeVarint, LittleEndian, ZigZag, EncInt, DecodeVarint, ReadInt, Cast, UnZigZag;
    WordPowers();
    match k {
      case VarInt =>
        CastRoundTrip(k, n, i);
        DecodeEncodedVarint(i % U64, t);
      case UVarInt =>
        DecodeEncodedVarint(i, t);
        CastUnsigned(i, n);
      case SVarInt =>
        ZigZagRoundTrip(i);
        DecodeEncodedVarint(ZigZag(i), t);
        CastZigZag(i, n);
      case Fixed32 => ReadIntRoundTrip(i, 4, t);
      case Fixed64 => ReadIntRoundTrip(i, 8, t);
    }
  }

  lemma CastUnsigned(i: nat, n: nat)
    ensures Cast(UVarInt, n, i) == i
  {
  }

  lemma CastZigZag(i: int, n: nat)
    requires -0x8000_0000_0000_0000 <= i < 0x8000_0000_0000_0000
    ensures Cast(SVarInt, n, ZigZag(i)) == i
  {
    hide ZigZag, UnZigZag;
    ZigZagRoundTrip(i);
  }

  lemma DelimitedRoundTrip(b: seq<Byte>, t: seq<Byte>)
    requires |b| < U32
    ensures Delimited(EncLengthPrefixed(b) + t) == Good(b, t)
  {
    hide EncodeVarint, DecodeVarint32;
    var e := EncodeVarint(|b|);
    assert e + b + t == e + (b + t);
    Decode32EncodedVarint(|b|, b + t);
    assert (b + t)[..|b|] == b && (b + t)[|b|..] == t;
  }

  lemma TagRoundTrip(tag: nat, wt: nat, t: seq<Byte>)
    requires 1 <= tag < 0x2000_0000 && wt < 8
    ensures DecodeTag(EncodeVarint(8 * tag + wt) + t) == Tagged(tag, wt, t)
  {
    hide DecodeVarint32;
    Decode32EncodedVarint(8 * tag + wt, t);
  }

  lemma {:induction false} UpToNulWhole(b: seq<Byte>)
    requires 0 !in b
    ensures UpToNul(b) == b
  {
    if b != [] {
      assert 0 !in b[1..] by { assert forall x :: x in b[1..] ==> x in b; }
      UpToNulWhole(b[1..]);
      assert b[0] in b;
    }
  }

  lemma PackedItem(f: Field, v: Value, rest: seq<Byte>, prior: seq<Value>)
    requires WellFormedField(f) && Packable(f.kind) && ReadyValue(f, v) && |prior| < f.arraySize
    ensures v == IntV(IntOf(v))
    ensures 1 <= |EncInt(f.kind, IntOf(v))| <= 10
    ensures DecPacked(f, EncInt(f.kind, IntOf(v)) + rest, prior) == DecPacked(f, rest, prior + [v])
  {
    hide EncInt, DecInt, InRange;
    IntRoundTrip(f.kind, f.dataSize, IntOf(v), rest);
  }

  lemma PackedSplit(k: Kind, items: seq<Value>)
    requires items != []
    ensures EncPacked(k, items) == EncInt(k, IntOf(items[0])) + EncPacked(k, items[1..])
  {
    hide EncInt;
  }

  /** A whole packed array comes back, appended to what the array already held. */
  lemma {:induction false} PackedRoundTrip(f: Field, prior: seq<Value>, items: seq<Value>)
    requires WellFormedField(f) && Packable(f.kind)
    requires ReadyItems(f, items)
    requires |prior| + |items| <= f.arraySize
    ensures DecPacked(f, EncPacked(f.kind, items), prior) == Some(prior + items)
    ensures |EncPacked(f.kind, items)| <= 10 * |items|
    decreases |items|
  {
    if items == [] {
      assert prior + items == prior;
    } else {
      hide EncInt, DecInt, DecPacked, EncPacked, ReadyValue, WellFormedField, Packable, IntOf;
      PackedSplit(f.kind, items);
      var first, others := items[0], items[1..];
      PackedItem(f, first, EncPacked(f.kind, others), prior);
      PackedRoundTrip(f, prior + [first], others);
      AppendHead(prior, items);
    }
  }
}
