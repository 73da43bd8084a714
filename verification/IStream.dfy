/** pb_istream_t over a memory buffer, and the primitive readers of pb_decode.c. */
module IStreams {
  import opened Common
  import V = Varint
  import opened Decoding

  /** Where an input stream stands in its buffer. */
  datatype Source = Source(data: seq<Byte>, at: nat, left: nat)

  predicate Sound(v: Source)
  {
    v.at + v.left <= |v.data|
  }

  function Rest(v: Source): seq<Byte>
    requires Sound(v)
  {
    v.data[v.at..v.at + v.left]
  }

  /** Same buffer, and the end of the readable range has not moved up. */
  predicate Within(v: Source, v': Source)
  {
    Sound(v) && Sound(v') && v'.data == v.data && v'.at + v'.left <= v.at + v.left
  }

  /** The reader did what parse result r says; after a success the limit is where it was. */
  ghost predicate Took<T>(v: Source, v': Source, ok: bool, r: Parse<T>)
  {
    && Within(v, v')
    && ok == r.Good?
    && (ok ==> Rest(v') == r.rest && v'.at + v'.left == v.at + v.left)
  }

  class IStream {
    const data: seq<Byte>
    var state: nat
    var bytesLeft: nat

    ghost function Here(): Source
      reads this
    {
      Source(data, state, bytesLeft)
    }

    ghost predicate Valid()
      reads this
    {
      Sound(Here())
    }

    /** pb_istream_from_buffer, and the copy made for a substream */
    constructor (data: seq<Byte>, at: nat, size: nat)
      requires at + size <= |data|
      ensures Valid() && Here() == Source(data, at, size) && fresh(this)
    {
      this.data, state, bytesLeft := data, at, size;
    }

    /** pb_read */
    method Read(count: nat) returns (ok: bool, buf: seq<Byte>)
      requires Valid()
      modifies this
      ensures Took(old(Here()), Here(), ok, ReadBytes(Rest(old(Here())), count))
      ensures ok ==> buf == ReadBytes(Rest(old(Here())), count).value
      ensures !ok ==> Here() == old(Here())
    {
      if bytesLeft < count {
        return false, [];
      }
      ghost var v := Here();
      buf := data[state..state + count];
      state := state + count;
      bytesLeft := bytesLeft - count;
      assert Rest(v)[..count] == buf;
      assert Rest(v)[count..] == Rest(Here());
      return true, buf;
    }

    /** pb_read into NULL */
    method Skip(count: nat) returns (ok: bool)
      requires Valid()
      modifies this
      ensures Took(old(Here()), Here(), ok, Skipped(ReadBytes(Rest(old(Here())), count)))
      ensures !ok ==> Here() == old(Here())
    {
      hide Rest, ReadBytes;
      var buf: seq<Byte>;
      ok, buf := Read(count);
    }

    /** pb_readbyte */
    method ReadByte() returns (ok: bool, b: Byte)
      requires Valid()
      modifies this
      ensures Valid() && state + bytesLeft == old(state + bytesLeft)
      ensures ok == (Rest(old(Here())) != [])
      ensures ok ==> b == Rest(old(Here()))[0] && Rest(Here()) == Rest(old(Here()))[1..]
      ensures ok ==> bytesLeft == old(bytesLeft) - 1
      ensures !ok ==> Here() == old(Here()) && bytesLeft == 0
    {
      if bytesLeft == 0 {
        return false, 0;
      }
      b := data[state];
      state := state + 1;
      bytesLeft := bytesLeft - 1;
      return true, b;
    }

    /** pb_decode_varint */
    method DecodeVarint() returns (ok: bool, dest: nat)
      requires Valid()
      modifies this
      ensures Took(old(Here()), Here(), ok, V.DecodeVarint(Rest(old(Here()))))
      ensures ok ==> dest == V.DecodeVarint(Rest(old(Here()))).value < U64
    {
      hide V.DecodeVarint, V.DecodeVarintFrom, V.NextAcc64, V.Shl, V.Shl7, V.BitOr, Rest;
      ghost var s := Rest(Here());
      var bitpos: nat, result: nat := 0, 0;
      var b: Byte := 128;
      Start64(s);
      while b >= 128
        invariant Valid() && state + bytesLeft == old(state + bytesLeft)
        invariant bitpos % 7 == 0 && bitpos <= 70 && result < U64
        invariant bitpos <= 63 ==> result < V.Shl7(1, bitpos / 7)
        invariant b >= 128 ==> V.DecodeVarint(s) == V.DecodeVarintFrom(Rest(Here()), bitpos / 7, result)
        invariant b < 128 ==> V.DecodeVarint(s) == Good(result, Rest(Here()))
        decreases 70 - bitpos, b
      {
        ghost var here := Rest(Here());
        Stuck64(here, bitpos / 7, result);
        if bitpos >= 64 {
          return false, 0;
        }
        ok, b := ReadByte();
        if !ok {
          return false, 0;
        }
        Turn64(here, bitpos / 7, result);
        result := V.BitOr(result, V.Shl(b % 128, bitpos) % U64);
        bitpos := bitpos + 7;
      }
      return true, result;
    }

    /** pb_decode_varint32_eof; eof is set only when there was nothing at all to read. */
    method DecodeVarint32() returns (ok: bool, dest: nat, eof: bool)
      requires Valid()
      modifies this
      ensures Took(old(Here()), Here(), ok, V.DecodeVarint32(Rest(old(Here()))))
      ensures ok ==> dest == V.DecodeVarint32(Rest(old(Here()))).value
      ensures eof == (Rest(old(Here())) == [])
      ensures eof ==> Here() == old(Here())
    {
      hide V.DecodeVarint32Loop, V.NextAcc32, Rest;
      ghost var s := Rest(Here());
      var b: Byte;
      ok, b := ReadByte();
      if !ok {
        return false, 0, bytesLeft == 0;
      }
      if b < 128 {
        return true, b, false;
      }
      ok, dest := MoreGroups(b % 128);
      return ok, dest, false;
    }

    /** The multi-byte part of pb_decode_varint32_eof, after a first group */
    method MoreGroups(first: nat) returns (ok: bool, dest: nat)
      requires Valid()
      modifies this
      ensures Took(old(Here()), Here(), ok, V.DecodeVarint32Loop(Rest(old(Here())), 7, first))
      ensures ok ==> dest == V.DecodeVarint32Loop(Rest(old(Here())), 7, first).value
    {
      hide V.DecodeVarint32Loop, Rest, V.BitOr, V.Shl;
      ghost var r := V.DecodeVarint32Loop(Rest(Here()), 7, first);
      var bitpos: nat, result: nat := 7, first;
      var b: Byte := 128;
      while b >= 128
        invariant Valid() && state + bytesLeft == old(state + bytesLeft) && bitpos < 256
        invariant b >= 128 ==> r == V.DecodeVarint32Loop(Rest(Here()), bitpos, result)
        invariant b < 128 ==> r == if bitpos == 35 && (b / 16) % 8 != 0 then Bad else Good(result, Rest(Here()))
        decreases bytesLeft, b
      {
        ghost var here := Rest(Here());
        Turn32(here, bitpos, result);
        ok, b := ReadByte();
        if !ok {
          return false, 0;
        }
        if bitpos >= 32 {
          var sign := if bitpos < 63 then 255 else 1;
          if b % 128 != 0 && (result < 0x8000_0000 || b != sign) {
            return false, 0;
          }
        } else {
          result := V.BitOr(result, V.Shl(b % 128, bitpos) % U32);
        }
        bitpos := (bitpos + 7) % 256;
      }
      if bitpos == 35 && (b / 16) % 8 != 0 {
        return false, 0;
      }
      return true, result;
    }
  }

  lemma Start64(s: seq<Byte>)
    ensures V.DecodeVarint(s) == V.DecodeVarintFrom(s, 0, 0) && V.Shl7(1, 0) == 1
  {
  }

  lemma Stuck64(s: seq<Byte>, k: nat, acc: nat)
    ensures k >= 10 || s == [] ==> V.DecodeVarintFrom(s, k, acc) == Bad
  {
  }

  /** One turn of the pb_decode_varint loop. */
  lemma Turn64(s: seq<Byte>, k: nat, acc: nat)
    requires s != [] && k <= 9 && acc < V.Shl7(1, k)
    ensures var acc' := V.BitOr(acc, V.Shl(s[0] % 128, 7 * k) % U64);
            && acc' < U64
            && (k < 9 ==> acc' < V.Shl7(1, k + 1))
            && V.DecodeVarintFrom(s, k, acc) == if s[0] >= 128 then V.DecodeVarintFrom(s[1..], k + 1, acc')
                else Good(acc', s[1..])
  {
    hide V.Shl, V.Shl7, V.BitOr, V.NextAcc64, V.DecodeVarintFrom;
    GroupOr(acc, s[0] % 128, k);
    V.Step64(s, k, acc);
  }

  /** A byte past bit 31 that is neither empty nor a sign extension */
  predicate Overflows(b: Byte, bitpos: nat, result: nat)
  {
    bitpos >= 32 && b % 128 != 0 && (result < 0x8000_0000 || b != if bitpos < 63 then 255 else 1)
  }

  /** One turn of the pb_decode_varint32_eof loop. */
  lemma Turn32(s: seq<Byte>, bitpos: nat, acc: nat)
    requires bitpos < 256
    ensures s == [] ==> V.DecodeVarint32Loop(s, bitpos, acc) == Bad
    ensures s != [] && Overflows(s[0], bitpos, acc) ==> V.DecodeVarint32Loop(s, bitpos, acc) == Bad
    ensures s != [] && !Overflows(s[0], bitpos, acc) ==>
              V.DecodeVarint32Loop(s, bitpos, acc)
                == After32(s, (bitpos + 7) % 256, V.NextAcc32(s[0] % 128, bitpos, acc))
  {
    hide V.NextAcc32;
    NextPosition(bitpos);
  }

  /** The loop goes on while the continuation bit is set; a fifth byte must fit its four bits. */
  function After32(s: seq<Byte>, bitpos: nat, acc: nat): Parse<nat>
    requires s != [] && bitpos < 256
  {
    if s[0] >= 128 then V.DecodeVarint32Loop(s[1..], bitpos, acc)
    else if bitpos == 35 && (s[0] / 16) % 8 != 0 then Bad
    else Good(acc, s[1..])
  }

  lemma NextPosition(bitpos: nat)
    requires bitpos < 256
    ensures (bitpos + 7) % 256 == if bitpos + 7 < 256 then bitpos + 7 else bitpos + 7 - 256
  {
  }

  /** The shifted group and the accumulator share no bit, so the C `|` is the sum. */
  lemma GroupOr(acc: nat, low: nat, k: nat)
    requires k <= 9 && acc < V.Shl7(1, k) && low < 128
    ensures V.BitOr(acc, V.Shl(low, 7 * k) % U64) == V.NextAcc64(low, k, acc) < U64
    ensures k < 9 ==> V.NextAcc64(low, k, acc) < V.Shl7(1, k + 1)
  {
    hide V.Shl, V.Shl7, V.BitOr;
    V.Shl7IsShl(1, k);
    V.Shl7Values();
    if k < 9 {
      V.Shl7IsShl(low, k);
      V.Shl7Bound(low, k);
      V.Shl7Monotone(k + 1, 9);
      V.OrOfDisjointIsSum(acc, low, 7 * k);
    } else {
      V.Shl7IsShl(low, 9);
      V.Shl7IsShl(low % 2, 9);
      TopGroup(low);
      V.OrOfDisjointIsSum(acc, low % 2, 63);
      TopSum(acc, low);
    }
  }

  /** At bit position 63 all but the lowest bit of the group is shifted out. */
  lemma TopGroup(low: nat)
    ensures V.Shl7(low, 9) % U64 == V.Shl7(low % 2, 9)
  {
    TopValue(low);
    TopValue(low % 2);
    Mod64(V.Shl7(low, 9), low / 2, V.Shl7(low % 2, 9));
  }

  lemma TopValue(x: nat)
    ensures V.Shl7(x, 9) == 0x8000_0000_0000_0000 * x
  {
    V.Shl7Four(x);
    assert V.Shl7(x, 6) == 0x400_0000_0000 * x;
    assert V.Shl7(x, 7) == 0x2_0000_0000_0000 * x;
    assert V.Shl7(x, 8) == 0x100_0000_0000_0000 * x;
  }

  lemma TopSum(acc: nat, low: nat)
    requires acc < 0x8000_0000_0000_0000
    ensures acc + V.Shl7(low % 2, 9) == V.NextAcc64(low, 9, acc) < U64
  {
    TopValue(low);
    TopValue(low % 2);
    Mod64(acc + V.Shl7(low, 9), low / 2, acc + V.Shl7(low % 2, 9));
  }

  lemma Mod64(x: nat, q: nat, r: nat)
    requires x == U64 * q + r && r < U64
    ensures x % U64 == r
  {
  }
}
