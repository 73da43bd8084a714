/** Base-128 varints: the value-level meaning of the nanopb integer codecs.
    `|` on disjoint bit ranges is written as addition; where the ranges can overlap
    (the 32-bit decoder after its 8-bit bit position wraps) it is `BitOr`. */
module Varint {
  import opened Common

  // ---- shifts ----

  function Shl(x: nat, n: nat): nat
  {
    if n == 0 then x else 2 * Shl(x, n - 1)
  }

  /** x << 7k */
  function Shl7(x: nat, k: nat): nat
  {
    if k == 0 then x else 128 * Shl7(x, k - 1)
  }

  lemma {:induction false} Shl7Add(a: nat, b: nat, k: nat)
    ensures Shl7(a + b, k) == Shl7(a, k) + Shl7(b, k)
  {
    if k > 0 { Shl7Add(a, b, k - 1); }
  }

  lemma {:induction false} Shl7Group(q: nat, k: nat)
    ensures Shl7(128 * q, k) == Shl7(q, k + 1)
  {
    if k > 0 { Shl7Group(q, k - 1); }
  }

  lemma {:induction false} Shl7Split(v: nat, k: nat)
    ensures Shl7(v, k) == Shl7(v % 128, k) + Shl7(v / 128, k + 1)
  {
    Shl7Add(v % 128, 128 * (v / 128), k);
    Shl7Group(v / 128, k);
  }

  /** A 7-bit group at position k stays below 2^(7(k+1)). */
  lemma {:induction false} Shl7Bound(low: nat, k: nat)
    requires low < 128
    ensures Shl7(low, k) + Shl7(1, k) <= Shl7(1, k + 1)
  {
    if k > 0 { Shl7Bound(low, k - 1); }
  }

  lemma {:induction false} Shl7Monotone(k: nat, n: nat)
    requires k <= n
    ensures 1 <= Shl7(1, k) <= Shl7(1, n)
  {
    if k < n { Shl7Monotone(k, n - 1); } else if k > 0 { Shl7Monotone(k - 1, k - 1); }
  }

  lemma Shl7Values()
    ensures Shl7(1, 1) == 0x80 && Shl7(1, 4) == 0x1000_0000 && Shl7(1, 5) == 0x8_0000_0000
    ensures Shl7(1, 9) == 0x8000_0000_0000_0000 && Shl7(1, 10) == 0x40_0000_0000_0000_0000
  {
    assert Shl7(1, 5) == 0x8_0000_0000;
  }

  lemma {:induction false} ShlAdd(x: nat, m: nat, n: nat)
    ensures Shl(x, m + n) == Shl(Shl(x, n), m)
  {
    if m > 0 { ShlAdd(x, m - 1, n); }
  }

  lemma ShlSeven(y: nat)
    ensures Shl(y, 7) == 128 * y
  {
    assert Shl(y, 1) == 2 * y;
    assert Shl(y, 2) == 4 * y;
    assert Shl(y, 3) == 8 * y;
    assert Shl(y, 4) == 16 * y;
    assert Shl(y, 5) == 32 * y;
    assert Shl(y, 6) == 64 * y;
  }

  lemma {:induction false} Shl7IsShl(x: nat, k: nat)
    ensures Shl7(x, k) == Shl(x, 7 * k)
  {
    if k > 0 {
      Shl7IsShl(x, k - 1);
      ShlAdd(x, 7, 7 * (k - 1));
      var y := Shl(x, 7 * (k - 1));
      ShlSeven(y);
    }
  }

  // ---- encoding ----

  function EncodeVarint(v: nat): (r: seq<Byte>)
    ensures |r| >= 1
  {
    if v < 128 then [v] else [128 + v % 128] + EncodeVarint(v / 128)
  }

  /** What the C loop has in its buffer before the top bit of the last byte is cleared. */
  function Chopped(v: nat): (r: seq<Byte>)
    ensures v > 0 ==> |r| > 0 && r[|r| - 1] >= 128
  {
    if v == 0 then [] else [128 + v % 128] + Chopped(v / 128)
  }

  function ClearLastTop(s: seq<Byte>): seq<Byte>
    requires |s| > 0 && s[|s| - 1] >= 128
  {
    s[|s| - 1 := s[|s| - 1] - 128]
  }

  lemma {:induction false} ChoppedIsVarint(v: nat)
    requires v > 0
    ensures ClearLastTop(Chopped(v)) == EncodeVarint(v)
  {
    if v >= 128 {
      ChoppedIsVarint(v / 128);
      var c := Chopped(v / 128);
      assert ClearLastTop([128 + v % 128] + c) == [128 + v % 128] + ClearLastTop(c);
    } else {
      assert Chopped(v / 128) == [];
    }
  }

  lemma {:induction false} VarintLength(v: nat, k: nat)
    requires k >= 1 && v < Shl7(1, k)
    ensures |EncodeVarint(v)| == |Chopped(if v == 0 then 1 else v)| <= k
  {
    if v >= 128 {
      VarintLength(v / 128, k - 1);
    } else {
      assert Chopped(v / 128) == [];
    }
  }

  // ---- 64-bit decoding ----

  function NextAcc64(low: nat, k: nat, acc: nat): nat
  {
    (acc + Shl7(low, k)) % U64
  }

  /** The loop of pb_decode_varint after k bytes (bit position 7k) with partial result acc. */
  function DecodeVarintFrom(s: seq<Byte>, k: nat, acc: nat): (r: Parse<nat>)
    ensures r.Good? ==> |r.rest| < |s| && r.rest == s[|s| - |r.rest|..]
    decreases |s|
  {
    if 7 * k >= 64 || s == [] then Bad
    else
      var acc' := NextAcc64(s[0] % 128, k, acc);
      if s[0] >= 128 then DecodeVarintFrom(s[1..], k + 1, acc') else Good(acc', s[1..])
  }

  function DecodeVarint(s: seq<Byte>): (r: Parse<nat>)
    ensures r.Good? ==> |r.rest| < |s| && r.rest == s[|s| - |r.rest|..]
  {
    DecodeVarintFrom(s, 0, 0)
  }

  lemma Step64(s: seq<Byte>, k: nat, acc: nat)
    requires k <= 9 && s != []
    ensures DecodeVarintFrom(s, k, acc)
         == if s[0] >= 128 then DecodeVarintFrom(s[1..], k + 1, NextAcc64(s[0] % 128, k, acc))
            else Good(NextAcc64(s[0] % 128, k, acc), s[1..])
  {
  }

  lemma {:induction false} DecodeEncodedFrom(v: nat, t: seq<Byte>, k: nat, acc: nat)
    requires acc < Shl7(1, k) && acc + Shl7(v, k) < U64 && k <= 9
    ensures DecodeVarintFrom(EncodeVarint(v) + t, k, acc) == Good(acc + Shl7(v, k), t)
    decreases v
  {
    hide DecodeVarintFrom, Shl7;
    var e := EncodeVarint(v);
    assert (e + t)[0] == e[0] && (e + t)[1..] == e[1..] + t;
    Step64(e + t, k, acc);
    Shl7Split(v, k);
    Shl7Bound(v % 128, k);
    if v < 128 {
      assert e[1..] + t == t;
    } else {
      assert e[1..] == EncodeVarint(v / 128);
      if k == 9 {
        Shl7Split(v / 128, k + 1);
        Shl7Values();
        Shl7AtLeast(v / 128, 10);
      }
      DecodeEncodedFrom(v / 128, t, k + 1, acc + Shl7(v % 128, k));
    }
  }

  lemma {:induction false} Shl7AtLeast(v: nat, k: nat)
    requires v >= 1
    ensures Shl7(v, k) >= Shl7(1, k)
  {
    if k > 0 { Shl7AtLeast(v, k - 1); }
  }

  /** pb_decode_varint undoes pb_encode_varint on every 64-bit value, in at most ten bytes. */
  lemma DecodeEncodedVarint(v: nat, t: seq<Byte>)
    requires v < U64
    ensures DecodeVarint(EncodeVarint(v) + t) == Good(v, t)
    ensures |EncodeVarint(v)| <= 10
  {
    DecodeEncodedFrom(v, t, 0, 0);
    Shl7Values();
    VarintLength(v, 10);
  }

  lemma {:induction false} DecodeVarintExtends(s: seq<Byte>, t: seq<Byte>, k: nat, acc: nat)
    requires DecodeVarintFrom(s, k, acc).Good?
    ensures DecodeVarintFrom(s + t, k, acc)
         == Good(DecodeVarintFrom(s, k, acc).value, DecodeVarintFrom(s, k, acc).rest + t)
    decreases |s|
  {
    hide NextAcc64;
    assert (s + t)[1..] == s[1..] + t;
    if s[0] >= 128 {
      DecodeVarintExtends(s[1..], t, k + 1, NextAcc64(s[0] % 128, k, acc));
    }
  }

  // ---- 32-bit decoding ----

  function BitOr(a: nat, b: nat): nat
  {
    if a == 0 then b
    else if b == 0 then a
    else (if a % 2 == 1 || b % 2 == 1 then 1 else 0) + 2 * BitOr(a / 2, b / 2)
  }

  function NextAcc32(low: nat, bitpos: nat, acc: nat): nat
  {
    if bitpos >= 32 then acc else BitOr(acc, Shl(low, bitpos) % U32)
  }

  /** The do-while of pb_decode_varint32_eof. `bitpos` is a uint_fast8_t: it wraps at 256. */
  function DecodeVarint32Loop(s: seq<Byte>, bitpos: nat, acc: nat): (r: Parse<nat>)
    requires bitpos < 256
    ensures r.Good? ==> |r.rest| < |s| && r.rest == s[|s| - |r.rest|..]
    decreases |s|
  {
    if s == [] then Bad
    else
      var low := s[0] % 128;
      var sign := if bitpos < 63 then 255 else 1;
      if bitpos >= 32 && low != 0 && (acc < 0x8000_0000 || s[0] != sign) then Bad
      else
        var acc' := NextAcc32(low, bitpos, acc);
        var bitpos' := if bitpos + 7 < 256 then bitpos + 7 else bitpos + 7 - 256;
        if s[0] >= 128 then DecodeVarint32Loop(s[1..], bitpos', acc')
        else if bitpos' == 35 && (s[0] / 16) % 8 != 0 then Bad
        else Good(acc', s[1..])
  }

  function DecodeVarint32(s: seq<Byte>): (r: Parse<nat>)
    ensures r.Good? ==> |r.rest| < |s| && r.rest == s[|s| - |r.rest|..]
  {
    if s == [] then Bad
    else if s[0] < 128 then Good(s[0], s[1..])
    else DecodeVarint32Loop(s[1..], 7, s[0] % 128)
  }

  lemma {:induction false} DecodeVarint32LoopExtends(s: seq<Byte>, t: seq<Byte>, bitpos: nat, acc: nat)
    requires bitpos < 256
    requires DecodeVarint32Loop(s, bitpos, acc).Good?
    ensures DecodeVarint32Loop(s + t, bitpos, acc)
         == Good(DecodeVarint32Loop(s, bitpos, acc).value, DecodeVarint32Loop(s, bitpos, acc).rest + t)
    decreases |s|
  {
    hide NextAcc32;
    assert (s + t)[1..] == s[1..] + t;
    if s[0] >= 128 {
      DecodeVarint32LoopExtends(s[1..], t, if bitpos + 7 < 256 then bitpos + 7
          else bitpos + 7 - 256, NextAcc32(s[0] % 128, bitpos, acc));
    }
  }

  lemma DecodeVarint32Extends(s: seq<Byte>, t: seq<Byte>)
    requires DecodeVarint32(s).Good?
    ensures DecodeVarint32(s + t) == Good(DecodeVarint32(s).value, DecodeVarint32(s).rest + t)
  {
    assert (s + t)[1..] == s[1..] + t;
    if s[0] >= 128 {
      DecodeVarint32LoopExtends(s[1..], t, 7, s[0] % 128);
    }
  }

  lemma {:induction false} OrOfDisjointIsSum(a: nat, m: nat, k: nat)
    requires a < Shl(1, k)
    ensures BitOr(a, Shl(m, k)) == a + Shl(m, k)
    decreases k
  {
    if k > 0 && a != 0 {
      OrOfDisjointIsSum(a / 2, m, k - 1);
      if Shl(m, k) == 0 { assert Shl(m, k - 1) == 0; }
    }
  }

  /** While at most four groups are in, the 32-bit accumulator is the 64-bit one. */
  lemma EarlyGroup(low: nat, k: nat, acc: nat)
    requires 1 <= k <= 3 && low < 128 && acc < Shl7(1, k)
    ensures NextAcc64(low, k, acc) == NextAcc32(low, 7 * k, acc) < Shl7(1, k + 1)
    ensures NextAcc64(low, k, acc) < U32
  {
    hide BitOr, Shl, Shl7;
    Shl7Bound(low, k);
    Shl7Monotone(k + 1, 4);
    Shl7Values();
    Shl7IsShl(1, k);
    Shl7IsShl(low, k);
    OrOfDisjointIsSum(acc, low, 7 * k);
  }

  lemma ModIs(x: nat, q: int, r: nat)
    requires x == U32 * q + r && r < U32
    ensures x % U32 == r
  {
  }

  lemma Shl7Four(x: nat)
    ensures Shl7(x, 4) == 0x1000_0000 * x && Shl7(x, 5) == 0x8_0000_0000 * x
  {
    assert Shl7(x, 1) == 0x80 * x;
    assert Shl7(x, 2) == 0x4000 * x;
    assert Shl7(x, 3) == 0x20_0000 * x;
  }

  /** The fifth group: its top three bits are shifted out. */
  lemma FifthGroup(low: nat, acc: nat)
    requires acc < Shl7(1, 4) && low < 128
    ensures NextAcc64(low, 4, acc) % U32 == NextAcc32(low, 28, acc)
    ensures low < 16 ==> NextAcc64(low, 4, acc) < U32
  {
    hide BitOr, Shl, Shl7;
    Shl7Values();
    Shl7Four(low);
    Shl7Four(low % 16);
    Shl7IsShl(1, 4);
    Shl7IsShl(low, 4);
    Shl7IsShl(low % 16, 4);
    OrOfDisjointIsSum(acc, low % 16, 28);
    ModIs(Shl7(low, 4), low / 16, Shl7(low % 16, 4));
    ModIs(acc + Shl7(low, 4), low / 16, acc + Shl7(low % 16, 4));
  }

  lemma {:induction false} HighShift(low: nat, k: nat) returns (q: nat)
    requires k >= 5
    ensures Shl7(low, k) == 8 * U32 * q
  {
    if k == 5 {
      Shl7Four(low);
      q := low;
    } else {
      var p := HighShift(low, k - 1);
      q := 128 * p;
    }
  }

  lemma SameLowBits(a: nat, x: nat, q: nat)
    requires x == a + U32 * q
    ensures x % U64 % U32 == a % U32
  {
    ModIs(x % U64, a / U32 + q - U32 * (x / U64), a % U32);
  }

  /** Groups from the sixth on do not touch the low 32 bits. */
  lemma LateGroup(low: nat, k: nat, acc: nat)
    requires k >= 5
    ensures NextAcc64(low, k, acc) % U32 == acc % U32
  {
    var q := HighShift(low, k);
    SameLowBits(acc, acc + Shl7(low, k), 8 * q);
  }

  lemma GroupStep(low: nat, k: nat, acc32: nat, acc: nat)
    requires 1 <= k <= 9 && low < 128
    requires acc % U32 == acc32 && (k <= 4 ==> acc == acc32 < Shl7(1, k))
    ensures var acc' := NextAcc64(low, k, acc);
            && acc' % U32 == NextAcc32(low, 7 * k, acc32)
            && (k <= 3 ==> acc' < Shl7(1, k + 1) && acc' < U32)
            && (k == 4 && low < 16 ==> acc' < U32)
  {
    if k <= 3 {
      EarlyGroup(low, k, acc);
    } else if k == 4 {
      FifthGroup(low, acc);
    } else {
      LateGroup(low, k, acc);
    }
  }

  lemma Step32(s: seq<Byte>, k: nat, acc: nat)
    requires 1 <= k <= 9 && DecodeVarint32Loop(s, 7 * k, acc).Good?
    ensures s != []
    ensures DecodeVarint32Loop(s, 7 * k, acc)
         == if s[0] >= 128 then DecodeVarint32Loop(s[1..], 7 * (k + 1), NextAcc32(s[0] % 128, 7 * k, acc))
            else Good(NextAcc32(s[0] % 128, 7 * k, acc), s[1..])
    ensures s[0] < 128 && k == 4 ==> s[0] < 16
  {
    hide NextAcc32;
  }

  /** pb_decode_varint32 against pb_decode_varint from the (k+1)-th byte on:
      same extent, same value modulo 2^32, and the same value when five bytes suffice. */
  lemma {:induction false} Varint32RefinesFrom(s: seq<Byte>, k: nat, acc32: nat, acc: nat)
    requires 1 <= k <= 9
    requires acc % U32 == acc32 && (k <= 4 ==> acc == acc32 < Shl7(1, k))
    requires DecodeVarint32Loop(s, 7 * k, acc32).Good?
    requires k + |s| - |DecodeVarint32Loop(s, 7 * k, acc32).rest| <= 10
    ensures Agree(k + |s|, DecodeVarint32Loop(s, 7 * k, acc32), DecodeVarintFrom(s, k, acc))
    decreases |s|
  {
    hide NextAcc32, NextAcc64, DecodeVarint32Loop, DecodeVarintFrom;
    Step32(s, k, acc32);
    Step64(s, k, acc);
    var low := s[0] % 128;
    GroupStep(low, k, acc32, acc);
    if s[0] >= 128 {
      Varint32RefinesFrom(s[1..], k + 1, NextAcc32(low, 7 * k, acc32), NextAcc64(low, k, acc));
    }
  }

  /** Same extent, same value modulo 2^32, equal when the varint ends within five bytes. */
  ghost predicate Agree(end: nat, r32: Parse<nat>, r: Parse<nat>)
  {
    && r32.Good? && r.Good? && r.rest == r32.rest && r32.value == r.value % U32
    && (end - |r.rest| <= 5 ==> r32.value == r.value)
  }

  lemma ShortVarintAgrees(s: seq<Byte>)
    requires DecodeVarint32(s).Good?
    requires |s| - |DecodeVarint32(s).rest| <= 10
    ensures Agree(|s|, DecodeVarint32(s), DecodeVarint(s))
  {
    var low := s[0] % 128;
    assert NextAcc64(low, 0, 0) == low;
    if s[0] >= 128 {
      Shl7Values();
      Varint32RefinesFrom(s[1..], 1, low, low);
    }
  }

  /** One of the first n bytes has its continuation bit clear. */
  predicate EndsWithin(s: seq<Byte>, n: nat)
  {
    n > 0 && s != [] && (s[0] < 128 || EndsWithin(s[1..], n - 1))
  }

  lemma {:induction false} Extent32(s: seq<Byte>, bitpos: nat, acc: nat, n: nat)
    requires bitpos < 256 && EndsWithin(s, n) && DecodeVarint32Loop(s, bitpos, acc).Good?
    ensures |s| - |DecodeVarint32Loop(s, bitpos, acc).rest| <= n
    decreases n
  {
    hide NextAcc32;
    if s[0] >= 128 {
      var next := if bitpos + 7 < 256 then bitpos + 7 else bitpos + 7 - 256;
      Extent32(s[1..], next, NextAcc32(s[0] % 128, bitpos, acc), n - 1);
    }
  }

  lemma Extent(s: seq<Byte>, n: nat)
    requires EndsWithin(s, n) && DecodeVarint32(s).Good?
    ensures |s| - |DecodeVarint32(s).rest| <= n
  {
    if s[0] >= 128 {
      Extent32(s[1..], 7, s[0] % 128, n - 1);
    }
  }

  /** pb_decode_varint gives up after ten bytes. */
  lemma {:induction false} EndsWithinTen(s: seq<Byte>, k: nat, acc: nat)
    requires k <= 10 && DecodeVarintFrom(s, k, acc).Good?
    ensures EndsWithin(s, 10 - k)
    decreases |s|
  {
    hide NextAcc64;
    if s[0] >= 128 {
      EndsWithinTen(s[1..], k + 1, NextAcc64(s[0] % 128, k, acc));
    }
  }

  /** Whatever pb_decode_varint32 accepts, pb_decode_varint accepts it too, takes the same bytes and agrees
      modulo 2^32, exactly when the varint ends within ten bytes; within five bytes the values are equal. */
  lemma Varint32Refines64(s: seq<Byte>)
    requires DecodeVarint32(s).Good?
    ensures EndsWithin(s, 10) <==>
              && DecodeVarint(s).Good? && DecodeVarint(s).rest == DecodeVarint32(s).rest
              && DecodeVarint32(s).value == DecodeVarint(s).value % U32
    ensures EndsWithin(s, 5) ==> DecodeVarint(s).Good? && DecodeVarint32(s).value == DecodeVarint(s).value
  {
    hide DecodeVarintFrom, DecodeVarint32Loop;
    if EndsWithin(s, 10) {
      Extent(s, 10);
      ShortVarintAgrees(s);
    }
    if EndsWithin(s, 5) {
      Extent(s, 5);
      ShortVarintAgrees(s);
    }
    if DecodeVarint(s).Good? {
      EndsWithinTen(s, 0, 0);
    }
  }

  // ---- what the 32-bit decoder accepts ----

  lemma MoreGroups(s: seq<Byte>, bitpos: nat, acc: nat)
    requires s != [] && s[0] >= 128 && bitpos < 32
    ensures DecodeVarint32Loop(s, bitpos, acc)
         == DecodeVarint32Loop(s[1..], bitpos + 7, NextAcc32(s[0] % 128, bitpos, acc))
  {
    hide NextAcc32;
  }

  lemma FinalGroup(s: seq<Byte>, bitpos: nat, acc: nat)
    requires s != [] && s[0] < 128 && bitpos <= 28 && (bitpos == 28 ==> s[0] < 16)
    ensures DecodeVarint32Loop(s, bitpos, acc) == Good(NextAcc32(s[0], bitpos, acc), s[1..])
  {
    hide NextAcc32;
  }

  lemma {:induction false} Decode32EncodedFrom(v: nat, t: seq<Byte>, k: nat, acc: nat)
    requires 1 <= k <= 4 && acc < Shl7(1, k) && acc + Shl7(v, k) < U32
    ensures DecodeVarint32Loop(EncodeVarint(v) + t, 7 * k, acc) == Good(acc + Shl7(v, k), t)
    decreases v
  {
    hide NextAcc32, NextAcc64, Shl7, DecodeVarint32Loop;
    var e := EncodeVarint(v);
    assert (e + t)[0] == e[0] && (e + t)[1..] == e[1..] + t;
    if k == 4 {
      Shl7Values();
      Shl7Four(v);
      LastGroup(v, acc);
      FinalGroup(e + t, 28, acc);
      assert e[1..] + t == t;
    } else {
      Shl7Split(v, k);
      Shl7Bound(v % 128, k);
      EarlyGroup(v % 128, k, acc);
      NoWrap(v % 128, k, acc);
      if v < 128 {
        Shl7Zero(k + 1);
        FinalGroup(e + t, 7 * k, acc);
        assert e[1..] + t == t;
      } else {
        assert e[1..] == EncodeVarint(v / 128);
        MoreGroups(e + t, 7 * k, acc);
        Decode32EncodedFrom(v / 128, t, k + 1, acc + Shl7(v % 128, k));
      }
    }
  }

  lemma {:induction false} Shl7Zero(k: nat)
    ensures Shl7(0, k) == 0
  {
    if k > 0 { Shl7Zero(k - 1); }
  }

  lemma NoWrap(low: nat, k: nat, acc: nat)
    requires low < 128 && 1 <= k <= 3 && acc < Shl7(1, k)
    ensures NextAcc64(low, k, acc) == acc + Shl7(low, k)
  {
    hide Shl7;
    Shl7Bound(low, k);
    Shl7Monotone(k + 1, 4);
    Shl7Values();
  }

  lemma LastGroup(v: nat, acc: nat)
    requires v < 16 && acc < Shl7(1, 4)
    ensures NextAcc32(v, 28, acc) == acc + Shl7(v, 4)
  {
    hide BitOr, Shl, Shl7;
    Shl7Values();
    Shl7Four(v);
    Shl7IsShl(v, 4);
    Shl7IsShl(1, 4);
    OrOfDisjointIsSum(acc, v, 28);
  }

  /** pb_decode_varint32 undoes pb_encode_varint on 32-bit values. */
  lemma Decode32EncodedVarint(v: nat, t: seq<Byte>)
    requires v < U32
    ensures DecodeVarint32(EncodeVarint(v) + t) == Good(v, t)
  {
    hide DecodeVarint32Loop, Shl7;
    var e := EncodeVarint(v);
    assert (e + t)[0] == e[0] && (e + t)[1..] == e[1..] + t;
    if v < 128 {
      assert e[1..] + t == t;
    } else {
      assert e[1..] == EncodeVarint(v / 128);
      Shl7Values();
      Shl7Split(v, 0);
      Shl7AtZero(v);
      Shl7AtZero(v % 128);
      Decode32EncodedFrom(v / 128, t, 1, v % 128);
    }
  }

  lemma Shl7AtZero(x: nat)
    ensures Shl7(x, 0) == x
  {
  }

  lemma GroupStepExact(low: nat, k: nat, acc32: nat, acc: nat)
    requires 1 <= k <= 4 && low < 128 && acc < Shl7(1, k) && acc32 == acc % U32
    ensures NextAcc32(low, 7 * k, acc32) == (acc + Shl7(low, k)) % U32
  {
    hide NextAcc32, Shl7;
    Shl7Monotone(k, 4);
    Shl7Monotone(k + 1, 5);
    Shl7Bound(low, k);
    Shl7Values();
    GroupStep(low, k, acc32, acc);
  }

  lemma LongVarint(u: nat, t: seq<Byte>)
    requires u >= 128
    ensures EncodeVarint(u)[0] == 128 + u % 128
    ensures (EncodeVarint(u) + t)[1..] == EncodeVarint(u / 128) + t
  {
    var e := EncodeVarint(u);
    assert e[1..] == EncodeVarint(u / 128);
    assert (e + t)[1..] == e[1..] + t;
  }

  // ---- exactly which values ----

  /** The groups of q are all zeros or all ones, n of them, and a single one follows. */
  predicate Padding(q: nat, n: nat)
  {
    if n == 0 then q == 1 else q % 128 in {0, 127} && Padding(q / 128, n - 1)
  }

  lemma {:induction false} NoPadding(n: nat)
    ensures !Padding(0, n)
  {
    if n > 0 { NoPadding(n - 1); }
  }

  /** Bytes six to ten: their groups must repeat the sign bit, or be zero. */
  lemma {:induction false} PaddingTail(q: nat, n: nat, t: seq<Byte>, acc: nat)
    requires n <= 4 && 0 < q < 2 * Shl7(1, n)
    ensures DecodeVarint32Loop(EncodeVarint(q) + t, 63 - 7 * n, acc)
         == if acc >= 0x8000_0000 && Padding(q, n) then Good(acc, t) else Bad
    decreases n
  {
    hide DecodeVarint32Loop;
    var e := EncodeVarint(q);
    assert (e + t)[0] == e[0] && (e + t)[1..] == e[1..] + t;
    HighGroup(e + t, 63 - 7 * n, acc);
    if q < 128 {
      assert e[1..] + t == t;
      NoPadding(if n == 0 then 0 else n - 1);
    } else {
      assert e[1..] == EncodeVarint(q / 128);
      PaddingTail(q / 128, n - 1, t, acc);
    }
  }

  lemma HighGroup(s: seq<Byte>, bitpos: nat, acc: nat)
    requires s != [] && 35 <= bitpos <= 63
    ensures var low := s[0] % 128;
            DecodeVarint32Loop(s, bitpos, acc)
              == if low != 0 && (acc < 0x8000_0000 || s[0] != if bitpos < 63 then 255 else 1) then Bad
                 else if s[0] >= 128 then DecodeVarint32Loop(s[1..], bitpos + 7, acc)
                 else Good(acc, s[1..])
  {
    hide BitOr, Shl;
  }

  /** What is left of q when the groups from the (k+1)-th to the fifth are taken off */
  function Above(q: nat, k: nat): nat
    requires k <= 5
    decreases 5 - k
  {
    if k == 5 then q else Above(q / 128, k + 1)
  }

  lemma FifthOverflows(s: seq<Byte>, acc: nat)
    requires s != [] && 16 <= s[0] < 128
    ensures DecodeVarint32Loop(s, 28, acc) == Bad
  {
    hide NextAcc32;
  }

  /** What a value comes to that does not fit 32 bits */
  function Wide(v: nat, q: nat, k: nat, t: seq<Byte>): Parse<nat>
    requires k <= 5
  {
    if v % U32 >= 0x8000_0000 && Padding(Above(q, k), 4) then Good(v % U32, t) else Bad
  }

  lemma WideFifth(q: nat, t: seq<Byte>, acc: nat)
    requires acc < Shl7(1, 4) && U32 <= acc + Shl7(q, 4) < U64
    ensures DecodeVarint32Loop(EncodeVarint(q) + t, 28, acc) == Wide(acc + Shl7(q, 4), q, 4, t)
  {
    hide NextAcc32, Shl7, DecodeVarint32Loop, Padding;
    var e := EncodeVarint(q);
    assert (e + t)[0] == e[0] && (e + t)[1..] == e[1..] + t;
    Shl7Values();
    Shl7Four(q);
    if q < 128 {
      FifthOverflows(e + t, acc);
      NoPadding(4);
      assert Above(q, 4) == 0;
    } else {
      assert e[1..] == EncodeVarint(q / 128);
      Shl7Split(q, 4);
      Shl7Four(q / 128);
      MoreGroups(e + t, 28, acc);
      ModIs(acc, 0, acc);
      GroupStepExact(q % 128, 4, acc, acc);
      var low := acc + Shl7(q % 128, 4);
      ModIs(acc + Shl7(q, 4), low / U32 + 8 * (q / 128), low % U32);
      FourGroups();
      PaddingTail(q / 128, 4, t, low % U32);
      assert Above(q, 4) == q / 128;
    }
  }

  lemma FourGroups()
    ensures 2 * Shl7(1, 4) == 0x2000_0000
  {
    Shl7Values();
  }

  lemma {:induction false} WideFrom(q: nat, t: seq<Byte>, k: nat, acc: nat)
    requires 1 <= k <= 4 && acc < Shl7(1, k) && U32 <= acc + Shl7(q, k) < U64
    ensures DecodeVarint32Loop(EncodeVarint(q) + t, 7 * k, acc) == Wide(acc + Shl7(q, k), q, k, t)
    decreases 4 - k
  {
    hide NextAcc32, Shl7, DecodeVarint32Loop, Padding;
    if k == 4 {
      WideFifth(q, t, acc);
    } else {
      var e := EncodeVarint(q);
      assert (e + t)[0] == e[0] && (e + t)[1..] == e[1..] + t;
      Shl7Split(q, k);
      Shl7Bound(q % 128, k);
      Shl7Monotone(k, 4);
      Shl7Monotone(k + 1, 4);
      Shl7Values();
      if q < 128 { Shl7Bound(q, k); }
      assert e[1..] == EncodeVarint(q / 128);
      ModIs(acc, 0, acc);
      GroupStepExact(q % 128, k, acc, acc);
      ModIs(acc + Shl7(q % 128, k), 0, acc + Shl7(q % 128, k));
      MoreGroups(e + t, 7 * k, acc);
      WideFrom(q / 128, t, k + 1, acc + Shl7(q % 128, k));
    }
  }

  lemma AboveAll(v: nat)
    ensures Above(v, 0) == v / 0x8_0000_0000
  {
    var a := v / 128;
    var b := a / 128;
    var c := b / 128;
    var d := c / 128;
    assert Above(d / 128, 5) == d / 128 == Above(d, 4) == Above(c, 3) == Above(b, 2) == Above(a, 1) == Above(v, 0);
    assert b == v / 0x4000 && c == v / 0x20_0000 && d == v / 0x1000_0000 && d / 128 == v / 0x8_0000_0000;
  }

  /** The 32-bit decoder accepts the encodings of exactly two kinds of values: those below 2^32, which it returns,
      and those with bit 31 and bit 63 set in which each group of seven bits between 35 and 62 is all zeros or all
      ones, of which it returns the low 32 bits. All others, of the values below 2^64, it refuses. */
  lemma Varint32AcceptedExactly(v: nat, t: seq<Byte>)
    requires v < U64
    ensures DecodeVarint32(EncodeVarint(v) + t)
         == if v < U32 then Good(v, t)
            else if v % U32 >= 0x8000_0000 && Padding(v / 0x8_0000_0000, 4) then Good(v % U32, t)
            else Bad
  {
    hide *;
    if v < U32 {
      Decode32EncodedVarint(v, t);
    } else {
      AboveAll(v);
      WideStart(v, t);
      WideIs(v, t);
    }
  }

  lemma WideIs(v: nat, t: seq<Byte>)
    ensures Wide(v, v / 128, 1, t)
         == if v % U32 >= 0x8000_0000 && Padding(Above(v, 0), 4) then Good(v % U32, t) else Bad
  {
    hide Padding;
    assert Above(v, 0) == Above(v / 128, 1);
  }

  lemma WideStart(v: nat, t: seq<Byte>)
    requires U32 <= v < U64
    ensures DecodeVarint32(EncodeVarint(v) + t) == Wide(v, v / 128, 1, t)
  {
    hide DecodeVarint32Loop, Shl7, Wide;
    LongVarint(v, t);
    hide EncodeVarint;
    Shl7Values();
    Shl7Split(v, 0);
    Shl7AtZero(v);
    Shl7AtZero(v % 128);
    WideFrom(v / 128, t, 1, v % 128);
  }

  lemma SignIsPadding()
    ensures Padding(0x1FFF_FFFF, 4)
  {
    assert Padding(0xFF, 1);
    assert Padding(0x7FFF, 2);
    assert Padding(0x3F_FFFF, 3);
  }

  /** The ten-byte encoding of every negative int32 is accepted and gives its low 32 bits. */
  lemma Varint32AcceptsSignExtended(v: int, t: seq<Byte>)
    requires -0x8000_0000 <= v < 0
    ensures DecodeVarint32(EncodeVarint(v + U64) + t) == Good(v + U32, t)
  {
    var u := v + U64;
    assert u / 0x8_0000_0000 == 0x1FFF_FFFF;
    ModIs(u, U32 - 1, v + U32);
    SignIsPadding();
    hide *;
    Varint32AcceptedExactly(u, t);
  }

  /** 2^63 + 2^31 is no sign-extended number of 32 bits, and is accepted as 2^31. */
  lemma NotSignExtendedButAccepted(t: seq<Byte>)
    ensures DecodeVarint32(EncodeVarint(0x8000_0000_8000_0000) + t) == Good(0x8000_0000, t)
  {
    hide DecodeVarint32, EncodeVarint;
    Varint32AcceptedExactly(0x8000_0000_8000_0000, t);
    assert Padding(0x80, 1);
    assert Padding(0x20_0000, 3);
    assert Padding(0x1000_0000, 4);
  }

  /** The bit position after n more groups. */
  function Advance(bitpos: nat, n: nat): (r: nat)
    requires bitpos < 256
    ensures r < 256
    decreases n
  {
    if n == 0 then bitpos else Advance(if bitpos + 7 < 256 then bitpos + 7 else bitpos + 7 - 256, n - 1)
  }

  lemma ZeroGroup(s: seq<Byte>, bitpos: nat)
    requires s != [] && s[0] == 128 && bitpos < 256
    ensures DecodeVarint32Loop(s, bitpos, 0) == DecodeVarint32Loop(s[1..], Advance(bitpos, 1), 0)
  {
    hide Shl, BitOr;
    ShlZero(bitpos);
    assert BitOr(0, 0) == 0 by { OrZero(); }
  }

  lemma OrZero()
    ensures BitOr(0, 0) == 0
  {
  }

  lemma {:induction false} ZeroGroups(n: nat, s: seq<Byte>, bitpos: nat)
    requires bitpos < 256
    ensures DecodeVarint32Loop(Copies<Byte>(128, n) + s, bitpos, 0) == DecodeVarint32Loop(s, Advance(bitpos, n), 0)
  {
    hide DecodeVarint32Loop;
    if n == 0 {
      assert Copies<Byte>(128, n) + s == s;
    } else {
      assert (Copies<Byte>(128, n) + s)[1..] == Copies<Byte>(128, n - 1) + s;
      ZeroGroup(Copies<Byte>(128, n) + s, bitpos);
      ZeroGroups(n - 1, s, Advance(bitpos, 1));
    }
  }

  lemma {:induction false} ShlZero(n: nat)
    ensures Shl(0, n) == 0
  {
    if n > 0 { ShlZero(n - 1); }
  }

  lemma {:induction false} OverlongRejected64(n: nat, s: seq<Byte>, k: nat, acc: nat)
    requires 7 * (n + k) >= 64
    ensures DecodeVarintFrom(Copies<Byte>(128, n) + s, k, acc) == Bad
  {
    hide NextAcc64;
    if n > 0 {
      assert (Copies<Byte>(128, n) + s)[1..] == Copies<Byte>(128, n - 1) + s;
      OverlongRejected64(n - 1, s, k + 1, NextAcc64(0, k, acc));
    }
  }

  lemma CopiesMore(b: Byte, n: nat)
    ensures Copies<Byte>(b, n + 1) == [b] + Copies<Byte>(b, n)
  {
  }

  lemma {:induction false} AdvanceMany(bitpos: nat, n: nat)
    requires bitpos + 7 * n < 512 && bitpos < 256
    ensures Advance(bitpos, n) == if bitpos + 7 * n < 256 then bitpos + 7 * n else bitpos + 7 * n - 256
    decreases n
  {
    if n > 0 && bitpos + 7 < 256 { AdvanceMany(bitpos + 7, n - 1); }
    if n > 0 && bitpos + 7 >= 256 { AdvanceMany(bitpos + 7 - 256, n - 1); }
  }

  lemma OverlongTail()
    ensures DecodeVarint32Loop(Copies<Byte>(128, 36) + [1], 7, 0) == Good(8, [])
  {
    hide DecodeVarint32Loop, Copies, Advance;
    ZeroGroups(36, [1], 7);
    AdvanceMany(7, 36);
    FinalGroup([1], 3, 0);
    assert Shl(1, 3) == 8;
  }

  /** Past ten bytes the refinement fails: after 37 zero groups the 8-bit bit position has wrapped to 3,
      so the 32-bit decoder returns 8 for a varint whose value is 0 modulo 2^32 and which the 64-bit
      decoder rejects. */
  lemma OverlongVarint32Wraps()
    ensures DecodeVarint32(Copies<Byte>(128, 37) + [1]) == Good(8, [])
    ensures DecodeVarint(Copies<Byte>(128, 37) + [1]) == Bad
  {
    hide DecodeVarint32Loop, DecodeVarintFrom, Copies;
    OverlongTail();
    CopiesMore(128, 36);
    OverlongRejected64(37, [1], 0, 0);
    assert (Copies<Byte>(128, 37) + [1])[1..] == Copies<Byte>(128, 36) + [1];
  }
}
