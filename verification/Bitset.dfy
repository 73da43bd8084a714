/** The two fields_seen words of pb_decode_noinit as a set of bit numbers. */
module Bitset {
  import opened Common
  import opened Varint

  predicate Bit(w: nat, i: nat)
  {
    if i == 0 then w % 2 == 1 else Bit(w / 2, i - 1)
  }

  function Shr(w: nat, n: nat): nat
  {
    if n == 0 then w else Shr(w / 2, n - 1)
  }

  lemma {:induction false} BitOfZero(i: nat)
    ensures !Bit(0, i)
  {
    if i > 0 { BitOfZero(i - 1); }
  }

  lemma {:induction false} BitOfOne(j: nat, i: nat)
    ensures Bit(Shl(1, j), i) == (i == j)
  {
    if i > 0 && j > 0 {
      BitOfOne(j - 1, i - 1);
    } else if i > 0 {
      BitOfZero(i - 1);
    }
  }

  lemma {:induction false} BitOfOr(a: nat, b: nat, i: nat)
    ensures Bit(BitOr(a, b), i) == (Bit(a, i) || Bit(b, i))
    decreases i
  {
    BitOfZero(i);
    if a != 0 && b != 0 && i > 0 {
      BitOfOr(a / 2, b / 2, i - 1);
    }
  }

  lemma {:induction false} OrBound(a: nat, b: nat, n: nat)
    requires a < Shl(1, n) && b < Shl(1, n)
    ensures BitOr(a, b) < Shl(1, n)
    decreases n
  {
    if n > 0 && a != 0 && b != 0 { OrBound(a / 2, b / 2, n - 1); }
  }

  lemma {:induction false} OneBound(j: nat, n: nat)
    requires j < n
    ensures Shl(1, j) < Shl(1, n)
  {
    if j > 0 { OneBound(j - 1, n - 1); } else { OnesBound(n - 1); }
  }

  /** A word of n bits is determined by them. */
  lemma {:induction false} SameBits(a: nat, b: nat, n: nat)
    requires a < Shl(1, n) && b < Shl(1, n)
    requires forall i: nat :: i < n ==> Bit(a, i) == Bit(b, i)
    ensures a == b
  {
    if n > 0 {
      assert Bit(a, 0) == Bit(b, 0);
      forall i: nat | i < n - 1
        ensures Bit(a / 2, i) == Bit(b / 2, i)
      {
        assert Bit(a, i + 1) == Bit(b, i + 1);
      }
      SameBits(a / 2, b / 2, n - 1);
    }
  }

  /** A word of k ones */
  function Ones(k: nat): nat
  {
    if k == 0 then 0 else 1 + 2 * Ones(k - 1)
  }

  lemma {:induction false} BitOfOnes(k: nat, i: nat)
    ensures Bit(Ones(k), i) == (i < k)
  {
    if k == 0 {
      BitOfZero(i);
    } else if i > 0 {
      BitOfOnes(k - 1, i - 1);
    }
  }

  lemma {:induction false} OnesBound(k: nat)
    ensures Ones(k) + 1 == Shl(1, k)
  {
    if k > 0 { OnesBound(k - 1); }
  }

  lemma {:induction false} ShrOfOnes(k: nat, n: nat)
    ensures Shr(Ones(k + n), n) == Ones(k)
  {
    if n > 0 { ShrOfOnes(k, n - 1); }
  }

  const ALL_BITS: nat := 0xFFFF_FFFF

  lemma AllBits()
    ensures Shl(1, 32) == U32 && Ones(32) == ALL_BITS
  {
    OnesBound(32);
    ShlAdd(1, 4, 28);
    ShlAdd(1, 21, 7);
    ShlAdd(0x80, 14, 7);
    ShlAdd(0x4000, 7, 7);
    ShlSeven(1);
    ShlSeven(0x80);
    ShlSeven(0x4000);
    ShlSeven(0x20_0000);
    assert Shl(1, 28) == 0x1000_0000;
  }

  // ---- the words ----

  predicate HasBit(words: seq<nat>, r: nat)
    requires |words| == 2 && r < 64
  {
    Bit(words[r / 32], r % 32)
  }

  ghost predicate Holds(words: seq<nat>, seen: set<nat>)
  {
    && |words| == 2 && words[0] < U32 && words[1] < U32
    && forall r: nat :: r in seen <==> r < 64 && HasBit(words, r)
  }

  lemma NothingSeen()
    ensures Holds([0, 0], {})
  {
    forall r: nat | r < 64
      ensures !HasBit([0, 0], r)
    {
      BitOfZero(r % 32);
    }
  }

  function WithBit(words: seq<nat>, r: nat): (w: seq<nat>)
    requires |words| == 2 && r < 64
    ensures |w| == 2
  {
    words[r / 32 := BitOr(words[r / 32], Shl(1, r % 32))]
  }

  lemma WithBitAt(words: seq<nat>, r: nat, q: nat)
    requires |words| == 2 && r < 64 && q < 64
    ensures HasBit(WithBit(words, r), q) == (HasBit(words, q) || q == r)
  {
    hide Bit, BitOr, Shl;
    BitOfOr(words[r / 32], Shl(1, r % 32), q % 32);
    BitOfOne(r % 32, q % 32);
  }

  lemma WithBitBound(words: seq<nat>, r: nat)
    requires |words| == 2 && words[0] < U32 && words[1] < U32 && r < 64
    ensures WithBit(words, r)[0] < U32 && WithBit(words, r)[1] < U32
  {
    hide Bit, BitOr, Shl;
    var w := words[r / 32];
    assert w < U32;
    AllBits();
    OneBound(r % 32, 32);
    OrBound(w, Shl(1, r % 32), 32);
  }

  lemma SetOne(words: seq<nat>, seen: set<nat>, r: nat)
    requires Holds(words, seen) && r < 64
    ensures Holds(WithBit(words, r), seen + {r})
  {
    hide Bit, BitOr, Shl, HasBit, WithBit;
    WithBitBound(words, r);
    forall q: nat | q < 64
      ensures HasBit(WithBit(words, r), q) == (HasBit(words, q) || q == r)
    {
      WithBitAt(words, r, q);
    }
  }

  /** fields_seen[index >> 5] |= 1 << (index & 31) */
  method SetBit(words: array<nat>, r: nat, ghost seen: set<nat>)
    requires words.Length == 2 && Holds(words[..], seen) && r < 64
    modifies words
    ensures Holds(words[..], seen + {r})
  {
    hide Holds, BitOr, Shl;
    SetOne(words[..], seen, r);
    words[r / 32] := BitOr(words[r / 32], Shl(1, r % 32));
  }

  predicate LowBits(w: nat, k: nat)
  {
    forall i: nat :: i < k ==> Bit(w, i)
  }

  lemma LowBitsOfOnes(k: nat)
    ensures LowBits(Ones(k), k)
  {
    forall i: nat | i < k
      ensures Bit(Ones(k), i)
    {
      BitOfOnes(k, i);
    }
  }

  lemma OnlyOnes(w: nat, k: nat)
    requires w < U32 && k <= 32 && LowBits(w, k)
    requires forall i: nat :: k <= i < 32 ==> !Bit(w, i)
    ensures w == Ones(k)
  {
    hide Bit, Shl, Ones;
    AllBits();
    OnesBound(k);
    forall i: nat | i < 32
      ensures Bit(Ones(k), i) == Bit(w, i)
    {
      BitOfOnes(k, i);
    }
    if k < 32 { OneBound(k, 32); }
    SameBits(w, Ones(k), 32);
  }

  /** A word equals the mask of its low k bits exactly when those, and no others, are set. */
  lemma WordIsMask(w: nat, k: nat)
    requires w < U32 && k <= 32
    requires forall i: nat :: k <= i < 32 ==> !Bit(w, i)
    ensures w == Shr(ALL_BITS, 32 - k) <==> LowBits(w, k)
  {
    hide Bit, Shl, Shr, Ones, LowBits;
    AllBits();
    ShrOfOnes(k, 32 - k);
    LowBitsOfOnes(k);
    if LowBits(w, k) { OnlyOnes(w, k); }
  }

  predicate Covers(seen: set<nat>, from: nat, to: nat)
  {
    forall r: nat :: from <= r < to ==> r in seen
  }

  lemma WordCovers(words: seq<nat>, seen: set<nat>, i: nat, k: nat)
    requires Holds(words, seen) && i < 2 && k <= 32
    requires forall r: nat :: r in seen ==> r < 32 * i + k || r >= 32 * i + 32
    ensures words[i] == Shr(ALL_BITS, 32 - k) <==> Covers(seen, 32 * i, 32 * i + k)
  {
    hide Bit, Shr;
    forall j: nat | j < 32
      ensures Bit(words[i], j) == (32 * i + j in seen)
    {
      assert (32 * i + j) / 32 == i && (32 * i + j) % 32 == j;
    }
    WordIsMask(words[i], k);
    if words[i] == Shr(ALL_BITS, 32 - k) {
      forall r: nat | 32 * i <= r < 32 * i + k
        ensures r in seen
      {
        assert Bit(words[i], r - 32 * i);
      }
    }
  }

  /** The comparison that ends pb_decode_noinit: whole words against allbits, then the partial word. */
  method AllSeen(words: array<nat>, count: nat, ghost seen: set<nat>) returns (all: bool)
    requires words.Length == 2 && Holds(words[..], seen) && count <= 64
    requires forall r: nat :: r in seen ==> r < count
    ensures all == Covers(seen, 0, count)
  {
    hide Holds, Shr;
    var i: nat := 0;
    while i < count / 32
      invariant i <= count / 32 && Covers(seen, 0, 32 * i)
    {
      WordCovers(words[..], seen, i, 32);
      FullWord();
      if words[i] != ALL_BITS {
        return false;
      }
      i := i + 1;
    }
    if count % 32 != 0 {
      WordCovers(words[..], seen, i, count % 32);
      if words[i] != Shr(ALL_BITS, 32 - count % 32) {
        return false;
      }
    }
    return true;
  }

  lemma FullWord()
    ensures Shr(ALL_BITS, 0) == ALL_BITS
  {
  }
}
