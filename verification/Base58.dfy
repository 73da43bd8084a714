/** Base58.swift: conversion between bytes and base-58 strings in a buffer of estimated size. */
module Base58 {
  import opened Common

  const ALPHABET: string := "123456789ABC" + "DEFGHJKLMNPQ" + "RSTUVWXYZabc" + "defghijkmnop" + "qrstuvwxyz"

  /** sizeFromByte: an estimate of log(256) / log(58) */
  function SizeFromByte(n: nat): nat { n * 138 / 100 + 1 }

  /** sizeFromBase: an estimate of log(58) / log(256) */
  function SizeFromBase(n: nat): nat { n * 733 / 1000 + 1 }

  predicate Radix(b: nat) { b == 58 || b == 256 }

  // ---- numbers and digits ----

  /** The number whose big-endian digits in base b are s */
  function Num(b: nat, s: seq<Byte>): nat
  {
    if s == [] then 0 else b * Num(b, s[..|s| - 1]) + s[|s| - 1]
  }

  /** The digits of v without leading zeros */
  function Digits(b: nat, v: nat): seq<Byte>
    requires Radix(b)
  {
    if v == 0 then [] else Digits(b, v / b) + [v % b]
  }

  predicate Below(b: nat, s: seq<Byte>)
  {
    forall k :: 0 <= k < |s| ==> s[k] < b
  }

  predicate Canonical(b: nat, s: seq<Byte>)
  {
    Below(b, s) && (s == [] || s[0] != 0)
  }

  lemma Quotient(b: nat, q: nat, r: nat)
    requires Radix(b) && r < b
    ensures (b * q + r) / b == q && (b * q + r) % b == r
    ensures b * q + r == 0 <==> q == 0 && r == 0
  {
    if b == 58 {
      assert (58 * q + r) / 58 == q;
    } else {
      assert (256 * q + r) / 256 == q;
    }
  }

  lemma NumSnoc(b: nat, s: seq<Byte>, x: Byte)
    ensures Num(b, s + [x]) == b * Num(b, s) + x
  {
    assert (s + [x])[..|s|] == s;
  }

  /** Canonical digit strings are the only ones for their number. */
  lemma {:induction false} DigitsOfNum(b: nat, s: seq<Byte>)
    requires Radix(b) && Canonical(b, s)
    ensures Digits(b, Num(b, s)) == s
    ensures s != [] ==> Num(b, s) > 0
  {
    hide Num;
    if s == [] {
      NumEmpty(b);
    } else {
      var q, x := s[..|s| - 1], s[|s| - 1];
      DigitsOfNum(b, q);
      assert s == q + [x];
      NumSnoc(b, q, x);
      if q == [] { NumEmpty(b); }
      Quotient(b, Num(b, q), x);
    }
  }

  lemma NumEmpty(b: nat)
    ensures Num(b, []) == 0
  {
  }

  lemma DigitsStep(b: nat, v: nat)
    requires Radix(b)
    ensures v == 0 ==> Digits(b, v) == []
    ensures v > 0 ==> Digits(b, v) == Digits(b, v / b) + [v % b] && v / b < v
    ensures v == b * (v / b) + v % b && v % b < b
  {
  }

  lemma {:induction false} NumOfDigits(b: nat, v: nat)
    requires Radix(b)
    ensures Num(b, Digits(b, v)) == v && Canonical(b, Digits(b, v))
  {
    hide Num, Digits;
    DigitsStep(b, v);
    NumEmpty(b);
    if v > 0 {
      NumOfDigits(b, v / b);
      NumSnoc(b, Digits(b, v / b), v % b);
      DigitsStep(b, v / b);
    }
  }

  lemma {:induction false} NumCons(b: nat, x: Byte, s: seq<Byte>)
    requires Radix(b)
    ensures Num(b, [x] + s) == x * Pow(b, |s|) + Num(b, s)
  {
    hide Num, Pow;
    NumEmpty(b);
    if s == [] {
      assert [x] + s == [] + [x];
      NumSnoc(b, [], x);
      assert Pow(b, 0) == 1 by { PowZero(b); }
    } else {
      var q, y := s[..|s| - 1], s[|s| - 1];
      NumCons(b, x, q);
      assert s == q + [y];
      assert [x] + s == ([x] + q) + [y];
      NumSnoc(b, q, y);
      NumSnoc(b, [x] + q, y);
      PowStep(b, |q|);
      Spread(b, x, Pow(b, |q|), Num(b, q));
    }
  }

  lemma Spread(b: nat, x: nat, w: nat, n: nat)
    requires Radix(b)
    ensures b * (x * w + n) == x * (b * w) + b * n
  {
    if b == 58 {
      assert x * (58 * w) == 58 * (x * w);
    } else {
      assert x * (256 * w) == 256 * (x * w);
    }
  }

  lemma {:induction false} NumBound(b: nat, s: seq<Byte>)
    requires Radix(b) && Below(b, s)
    ensures Num(b, s) < Pow(b, |s|)
  {
    if s != [] {
      var q := s[..|s| - 1];
      NumBound(b, q);
      OneMoreDigit(b, Num(b, q), s[|s| - 1], Pow(b, |q|));
    }
  }

  lemma OneMoreDigit(b: nat, n: nat, x: nat, w: nat)
    requires Radix(b) && n < w && x < b
    ensures b * n + x < b * w
  {
    if b == 58 {
      assert 58 * n + x < 58 * w;
    } else {
      assert 256 * n + x < 256 * w;
    }
  }

  // ---- leading zeros ----

  /** How many elements at the front of s equal c */
  function Leading<T(==)>(s: seq<T>, c: T): (n: nat)
    ensures n <= |s|
  {
    if s == [] || s[0] != c then 0 else 1 + Leading(s[1..], c)
  }

  lemma {:induction false} LeadingSplit<T>(s: seq<T>, c: T)
    ensures var n := Leading(s, c); s == Copies(c, n) + s[n..] && (n < |s| ==> s[n] != c)
  {
    hide Copies, Leading;
    LeadingStep(s, c);
    if s != [] && s[0] == c {
      LeadingSplit(s[1..], c);
      OneInFront(s, c, Leading(s[1..], c));
    }
  }

  lemma LeadingStep<T>(s: seq<T>, c: T)
    ensures Leading(s, c) == if s == [] || s[0] != c then 0 else 1 + Leading(s[1..], c)
    ensures Copies(c, 0) == []
  {
  }

  lemma OneInFront<T>(s: seq<T>, c: T, n: nat)
    requires s != [] && s[0] == c && n < |s| && s[1..] == Copies(c, n) + s[1..][n..]
    ensures s == Copies(c, n + 1) + s[n + 1..]
    ensures s[1..][n..] == s[n + 1..]
  {
    assert s == [c] + s[1..];
    assert Copies(c, n + 1) == [c] + Copies(c, n);
  }

  lemma {:induction false} LeadingCopies<T>(c: T, n: nat, t: seq<T>)
    requires t == [] || t[0] != c
    ensures Leading(Copies(c, n) + t, c) == n
  {
    if n == 0 {
      assert Copies(c, 0) + t == t;
    } else {
      LeadingCopies(c, n - 1, t);
      assert (Copies(c, n) + t)[1..] == Copies(c, n - 1) + t;
    }
  }

  lemma {:induction false} NumOfCopies(b: nat, n: nat, t: seq<Byte>)
    requires Radix(b)
    ensures Num(b, Copies(0, n) + t) == Num(b, t)
  {
    hide Num;
    if n == 0 {
      assert Copies(0, 0) + t == t;
    } else {
      NumOfCopies(b, n - 1, t);
      assert Copies(0, n) + t == [0] + (Copies(0, n - 1) + t);
      NumCons(b, 0, Copies(0, n - 1) + t);
    }
  }

  // ---- the buffers are large enough ----

  const POW58: seq<nat> := [1, 58, 3364, 195112, 11316496, 656356768, 38068692544, 2207984167552, 128063081718016,
    7427658739644928, 430804206899405824, 24986644000165537792, 1449225352009601191936,
    84055070416556869132288, 4875194084160298409672704, 282761256881297307761016832]

  const POW256: seq<nat> := [1, 256, 65536, 16777216, 4294967296, 1099511627776, 281474976710656, 72057594037927936,
    18446744073709551616, 4722366482869645213696, 1208925819614629174706176,
    309485009821345068724781056, 79228162514264337593543950336, 20282409603651670423947251286016]

  lemma {:induction false} Pow58(n: nat)
    requires n < 16
    ensures Pow(58, n) == POW58[n]
  {
    if n > 0 { Pow58(n - 1); }
  }

  lemma {:induction false} Pow256(n: nat)
    requires n < 14
    ensures Pow(256, n) == POW256[n]
  {
    if n > 0 { Pow256(n - 1); }
  }

  lemma MulBounds(a: nat, b: nat, c: nat, d: nat)
    requires a <= c && b <= d
    ensures a * b <= c * d
  {
    assert a * b <= a * d;
    assert a * d <= c * d;
  }

  /** 256^m <= 58^k and 256^n <= 58^l give 256^(m+n) <= 58^(k+l), and the other way round. */
  lemma Compose(b: nat, c: nat, m: nat, n: nat, k: nat, l: nat)
    requires Pow(b, m) <= Pow(c, k) && Pow(b, n) <= Pow(c, l)
    ensures Pow(b, m + n) <= Pow(c, k + l)
  {
    hide Pow;
    PowAdd(b, m, n);
    PowAdd(c, k, l);
    MulBounds(Pow(b, m), Pow(b, n), Pow(c, k), Pow(c, l));
  }

  /** Enough base-58 digits for r bytes, and enough bytes for r base-58 digits */
  const DIGITS_FOR: seq<nat> := [1, 2, 3, 5, 6, 7, 9, 10, 11]
  const BYTES_FOR: seq<nat> := [0, 1, 2, 3, 3, 4, 5, 6, 6, 7, 8, 9, 9, 10, 11, 11]

  lemma SmallBytes(r: nat)
    requires r <= 8
    ensures Pow(256, r) <= Pow(58, DIGITS_FOR[r])
    ensures r < 8 ==> DIGITS_FOR[r] == SizeFromByte(r)
  {
    hide Pow;
    Pow256(r);
    Pow58(DIGITS_FOR[r]);
  }

  /** n bytes always fit in the base-58 buffer. */
  lemma {:induction false} ByteCapacity(n: nat)
    ensures Pow(256, n) <= Pow(58, SizeFromByte(n))
  {
    hide Pow;
    if n < 8 {
      SmallBytes(n);
    } else {
      ByteCapacity(n - 8);
      SmallBytes(8);
      Compose(256, 58, 8, n - 8, DIGITS_FOR[8], SizeFromByte(n - 8));
      PowMonotone(58, 11 + SizeFromByte(n - 8), SizeFromByte(n));
    }
  }

  lemma SmallDigits(r: nat)
    requires r <= 15
    ensures Pow(58, r) <= Pow(256, BYTES_FOR[r])
  {
    hide Pow;
    Pow58(r);
    Pow256(BYTES_FOR[r]);
  }

  lemma BytesFor(a: nat, r: nat)
    requires r < 15 && a < 5
    ensures 11 * a + BYTES_FOR[r] <= SizeFromBase(15 * a + r)
  {
  }

  lemma {:induction false} Fifteens(a: nat)
    ensures Pow(58, 15 * a) <= Pow(256, 11 * a)
  {
    hide Pow;
    if a == 0 {
      PowZero(58);
      PowZero(256);
    } else {
      Fifteens(a - 1);
      SmallDigits(15);
      Compose(58, 256, 15, 15 * (a - 1), 11, 11 * (a - 1));
    }
  }

  lemma FewDigits(k: nat)
    requires k < 75
    ensures Pow(58, k) <= Pow(256, SizeFromBase(k))
  {
    hide Pow;
    var a, r := k / 15, k % 15;
    Fifteens(a);
    SmallDigits(r);
    BytesFor(a, r);
    Compose(58, 256, 15 * a, r, 11 * a, BYTES_FOR[r]);
    PowMonotone(256, 11 * a + BYTES_FOR[r], SizeFromBase(k));
  }

  lemma SeventyOne()
    ensures Pow(58, 71) <= Pow(256, 52)
  {
    hide Pow;
    Pow58(15);
    Pow58(11);
    PowAdd(58, 15, 15);
    PowAdd(58, 30, 30);
    PowAdd(58, 60, 11);
    Pow256(13);
    PowAdd(256, 13, 13);
    PowAdd(256, 26, 26);
  }

  /** k base-58 digits always fit in the byte buffer. */
  lemma {:induction false} DigitCapacity(k: nat)
    ensures Pow(58, k) <= Pow(256, SizeFromBase(k))
  {
    hide Pow;
    if k < 71 {
      FewDigits(k);
    } else {
      DigitCapacity(k - 71);
      SeventyOne();
      Compose(58, 256, 71, k - 71, 52, SizeFromBase(k - 71));
      PowMonotone(256, 52 + SizeFromBase(k - 71), SizeFromBase(k));
    }
  }

  // ---- multiplying in place ----

  predicate ZeroBefore(s: seq<Byte>, p: nat)
    requires p <= |s|
  {
    forall k :: 0 <= k < p ==> s[k] == 0
  }

  lemma {:induction false} ZerosAreNothing(b: nat, s: seq<Byte>, p: nat)
    requires Radix(b) && p <= |s| && ZeroBefore(s, p)
    ensures Num(b, s) == Num(b, s[p..])
  {
    hide Num;
    if p == 0 {
      assert s[0..] == s;
    } else {
      assert s == [0] + s[1..];
      NumCons(b, 0, s[1..]);
      ZerosAreNothing(b, s[1..], p - 1);
      assert s[1..][p - 1..] == s[p..];
    }
  }

  /** Digits p.. of the product are done: `carry` is what still has to be added above them. */
  ghost predicate Done(base: nat, factor: nat, digit: nat, was: seq<Byte>, now: seq<Byte>, p: nat, carry: nat)
    requires p <= |was| == |now|
  {
    && now[..p] == was[..p]
    && factor * Num(base, was[p..]) + digit == Num(base, now[p..]) + carry * Pow(base, |was| - p)
  }

  lemma Sum(b: nat, q: nat, r: nat, w: nat)
    requires Radix(b)
    ensures (r + b * q) * w == r * w + b * (q * w)
  {
    if b == 58 {
      assert (r + 58 * q) * w == r * w + 58 * (q * w);
    } else {
      assert (r + 256 * q) * w == r * w + 256 * (q * w);
    }
  }

  lemma CarryStep(base: nat, factor: nat, digit: nat, x: nat, w: nat, n0: nat, n1: nat, carry: nat)
    requires Radix(base) && Radix(factor)
    requires factor * n0 + digit == n1 + carry * w
    ensures var t := carry + factor * x;
            factor * (x * w + n0) + digit == (t % base) * w + n1 + (t / base) * (base * w)
  {
    var t := carry + factor * x;
    var q, r := t / base, t % base;
    Sum(factor, x, carry, w);
    Sum(base, q, r, w);
    Spread(base, q, w, 0);
    Spread(factor, x, w, n0);
    Spread(factor, x, w, 0);
    Regroup(t, base, q, r, w);
  }

  lemma Regroup(t: nat, base: nat, q: nat, r: nat, w: nat)
    requires Radix(base) && q == t / base && r == t % base
    ensures t == r + base * q
  {
  }

  lemma DoneStep(base: nat, factor: nat, digit: nat, was: seq<Byte>, now: seq<Byte>, p: nat, carry: nat)
    requires Radix(base) && Radix(factor) && 0 < p <= |was| == |now|
    requires Done(base, factor, digit, was, now, p, carry)
    ensures var t := carry + factor * now[p - 1];
            t % base < 256 && Done(base, factor, digit, was, now[p - 1 := t % base], p - 1, t / base)
  {
    hide Num, Pow;
    var x := was[p - 1];
    var t := carry + factor * x;
    var after := now[p - 1 := t % base];
    assert was[p - 1..] == [x] + was[p..];
    assert after[p - 1..] == [t % base] + now[p..];
    NumCons(base, x, was[p..]);
    NumCons(base, t % base, now[p..]);
    CarryStep(base, factor, digit, x, Pow(base, |was| - p), Num(base, was[p..]), Num(base, now[p..]), carry);
    PowStep(base, |was| - p);
  }

  /** The inner loop of convertBytesToBase (base 58, factor 256) and of decode (base 256, factor 58):
      value := value * factor + digit, touching only the low digits in use. */
  method MultiplyAdd(a: array<Byte>, base: nat, factor: nat, digit: nat, length: nat) returns (i: nat)
    requires Radix(base) && Radix(factor) && Below(base, a[..])
    requires length <= a.Length && ZeroBefore(a[..], a.Length - length)
    requires factor * Num(base, a[..]) + digit < Pow(base, a.Length)
    modifies a
    ensures i <= a.Length && ZeroBefore(a[..], a.Length - i) && Below(base, a[..])
    ensures Num(base, a[..]) == factor * old(Num(base, a[..])) + digit
  {
    hide Num, Pow, Done;
    var carry: nat := digit;
    i := 0;
    ghost var was := a[..];
    NothingDone(base, factor, digit, was);
    for j := a.Length downto 0
      invariant i <= a.Length - j && Below(base, a[..])
      invariant i < a.Length - j ==> carry == 0 && i >= length
      invariant Done(base, factor, digit, was, a[..], a.Length - i, carry)
    {
      if carry != 0 || i < length {
        DoneStep(base, factor, digit, was, a[..], j + 1, carry);
        carry := carry + factor * a[j];
        a[j] := carry % base;
        carry := carry / base;
        i := i + 1;
      }
    }
    AllDone(base, factor, digit, was, a[..], a.Length - i, length, carry);
    assert carry == 0;
  }

  lemma NothingDone(base: nat, factor: nat, digit: nat, was: seq<Byte>)
    ensures Done(base, factor, digit, was, was, |was|, digit)
  {
    NumEmpty(base);
    PowZero(base);
    assert was[|was|..] == [];
  }

  lemma Grows(carry: nat, w: nat)
    ensures carry == 0 || carry * w >= w
  {
  }

  lemma AllDone(base: nat, factor: nat, digit: nat, was: seq<Byte>, now: seq<Byte>, p: nat, length: nat, carry: nat)
    requires Radix(base) && p <= |was| == |now| && length <= |was| && ZeroBefore(was, |was| - length)
    requires Done(base, factor, digit, was, now, p, carry)
    requires p > 0 ==> carry == 0 && |was| - p >= length
    requires factor * Num(base, was) + digit < Pow(base, |was|)
    ensures carry == 0 && ZeroBefore(now, p) && Num(base, now) == factor * Num(base, was) + digit
  {
    hide Num, Pow;
    if p == 0 {
      assert was[0..] == was && now[0..] == now;
      Grows(carry, Pow(base, |was|));
    } else {
      assert forall k :: 0 <= k < p ==> now[k] == now[..p][k] == was[..p][k] == was[k];
      ZerosAreNothing(base, was, p);
      ZerosAreNothing(base, now, p);
    }
  }

  // ---- the alphabet ----

  function IndexFrom(s: string, c: char): Option<nat>
  {
    if s == "" then None
    else if s[0] == c then Some(0)
    else match IndexFrom(s[1..], c) case None => None case Some(i) => Some(i + 1)
  }

  /** baseAlphabets.index(of: c) */
  function Index(c: char): (r: Option<nat>)
    ensures r.Some? ==> r.value < 58 && ALPHABET[r.value] == c
  {
    IndexFound(ALPHABET, c);
    IndexFrom(ALPHABET, c)
  }

  lemma {:induction false} IndexFound(s: string, c: char)
    ensures IndexFrom(s, c).Some? ==> IndexFrom(s, c).value < |s| && s[IndexFrom(s, c).value] == c
    ensures IndexFrom(s, c).Some? <==> c in s
  {
    if s != "" { IndexFound(s[1..], c); }
  }

  predicate Letters(s: string)
  {
    forall k :: 0 <= k < |s| ==> Index(s[k]).Some?
  }

  function Values(s: string): (v: seq<Byte>)
    requires Letters(s)
    ensures |v| == |s| && Below(58, v)
  {
    seq(|s|, k requires 0 <= k < |s| => Index(s[k]).value)
  }

  function Spell(v: seq<Byte>): (s: string)
    requires Below(58, v)
    ensures |s| == |v|
  {
    seq(|v|, k requires 0 <= k < |v| => ALPHABET[v[k]])
  }

  lemma FirstLetters(i: nat)
    requires i < 20
    ensures ALPHABET[i] < ALPHABET[i + 1]
  {
  }

  lemma MiddleLetters(i: nat)
    requires 20 <= i < 40
    ensures ALPHABET[i] < ALPHABET[i + 1]
  {
  }

  lemma LastLetters(i: nat)
    requires 40 <= i < 57
    ensures ALPHABET[i] < ALPHABET[i + 1]
  {
  }

  lemma AlphabetIncreases(i: nat)
    requires i < 57
    ensures ALPHABET[i] < ALPHABET[i + 1]
  {
    hide *;
    if i < 20 { FirstLetters(i); } else if i < 40 { MiddleLetters(i); } else { LastLetters(i); }
  }

  lemma {:induction false} AlphabetOrdered(i: nat, j: nat)
    requires i < j < 58
    ensures ALPHABET[i] < ALPHABET[j]
  {
    hide *;
    AlphabetIncreases(j - 1);
    if i < j - 1 { AlphabetOrdered(i, j - 1); }
  }

  lemma IndexOfLetter(i: nat)
    requires i < 58
    ensures Index(ALPHABET[i]) == Some(i)
  {
    hide IndexFrom;
    var c := ALPHABET[i];
    IndexFound(ALPHABET, c);
    var j := Index(c).value;
    if i < j { AlphabetOrdered(i, j); }
    if j < i { AlphabetOrdered(j, i); }
  }

  /** Letter i of the alphabet: the digits from 1 on, then the capitals without I and O, then the small letters
      without l */
  function Letter(i: nat): int
  {
    if i < 9 then '1' as int + i
    else if i < 17 then 'A' as int + (i - 9)
    else if i < 22 then 'J' as int + (i - 17)
    else if i < 33 then 'P' as int + (i - 22)
    else if i < 44 then 'a' as int + (i - 33)
    else 'm' as int + (i - 44)
  }

  lemma FirstAre(i: nat)
    requires i < 20
    ensures ALPHABET[i] as int == Letter(i)
  {
  }

  lemma MiddleAre(i: nat)
    requires 20 <= i < 40
    ensures ALPHABET[i] as int == Letter(i)
  {
  }

  lemma LastAre(i: nat)
    requires 40 <= i < 58
    ensures ALPHABET[i] as int == Letter(i)
  {
  }

  lemma LetterAt(i: nat)
    requires i < 58
    ensures ALPHABET[i] as int == Letter(i)
  {
    hide *;
    if i < 20 { FirstAre(i); } else if i < 40 { MiddleAre(i); } else { LastAre(i); }
  }

  lemma AlphabetSize()
    ensures |ALPHABET| == 58
  {
  }

  /** The place of a character among the letters */
  function PlaceOf(c: char): (i: nat)
    requires IsLetter(c)
    ensures i < 58 && Letter(i) == c as int
  {
    if c <= '9' then c as int - '1' as int
    else if c <= 'H' then c as int - 'A' as int + 9
    else if c <= 'N' then c as int - 'J' as int + 17
    else if c <= 'Z' then c as int - 'P' as int + 22
    else if c <= 'k' then c as int - 'a' as int + 33
    else c as int - 'm' as int + 44
  }

  /** Digits and letters, but none of 0, O, I and l, which look alike */
  predicate IsLetter(c: char)
  {
    ('1' <= c <= '9' || 'A' <= c <= 'Z' || 'a' <= c <= 'z') && c !in {'I', 'O', 'l'}
  }

  lemma LetterIsLetter(i: nat, c: char)
    requires i < 58 && Letter(i) == c as int
    ensures IsLetter(c)
  {
  }

  /** Exactly these characters are in the alphabet; being in increasing order, they are it. */
  lemma LettersExactly(c: char)
    ensures c in ALPHABET <==> IsLetter(c)
    ensures Index(c).Some? <==> IsLetter(c)
  {
    hide *;
    AlphabetSize();
    InAlphabet(c);
    if IsLetter(c) {
      LetterAt(PlaceOf(c));
      assert ALPHABET[PlaceOf(c)] == c;
    } else if c in ALPHABET {
      var i :| 0 <= i < |ALPHABET| && ALPHABET[i] == c;
      LetterAt(i);
      LetterIsLetter(i, c);
    }
  }

  lemma InAlphabet(c: char)
    ensures Index(c).Some? <==> c in ALPHABET
  {
    hide IndexFrom;
    IndexFound(ALPHABET, c);
  }

  /** decode accepts exactly the non-empty strings of such characters. */
  lemma AcceptedExactly(s: string)
    ensures Decode(s).Some? <==> s != "" && forall k :: 0 <= k < |s| ==> IsLetter(s[k])
  {
    hide Index, IsLetter, Num, Digits, Values;
    forall k | 0 <= k < |s|
      ensures Index(s[k]).Some? <==> IsLetter(s[k])
    {
      LettersExactly(s[k]);
    }
  }

  lemma ValuesOfSpell(v: seq<Byte>)
    requires Below(58, v)
    ensures Letters(Spell(v)) && Values(Spell(v)) == v
  {
    hide Index;
    forall k | 0 <= k < |v|
      ensures Index(Spell(v)[k]) == Some(v[k])
    {
      IndexOfLetter(v[k]);
    }
  }

  // ---- what encode and decode compute ----

  function Encode(x: seq<Byte>): string
  {
    NumOfDigits(58, Num(256, x));
    Copies('1', Leading(x, 0)) + Spell(Digits(58, Num(256, x)))
  }

  function Decode(s: string): Option<seq<Byte>>
  {
    if s == "" || !Letters(s) then None
    else Some(Copies(0, Leading(s, '1')) + Digits(256, Num(58, Values(s))))
  }

  lemma One()
    ensures Index('1') == Some(0) && ALPHABET[0] == '1'
  {
    hide *;
    FirstLetter();
    IndexOfLetter(0);
  }

  lemma FirstLetter()
    ensures ALPHABET[0] == '1'
  {
  }

  lemma {:induction false} CopiesAt<T>(c: T, n: nat, k: nat)
    requires k < n
    ensures Copies(c, n)[k] == c
  {
    if k > 0 { CopiesAt(c, n - 1, k - 1); }
  }

  /** Leading ones are the digit zero, and a canonical rest begins with another letter. */
  lemma ValuesWithOnes(n: nat, d: seq<Byte>)
    requires Canonical(58, d)
    ensures var s := Copies('1', n) + Spell(d);
            Letters(s) && Values(s) == Copies(0, n) + d && Leading(s, '1') == n
  {
    hide Index, IndexFrom;
    One();
    var s := Copies('1', n) + Spell(d);
    ValuesOfSpell(d);
    forall k | 0 <= k < |s|
      ensures Index(s[k]) == Some((Copies(0, n) + d)[k])
    {
      if k < n {
        CopiesAt('1', n, k);
        CopiesAt<Byte>(0, n, k);
        assert s[k] == '1';
      } else {
        IndexOfLetter(d[k - n]);
        assert s[k] == ALPHABET[d[k - n]];
      }
    }
    if d != [] {
      IndexOfLetter(d[0]);
    }
    LeadingCopies('1', n, Spell(d));
  }

  /** decode undoes encode; the empty byte string is the one exception (its encoding is rejected). */
  lemma DecodeEncode(x: seq<Byte>)
    ensures Decode(Encode(x)) == if x == [] then None else Some(x)
    ensures Leading(Encode(x), '1') == Leading(x, 0)
  {
    hide Num, Digits, Values, Letters, Spell, Leading, Copies;
    var n, v := Leading(x, 0), Num(256, x);
    LeadingSplit(x, 0);
    NumOfCopies(256, n, x[n..]);
    DigitsOfNum(256, x[n..]);
    NumOfDigits(58, v);
    ValuesWithOnes(n, Digits(58, v));
    NumOfCopies(58, n, Digits(58, v));
    EmptyNumber(x);
    NonEmpty(58, v);
  }

  lemma EmptyNumber(x: seq<Byte>)
    ensures x == [] ==> Num(256, x) == 0 && Leading(x, 0) == 0
  {
  }

  lemma NonEmpty(b: nat, v: nat)
    requires Radix(b)
    ensures v == 0 <==> Digits(b, v) == []
  {
  }

  /** encode undoes decode on every string that decode accepts. */
  lemma EncodeDecode(s: string)
    requires Decode(s).Some?
    ensures Encode(Decode(s).value) == s
  {
    hide Num, Digits, Values, Letters, Spell, Leading, Copies;
    var n, d := Leading(s, '1'), Values(s);
    var v := Num(58, d);
    LeadingSplit(s, '1');
    DigitsAfterOnes(s);
    NumOfCopies(58, n, d[n..]);
    DigitsOfNum(58, d[n..]);
    NumOfDigits(256, v);
    NumOfCopies(256, n, Digits(256, v));
    LeadingCopies(0, n, Digits(256, v));
  }

  lemma DigitsAfterOnes(s: string)
    requires Letters(s)
    ensures var n, d := Leading(s, '1'), Values(s);
            d == Copies(0, n) + d[n..] && Canonical(58, d[n..]) && Spell(d[n..]) == s[n..]
  {
    hide Index, IndexFrom, Leading, Copies;
    One();
    var n, d := Leading(s, '1'), Values(s);
    LeadingSplit(s, '1');
    forall k | 0 <= k < n
      ensures d[k] == 0 && Copies<Byte>(0, n)[k] == 0
    {
      CopiesAt('1', n, k);
      CopiesAt<Byte>(0, n, k);
    }
    assert d == Copies(0, n) + d[n..];
  }

  lemma SpellOne(v: seq<Byte>, k: nat)
    requires Below(58, v) && k < |v|
    ensures Spell(v)[k] as int == Letter(v[k])
  {
    hide Letter;
    LetterAt(v[k]);
  }

  /** x is n zero bytes and a number with these base-58 digits. */
  lemma KnownEncoding(x: seq<Byte>, n: nat, d: seq<Byte>, str: string)
    requires Leading(x, 0) == n && Canonical(58, d) && Num(256, x) == Num(58, d)
    requires |str| == n + |d|
    requires forall k :: 0 <= k < n ==> str[k] == '1'
    requires forall k :: 0 <= k < |d| ==> str[n + k] as int == Letter(d[k])
    ensures Encode(x) == str
  {
    hide Num, Digits, Leading, Spell, Letter;
    DigitsOfNum(58, d);
    forall k | 0 <= k < |str|
      ensures Encode(x)[k] == str[k]
    {
      if k < n { CopiesAt('1', n, k); } else { SpellOne(d, k - n); }
    }
  }

  lemma FourDigits(b: nat, x: Byte, y: Byte, z: Byte, w: Byte)
    ensures Num(b, [x]) == x && Num(b, [x, y]) == b * x + y
    ensures Num(b, [x, y, z, w]) == b * (b * (b * x + y) + z) + w
  {
    hide Num;
    NumEmpty(b);
    NumSnoc(b, [], x);
    NumSnoc(b, [x], y);
    NumSnoc(b, [x, y], z);
    NumSnoc(b, [x, y, z], w);
    assert [] + [x] == [x] && [x] + [y] == [x, y] && [x, y] + [z] == [x, y, z] && [x, y, z] + [w] == [x, y, z, w];
  }

  /** 44 is "m", 256 is "5R", and 00 00 28 7f b4 cd is "11233QC4". */
  lemma KnownStrings()
    ensures Encode([44]) == "m" && Encode([1, 0]) == "5R" && Encode([0, 0, 0x28, 0x7f, 0xb4, 0xcd]) == "11233QC4"
  {
    hide Num, Digits, Spell, Encode, Leading;
    ShortStrings();
    LongNumber();
    KnownEncoding([0, 0, 0x28, 0x7f, 0xb4, 0xcd], 2, [1, 2, 2, 23, 11, 3], "11233QC4");
  }

  lemma ShortStrings()
    ensures Encode([44]) == "m" && Encode([1, 0]) == "5R"
  {
    hide Num, Digits, Spell, Encode;
    FourDigits(256, 44, 0, 0, 0);
    FourDigits(58, 44, 0, 0, 0);
    FourDigits(256, 1, 0, 0, 0);
    FourDigits(58, 4, 24, 0, 0);
    KnownEncoding([44], 0, [44], "m");
    KnownEncoding([1, 0], 0, [4, 24], "5R");
  }

  lemma LongNumber()
    ensures Num(256, [0, 0, 0x28, 0x7f, 0xb4, 0xcd]) == 679457997 == Num(58, [1, 2, 2, 23, 11, 3])
    ensures Leading<Byte>([0, 0, 0x28, 0x7f, 0xb4, 0xcd], 0) == 2
  {
    FourDigits(256, 0x28, 0x7f, 0xb4, 0xcd);
    FourDigits(58, 1, 2, 2, 23);
    var x: seq<Byte> := [0x28, 0x7f, 0xb4, 0xcd];
    NumOfCopies(256, 2, x);
    LeadingCopies<Byte>(0, 2, x);
    assert Copies<Byte>(0, 2) + x == [0, 0, 0x28, 0x7f, 0xb4, 0xcd];
    hide Num;
    NumSnoc(58, [1, 2, 2, 23], 11);
    NumSnoc(58, [1, 2, 2, 23, 11], 3);
    assert [1, 2, 2, 23] + [11] == [1, 2, 2, 23, 11] && [1, 2, 2, 23, 11] + [3] == [1, 2, 2, 23, 11, 3];
  }

  // ---- the algorithms ----

  /** The counting loops over leading zeros or ones */
  method CountLeading<T(==)>(s: seq<T>, c: T) returns (n: nat)
    ensures n == Leading(s, c)
  {
    n := 0;
    for k := 0 to |s|
      invariant n == k && Leading(s, c) == k + Leading(s[k..], c)
    {
      if s[k] != c {
        break;
      }
      n := n + 1;
    }
  }

  /** Reading the buffer without its leading zeros gives the canonical digits. */
  lemma Trimmed(b: nat, s: seq<Byte>)
    requires Radix(b) && Below(b, s)
    ensures s[Leading(s, 0)..] == Digits(b, Num(b, s))
  {
    hide Num, Digits, Leading, Copies;
    var n := Leading(s, 0);
    LeadingSplit(s, 0);
    NumOfCopies(b, n, s[n..]);
    DigitsOfNum(b, s[n..]);
  }

  /** The value of the first k + 1 bytes still fits the base-58 buffer. */
  lemma BytesFit(x: seq<Byte>, k: nat)
    requires k < |x|
    ensures Num(256, x[..k + 1]) == 256 * Num(256, x[..k]) + x[k] < Pow(58, SizeFromByte(|x|))
  {
    hide Num, Pow;
    assert x[..k + 1] == x[..k] + [x[k]];
    NumSnoc(256, x[..k], x[k]);
    NumBound(256, x[..k + 1]);
    PowMonotone(256, k + 1, |x|);
    ByteCapacity(|x|);
  }

  lemma {:induction false} FreshBuffer(b: nat, s: seq<Byte>)
    requires Radix(b) && ZeroBefore(s, |s|)
    ensures Num(b, s) == 0
  {
    ZerosAreNothing(b, s, |s|);
    assert s[|s|..] == [];
  }

  /** convertBytesToBase */
  method ConvertBytesToBase(bytes: seq<Byte>) returns (digits: seq<Byte>)
    ensures digits == Digits(58, Num(256, bytes))
  {
    hide Num, Digits, Pow;
    var length: nat := 0;
    var encoded := new Byte[SizeFromByte(|bytes|)](_ => 0);
    FreshBuffer(58, encoded[..]);
    NumEmpty(256);
    assert bytes[..0] == [];
    for k := 0 to |bytes|
      invariant length <= encoded.Length && ZeroBefore(encoded[..], encoded.Length - length)
      invariant Below(58, encoded[..]) && Num(58, encoded[..]) == Num(256, bytes[..k])
    {
      BytesFit(bytes, k);
      length := MultiplyAdd(encoded, 58, 256, bytes[k], length);
    }
    assert bytes[..|bytes|] == bytes;
    var zerosToRemove := CountLeading(encoded[..], 0);
    Trimmed(58, encoded[..]);
    digits := encoded[zerosToRemove..];
    assert digits == encoded[..][zerosToRemove..];
  }

  /** Base58.encode */
  method EncodeBytes(bytes: seq<Byte>) returns (str: string)
    ensures str == Encode(bytes)
  {
    hide Num, Digits, Leading, Copies;
    var zerosCount := CountLeading(bytes, 0);
    var encoded := ConvertBytesToBase(bytes[zerosCount..]);
    LeadingSplit(bytes, 0);
    NumOfCopies(256, zerosCount, bytes[zerosCount..]);
    NumOfDigits(58, Num(256, bytes));
    str := "";
    ghost var n := zerosCount;
    while 0 < zerosCount
      invariant zerosCount <= n && str == Copies('1', n - zerosCount)
    {
      OneMore('1', n - zerosCount);
      str := str + "1";
      zerosCount := zerosCount - 1;
    }
    for k := 0 to |encoded|
      invariant str == Copies('1', n) + Spell(encoded)[..k]
    {
      str := str + [ALPHABET[encoded[k]]];
    }
  }

  lemma {:induction false} OneMore<T>(c: T, n: nat)
    ensures Copies(c, n) + [c] == Copies(c, n + 1)
    ensures Copies(c, 0) == []
  {
    if n > 0 {
      OneMore(c, n - 1);
      assert Copies(c, n) + [c] == [c] + (Copies(c, n - 1) + [c]);
    }
  }

  /** lengthOfBytes(using: .utf8), character by character */
  function Utf8Length(s: string): (n: nat)
    ensures n >= |s|
  {
    if s == "" then 0
    else
      var c := s[0] as int;
      (if c < 0x80 then 1 else if c < 0x800 then 2 else if c < 0x1_0000 then 3 else 4) + Utf8Length(s[1..])
  }

  lemma {:induction false} LeadingOfPrefix<T>(s: seq<T>, c: T, k: nat)
    requires k <= |s|
    ensures Leading(s[..k], c) == if k < Leading(s, c) then k else Leading(s, c)
  {
    if k > 0 && s[0] == c {
      assert s[..k][1..] == s[1..][..k - 1];
      LeadingOfPrefix(s[1..], c, k - 1);
    }
  }

  lemma ValuesSnoc(s: string, k: nat)
    requires k < |s| && Letters(s[..k]) && Index(s[k]).Some?
    ensures Letters(s[..k + 1]) && Values(s[..k + 1]) == Values(s[..k]) + [Index(s[k]).value]
  {
    hide Index;
    var p := s[..k + 1];
    forall j | 0 <= j < |p|
      ensures Index(p[j]).Some?
    {
      if j < k { assert s[..k][j] == p[j]; }
    }
  }

  /** Leading ones add nothing to the value. */
  lemma ValuesBound(p: string)
    requires Letters(p)
    ensures Num(58, Values(p)) < Pow(58, |p| - Leading(p, '1'))
  {
    hide Num, Pow, Index, Values, Letters, Leading, Copies;
    DigitsAfterOnes(p);
    var n, d := Leading(p, '1'), Values(p);
    NumOfCopies(58, n, d[n..]);
    NumBound(58, d[n..]);
  }

  lemma RoomForDigits(k: nat, n: nat)
    requires k <= n
    ensures Pow(58, k) <= Pow(256, SizeFromBase(n))
  {
    hide Pow, SizeFromBase;
    PowMonotone(58, k, n);
    DigitCapacity(n);
  }

  lemma FewerAfterOnes(s: string, k: nat)
    requires k <= |s|
    ensures k - Leading(s[..k], '1') <= Utf8Length(s) - Leading(s, '1')
  {
    hide Leading;
    LeadingOfPrefix(s, '1', k);
  }

  /** The digits read so far still fit the byte buffer. */
  lemma DigitsFit(s: string, k: nat)
    requires k < |s| && Letters(s[..k]) && Index(s[k]).Some?
    ensures Letters(s[..k + 1])
    ensures Num(58, Values(s[..k + 1])) == 58 * Num(58, Values(s[..k])) + Index(s[k]).value
    ensures Num(58, Values(s[..k + 1])) < Pow(256, SizeFromBase(Utf8Length(s) - Leading(s, '1')))
  {
    hide *;
    ValuesSnoc(s, k);
    NumSnoc(58, Values(s[..k]), Index(s[k]).value);
    ValuesBound(s[..k + 1]);
    FewerAfterOnes(s, k + 1);
    RoomForDigits(k + 1 - Leading(s[..k + 1], '1'), Utf8Length(s) - Leading(s, '1'));
  }

  /** Base58.decode */
  method DecodeString(s: string) returns (r: Option<seq<Byte>>)
    ensures r == Decode(s)
  {
    hide Num, Digits, Pow, Index, Values, Leading, SizeFromBase;
    if s == "" {
      return None;
    }
    var zerosCount := CountLeading(s, '1');
    var length: nat := 0;
    var decoded := new Byte[SizeFromBase(Utf8Length(s) - zerosCount)](_ => 0);
    FreshBuffer(256, decoded[..]);
    NoDigits(s);
    for k := 0 to |s|
      invariant length <= decoded.Length && ZeroBefore(decoded[..], decoded.Length - length)
      invariant Letters(s[..k]) && Num(256, decoded[..]) == Num(58, Values(s[..k]))
    {
      var baseIndex := Index(s[k]);
      if baseIndex.None? {
        return None;
      }
      DigitsFit(s, k);
      length := MultiplyAdd(decoded, 256, 58, baseIndex.value, length);
    }
    assert s[..|s|] == s;
    var zerosToRemove := CountLeading(decoded[..], 0);
    Trimmed(256, decoded[..]);
    assert decoded[zerosToRemove..] == decoded[..][zerosToRemove..];
    r := Some(Copies(0, zerosCount) + decoded[zerosToRemove..]);
  }

  lemma NoDigits(s: string)
    ensures Letters(s[..0]) && Num(58, Values(s[..0])) == 0
  {
  }
}
