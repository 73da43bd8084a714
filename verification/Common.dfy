/** Vocabulary shared by the models: bytes, options, parse results, powers. */
module Common {

  type Byte = b: int | 0 <= b < 256

  datatype Option<+T> = None | Some(value: T)

  /** Outcome of reading a value from the front of a byte string. */
  datatype Parse<+T> = Bad | Good(value: T, rest: seq<Byte>)

  const U32: int := 0x1_0000_0000
  const U64: int := 0x1_0000_0000_0000_0000

  function Pow(b: nat, e: nat): nat
  {
    if e == 0 then 1 else b * Pow(b, e - 1)
  }

  function Copies<T>(c: T, n: nat): (s: seq<T>)
    ensures |s| == n
  {
    if n == 0 then [] else [c] + Copies(c, n - 1)
  }

  lemma MulAssoc(a: nat, b: nat, c: nat)
    ensures a * (b * c) == (a * b) * c
  {
  }

  lemma Assoc<T>(a: seq<T>, b: seq<T>, c: seq<T>)
    ensures a + b + c == a + (b + c)
  {
  }

  lemma AppendHead<T>(a: seq<T>, b: seq<T>)
    requires b != []
    ensures a + [b[0]] + b[1..] == a + b
  {
  }

  lemma PowZero(b: nat)
    ensures Pow(b, 0) == 1
  {
  }

  lemma PowStep(b: nat, n: nat)
    ensures Pow(b, n + 1) == b * Pow(b, n)
  {
  }

  /** Four and eight bytes hold exactly the 32-bit and 64-bit words. */
  lemma WordPowers()
    ensures Pow(256, 4) == U32 && Pow(256, 8) == U64
  {
    assert Pow(256, 4) == U32;
    PowAdd(256, 4, 4);
  }

  lemma {:induction false} PowPositive(b: nat, e: nat)
    requires b > 0
    ensures Pow(b, e) > 0
  {
    if e > 0 {
      PowPositive(b, e - 1);
    }
  }

  lemma {:induction false} PowAdd(b: nat, m: nat, n: nat)
    ensures Pow(b, m + n) == Pow(b, m) * Pow(b, n)
  {
    if m > 0 {
      PowAdd(b, m - 1, n);
      MulAssoc(b, Pow(b, m - 1), Pow(b, n));
    }
  }

  lemma {:induction false} PowMonotone(b: nat, m: nat, n: nat)
    requires b > 0 && m <= n
    ensures Pow(b, m) <= Pow(b, n)
  {
    PowAdd(b, m, n - m);
    PowPositive(b, m);
    PowPositive(b, n - m);
  }

  // ---- multiples and quotients ----

  lemma MulDistributes(x: nat, y: nat, b: nat)
    ensures (x + y) * b == x * b + y * b
  {
  }

  lemma MulGap(b: nat, q: nat, r: nat)
    ensures q > r ==> q * b >= r * b + b
  {
    if q > r {
      MulDistributes(q - r - 1, r + 1, b);
      MulDistributes(r, 1, b);
    }
  }

  lemma QuotientUnique(b: nat, q: nat, r: nat, m: nat)
    requires m < b && q * b == r * b + m
    ensures q == r && m == 0
  {
    MulGap(b, q, r);
    MulGap(b, r, q);
  }

  lemma DivSplit(x: nat, b: nat)
    requires b > 0
    ensures x == x / b * b + x % b
  {
  }

  lemma DivExact(x: nat, b: nat, q: nat)
    requires b > 0 && x == q * b
    ensures x / b == q && x % b == 0
  {
    DivSplit(x, b);
    QuotientUnique(b, q, x / b, x % b);
  }

  lemma MultipleDifference(x: nat, y: nat, b: nat)
    requires b > 0 && y <= x && x % b == 0 && y % b == 0
    ensures (x - y) % b == 0 && (x - y) / b == x / b - y / b
  {
    DivSplit(x, b);
    DivSplit(y, b);
    MulGap(b, y / b, x / b);
    MulDistributes(x / b - y / b, y / b, b);
    DivExact(x - y, b, x / b - y / b);
  }
}
