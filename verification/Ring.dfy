/** TPCircularBuffer: a ring over memory that is mapped twice in a row, so that address a and
    address a + length are the same cell. */
module Rings {
  import opened Common

  /** The cell behind address or stream position k */
  function Cell(k: nat, n: nat): (r: nat)
    requires n > 0
    ensures r < n
  {
    if k < n then k else Cell(k - n, n)
  }

  lemma {:induction false} CellAdd(k: nat, m: nat, n: nat)
    requires n > 0
    ensures Cell(Cell(k, n) + m, n) == Cell(k + m, n)
    decreases k
  {
    if k >= n {
      CellAdd(k - n, m, n);
      assert Cell(k + m, n) == Cell(k - n + m, n);
    }
  }

  /** Within one length, different positions are different cells. */
  lemma {:induction false} CellsDiffer(a: nat, b: nat, n: nat)
    requires n > 0 && a < b < a + n
    ensures Cell(a, n) != Cell(b, n)
    decreases a
  {
    if a >= n { CellsDiffer(a - n, b - n, n); }
  }

  /** `(tail + amount) % length` with both operands inside the ring */
  lemma CellIsMod(k: nat, n: nat)
    requires n > 0 && k < 2 * n
    ensures k % n == Cell(k, n) == if k < n then k else k - n
  {
    var q := k / n;
    Multiples(n, q);
    assert k == n * q + k % n;
  }

  lemma Multiples(n: nat, q: nat)
    ensures q == 0 ==> n * q == 0
    ensures q == 1 ==> n * q == n
    ensures q >= 2 ==> n * q >= 2 * n
  {
    if q >= 2 {
      assert n * q == n * (q - 2) + 2 * n;
    }
  }

  /** The n cells from address `at` on */
  function Window<T>(mem: seq<T>, at: nat, n: nat): (w: seq<T>)
    requires |mem| > 0
    ensures |w| == n
  {
    seq(n, i requires 0 <= i < n => mem[Cell(at + i, |mem|)])
  }

  lemma WindowSplit<T>(mem: seq<T>, at: nat, m: nat, n: nat)
    requires |mem| > 0
    ensures Window(mem, at, m) + Window(mem, at + m, n) == Window(mem, at, m + n)
  {
    var whole, last := Window(mem, at, m + n), Window(mem, at + m, n);
    forall i | 0 <= i < n
      ensures whole[m + i] == last[i]
    {
      assert at + m + i == at + (m + i);
    }
  }

  lemma WindowWraps<T>(mem: seq<T>, at: nat, n: nat)
    requires |mem| > 0
    ensures Window(mem, Cell(at, |mem|), n) == Window(mem, at, n)
  {
    var wrapped, w := Window(mem, Cell(at, |mem|), n), Window(mem, at, n);
    forall i | 0 <= i < n
      ensures wrapped[i] == w[i]
    {
      CellAdd(at, i, |mem|);
    }
  }

  /** Writing outside a window leaves it alone. */
  lemma WindowFrame<T>(mem: seq<T>, at: nat, n: nat, k: nat, v: T)
    requires |mem| > 0 && at + n <= k < at + |mem|
    ensures Window(mem[Cell(k, |mem|) := v], at, n) == Window(mem, at, n)
  {
    var after, w := Window(mem[Cell(k, |mem|) := v], at, n), Window(mem, at, n);
    forall i | 0 <= i < n
      ensures after[i] == w[i]
    {
      CellsDiffer(at + i, k, |mem|);
    }
  }

  lemma WindowGrows<T>(mem: seq<T>, at: nat, n: nat, v: T)
    requires |mem| > 0 && n < |mem|
    ensures Window(mem[Cell(at + n, |mem|) := v], at, n + 1) == Window(mem, at, n) + [v]
  {
    WindowFrame(mem, at, n, at + n, v);
    WindowSplit(mem[Cell(at + n, |mem|) := v], at, n, 1);
  }

  /** One byte of a copy to the head of a ring that holds n cells from `tail` on */
  lemma CopyStep<T>(mem: seq<T>, tail: nat, n: nat, head: nat, i: nat, v: T)
    requires |mem| > 0 && tail < |mem| && head == Cell(tail + n, |mem|) && n + i < |mem|
    ensures head + i < 2 * |mem|
    ensures var after := mem[(head + i) % |mem| := v];
            && Window(after, tail, n) == Window(mem, tail, n)
            && Window(after, head, i + 1) == Window(mem, head, i) + [v]
  {
    hide Window, Cell;
    CellAdd(tail + n, i, |mem|);
    CellIsMod(head + i, |mem|);
    WindowFrame(mem, tail, n, tail + n + i, v);
    WindowGrows(mem, head, i, v);
  }

  lemma StoreStep<T>(mem: seq<T>, tail: nat, n: nat, head: nat, off: nat, v: T)
    requires |mem| > 0 && tail < |mem| && head == Cell(tail + n, |mem|) && n + off < |mem|
    ensures head + off < 2 * |mem|
    ensures var after := mem[(head + off) % |mem| := v];
            && Window(after, tail, n) == Window(mem, tail, n)
            && Window(after, head, |mem| - n) == Window(mem, head, |mem| - n)[off := v]
  {
    hide Cell, Window;
    CellAdd(tail + n, off, |mem|);
    CellIsMod(head + off, |mem|);
    WindowFrame(mem, tail, n, tail + n + off, v);
    WindowUpdate(mem, head, |mem| - n, off, v);
  }

  lemma WindowUpdate<T>(mem: seq<T>, at: nat, n: nat, off: nat, v: T)
    requires |mem| > 0 && off < n <= |mem|
    ensures Window(mem[Cell(at + off, |mem|) := v], at, n) == Window(mem, at, n)[off := v]
  {
    hide Cell;
    var after, w := Window(mem[Cell(at + off, |mem|) := v], at, n), Window(mem, at, n)[off := v];
    forall i | 0 <= i < n
      ensures after[i] == w[i]
    {
      if i < off { CellsDiffer(at + i, at + off, |mem|); }
      if off < i { CellsDiffer(at + off, at + i, |mem|); }
    }
  }

  lemma StoreFirstStep<T>(mem: seq<T>, tail: nat, n: nat, v: T)
    requires |mem| > 0 && tail < |mem| && 0 < n <= |mem|
    ensures Window(mem[tail := v], tail, n) == Window(mem, tail, n)[0 := v]
  {
    hide Window;
    WindowUpdate(mem, tail, n, 0, v);
  }

  /** The first readable cell is not among the writable ones. */
  lemma FreeStays<T>(mem: seq<T>, tail: nat, n: nat, head: nat, v: T)
    requires tail < |mem| && 0 < n <= |mem| && head == Cell(tail + n, |mem|)
    ensures Window(mem[tail := v], head, |mem| - n) == Window(mem, head, |mem| - n)
  {
    hide Window;
    CellIsMod(tail + n, |mem|);
    WindowFrame(mem, head, |mem| - n, if head > tail then tail + |mem| else tail, v);
  }

  /** Fill count, head, tail and length are int32_t; up to this length the sum of two of them is one as well. */
  const MAX_LENGTH: nat := 0x4000_0000

  class CircularBuffer<T> {
    const mem: array<T>
    var tail: nat
    var head: nat
    var fillCount: int

    ghost predicate Valid()
      reads this
    {
      && 0 < mem.Length <= MAX_LENGTH && tail < mem.Length && 0 <= fillCount <= mem.Length
      && head == Cell(tail + fillCount, mem.Length)
    }

    /** The bytes waiting to be read, oldest first */
    ghost function Contents(): seq<T>
      requires Valid()
      reads this, mem
    {
      Window(mem[..], tail, fillCount)
    }

    /** What TPCircularBufferInit establishes over mirrored memory */
    constructor (mem: array<T>)
      requires 0 < mem.Length <= MAX_LENGTH
      ensures Valid() && this.mem == mem && Contents() == [] && tail == head == 0
    {
      this.mem := mem;
      tail, head, fillCount := 0, 0, 0;
    }

    /** TPCircularBufferTail: the address to read from (none when empty) and how much is there */
    method Tail() returns (p: Option<nat>, available: int)
      requires Valid()
      ensures available == |Contents()|
      ensures p == if available == 0 then None else Some(tail)
    {
      available := fillCount;
      p := if available == 0 then None else Some(tail);
    }

    /** TPCircularBufferConsume, TPCircularBufferConsumeNoBarrier */
    method Consume(amount: nat)
      requires Valid() && amount <= fillCount
      modifies this`tail, this`fillCount
      ensures Valid() && tail == Cell(old(tail) + amount, mem.Length)
      ensures Contents() == old(Contents())[amount..]
      ensures old(Free()) <= Free()
    {
      hide Window, Cell;
      WindowSplit(mem[..], head, mem.Length - fillCount, amount);
      CellIsMod(tail + amount, mem.Length);
      CellAdd(tail + amount, fillCount - amount, mem.Length);
      WindowSplit(mem[..], tail, amount, fillCount - amount);
      WindowWraps(mem[..], tail + amount, fillCount - amount);
      tail := (tail + amount) % mem.Length;
      fillCount := fillCount - amount;
    }

    /** TPCircularBufferHead: the address to write to (none when full) and how much fits */
    method Head() returns (p: Option<nat>, available: int)
      requires Valid()
      ensures available == mem.Length - |Contents()|
      ensures p == if available == 0 then None else Some(head)
    {
      available := mem.Length - fillCount;
      p := if available == 0 then None else Some(head);
    }

    /** TPCircularBufferProduce, TPCircularBufferProduceNoBarrier: what lies at the head joins the contents */
    method Produce(amount: nat)
      requires Valid() && fillCount + amount <= mem.Length
      modifies this`head, this`fillCount
      ensures Valid() && head == Cell(old(head) + amount, mem.Length)
      ensures Contents() == old(Contents()) + Window(mem[..], old(head), amount)
      ensures Contents() == old(Contents()) + old(Free())[..amount]
    {
      hide Window, Cell;
      CellIsMod(head + amount, mem.Length);
      CellAdd(tail + fillCount, amount, mem.Length);
      WindowSplit(mem[..], tail, fillCount, amount);
      WindowWraps(mem[..], tail + fillCount, amount);
      WindowSplit(mem[..], head, amount, mem.Length - fillCount - amount);
      head := (head + amount) % mem.Length;
      fillCount := fillCount + amount;
    }

    /** memcpy through the mirrored mapping to the free space at the head */
    method CopyIn(src: seq<T>)
      requires Valid() && fillCount + |src| <= mem.Length
      modifies mem
      ensures Valid() && Contents() == old(Contents()) && Window(mem[..], head, |src|) == src
    {
      hide Window, Cell;
      for i := 0 to |src|
        invariant Valid() && Window(mem[..], tail, fillCount) == old(Contents())
        invariant Window(mem[..], head, i) == src[..i]
      {
        CopyStep(mem[..], tail, fillCount, head, i, src[i]);
        mem[(head + i) % mem.Length] := src[i];
      }
    }

    /** The cells the producer may write, from the head on */
    ghost function Free(): seq<T>
      requires Valid()
      reads this, mem
    {
      Window(mem[..], head, mem.Length - fillCount)
    }

    /** A store through the pointer returned by Head */
    method Store(off: nat, v: T)
      requires Valid() && fillCount + off < mem.Length
      modifies mem
      ensures Valid() && Contents() == old(Contents()) && Free() == old(Free())[off := v]
    {
      hide Window, Cell;
      StoreStep(mem[..], tail, fillCount, head, off, v);
      mem[(head + off) % mem.Length] := v;
    }

    /** A load through the pointer returned by Head */
    method LoadFree(off: nat) returns (v: T)
      requires Valid() && fillCount + off < mem.Length
      ensures v == Free()[off]
    {
      CellIsMod(head + off, mem.Length);
      v := mem[(head + off) % mem.Length];
    }

    /** A load through the pointer returned by Tail */
    method Load(off: nat) returns (v: T)
      requires Valid() && off < fillCount
      ensures v == Contents()[off]
    {
      CellIsMod(tail + off, mem.Length);
      v := mem[(tail + off) % mem.Length];
    }

    /** A store to the first readable cell */
    method StoreFirst(v: T)
      requires Valid() && fillCount > 0
      modifies mem
      ensures Valid() && Contents() == old(Contents())[0 := v] && Free() == old(Free())
    {
      hide Window, Cell;
      FreeStays(mem[..], tail, fillCount, head, v);
      StoreFirstStep(mem[..], tail, fillCount, v);
      mem[tail] := v;
    }

    /** TPCircularBufferProduceBytes */
    method ProduceBytes(src: seq<T>) returns (ok: bool)
      requires Valid()
      modifies this`head, this`fillCount, mem
      ensures Valid() && tail == old(tail)
      ensures ok == (|old(Contents())| + |src| <= mem.Length)
      ensures Contents() == if ok then old(Contents()) + src else old(Contents())
    {
      var _, space := Head();
      if space < |src| {
        return false;
      }
      CopyIn(src);
      Produce(|src|);
      return true;
    }

    /** TPCircularBufferClear */
    method Clear()
      requires Valid()
      modifies this`tail, this`fillCount
      ensures Valid() && Contents() == []
    {
      var p, n := Tail();
      if p.Some? {
        Consume(n);
      }
    }
  }
}
