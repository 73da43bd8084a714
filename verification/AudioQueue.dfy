/** TPCircularBuffer+AudioBufferList.c: producing and consuming blocks of audio. */
module AudioQueues {
  import opened Common
  import opened Rings
  import opened AudioBlocks

  /** The invariant between calls: the readable bytes are a chain of whole blocks, all 16-byte aligned. */
  ghost predicate Queued(buffer: CircularBuffer<Unit>)
    reads buffer, buffer.mem
  {
    && buffer.Valid() && buffer.mem.Length % 16 == 0 && buffer.tail % 16 == 0
    && Chain(buffer.Contents(), buffer.tail, buffer.mem.Length)
  }

  /** The audio of channel c waiting in the ring */
  ghost function Audio(buffer: CircularBuffer<Unit>, c: nat): seq<Byte>
    requires buffer.Valid()
    reads buffer, buffer.mem
  {
    Queue(buffer.Contents(), buffer.tail, buffer.mem.Length, c)
  }

  /** A ring as Init leaves it (its length is a whole number of pages) has an empty chain. */
  lemma EmptyRingIsQueued(buffer: CircularBuffer<Unit>)
    requires buffer.Valid() && buffer.tail == 0 && buffer.fillCount == 0 && buffer.mem.Length % 16 == 0
    ensures Queued(buffer) && forall c: nat :: Audio(buffer, c) == []
  {
    hide Cell;
    assert buffer.Contents() == [];
    forall c: nat
      ensures Chain([], buffer.tail, buffer.mem.Length) && Audio(buffer, c) == []
    {
      EmptyChain(buffer.tail, buffer.mem.Length, c);
    }
    EmptyChain(buffer.tail, buffer.mem.Length, 0);
  }

  lemma {:induction false} CellAligned(k: nat, n: nat)
    requires n > 0 && n % 16 == 0 && k % 16 == 0
    ensures Cell(k, n) % 16 == 0
  {
    if k >= n {
      AlignedDifference(k, n);
      CellAligned(k - n, n);
    }
  }

  lemma AlignedDifference(x: nat, y: nat)
    requires x % 16 == 0 && y % 16 == 0 && y <= x
    ensures (x - y) % 16 == 0
  {
    var p, q := x / 16, y / 16;
    assert x == 16 * p && y == 16 * q;
    assert x - y == 16 * (p - q);
  }

  lemma AlignedSum(x: nat, y: nat)
    requires x % 16 == 0 && y % 16 == 0
    ensures (x + y) % 16 == 0
  {
    var p, q := x / 16, y / 16;
    assert x == 16 * p && y == 16 * q;
    assert x + y == 16 * (p + q);
  }

  /** The head is 16-byte aligned too, so block headers always are. */
  lemma HeadAligned(buffer: CircularBuffer<Unit>)
    requires Queued(buffer)
    ensures buffer.head % 16 == 0
  {
    hide Chain, Cell, Window;
    ChainAligned(buffer.Contents(), buffer.tail, buffer.mem.Length);
    AlignedSum(buffer.tail, buffer.fillCount);
    CellAligned(buffer.tail + buffer.fillCount, buffer.mem.Length);
  }

  // ---- laying out a block ----

  /** Where the first i buffers of a block of n buffers end */
  function DataEnd(i: nat, n: nat, bytes: nat): (r: nat)
    requires n >= 1
    ensures r >= HeaderSize(n)
  {
    if i == 0 then HeaderSize(n) else Align(DataEnd(i - 1, n, bytes)) + bytes
  }

  /** Offset of the data of buffer i */
  function Place(i: nat, n: nat, bytes: nat): (r: nat)
    requires n >= 1
    ensures r % 16 == 0 && r >= HeaderSize(n)
  {
    Align(DataEnd(i, n, bytes))
  }

  function BlockLength(n: nat, bytes: nat): (r: nat)
    requires n >= 1
    ensures r % 16 == 0 && r >= HeaderSize(n)
  {
    Align(DataEnd(n, n, bytes))
  }

  /** The first i buffers of such a block at address `at` */
  function LaidOut(at: nat, i: nat, n: nat, bytes: nat): (b: seq<Buf>)
    requires n >= 1
    ensures |b| == i
  {
    if i == 0 then [] else LaidOut(at, i - 1, n, bytes) + [Buf(at + Place(i - 1, n, bytes), bytes)]
  }

  lemma {:induction false} InOrderSnoc(bufs: seq<Buf>, from: nat, mid: nat, b: Buf, to: nat)
    requires InOrder(bufs, from, mid) && mid <= b.data && b.data + b.size <= to
    ensures InOrder(bufs + [b], from, to)
    decreases |bufs|
  {
    if bufs == [] {
      assert bufs + [b] == [b] && [b][1..] == [];
    } else {
      assert (bufs + [b])[1..] == bufs[1..] + [b];
      InOrderSnoc(bufs[1..], bufs[0].data + bufs[0].size, mid, b, to);
    }
  }

  lemma {:induction false} LaidOutInOrder(at: nat, i: nat, n: nat, bytes: nat)
    requires n >= 1
    ensures InOrder(LaidOut(at, i, n, bytes), at + HeaderSize(n), at + DataEnd(i, n, bytes))
  {
    hide Align, HeaderSize;
    if i > 0 {
      LaidOutInOrder(at, i - 1, n, bytes);
      hide InOrder;
      var b := Buf(at + Place(i - 1, n, bytes), bytes);
      InOrderSnoc(LaidOut(at, i - 1, n, bytes), at + HeaderSize(n), at + DataEnd(i - 1, n, bytes), b,
          at + DataEnd(i, n, bytes));
    }
  }

  lemma {:induction false} LaidOutAt(at: nat, i: nat, n: nat, bytes: nat, j: nat)
    requires n >= 1 && j < i
    ensures LaidOut(at, i, n, bytes)[j] == Buf(at + Place(j, n, bytes), bytes)
  {
    hide Align, HeaderSize, Place;
    if j < i - 1 { LaidOutAt(at, i - 1, n, bytes, j); }
  }

  lemma {:induction false} DataEndGrows(i: nat, j: nat, n: nat, bytes: nat)
    requires n >= 1 && i <= j
    ensures DataEnd(i, n, bytes) <= DataEnd(j, n, bytes)
  {
    hide Align, HeaderSize;
    if i < j { DataEndGrows(i, j - 1, n, bytes); }
  }

  /** The plain sum that is checked first never exceeds the aligned length. */
  lemma {:induction false} DataEndAtLeast(i: nat, n: nat, bytes: nat)
    requires n >= 1
    ensures DataEnd(i, n, bytes) >= HeaderSize(n) + i * bytes
  {
    hide Align, HeaderSize;
    MulStep(i, bytes);
    if i > 0 { DataEndAtLeast(i - 1, n, bytes); }
  }

  lemma MulStep(i: nat, x: nat)
    ensures i * x >= 0
    ensures i > 0 ==> i * x == (i - 1) * x + x
  {
  }

  lemma AlignBehind(x: nat, bytes: nat, step: nat)
    requires x % 16 == 0 && step % 16 == 0 && bytes <= step < bytes + 16
    ensures Align(x + bytes) == x + step
  {
    AlignedSum(x, step);
    LeastMultiple(Align(x + bytes), x + step, x + bytes);
  }

  lemma LeastMultiple(r: nat, q: nat, x: nat)
    requires r % 16 == 0 && q % 16 == 0 && x <= r < x + 16 && x <= q < x + 16
    ensures r == q
  {
  }

  /** In bytes: the header takes 72 bytes for the time stamp and the length, 8 for the number of buffers and 16
      for each buffer; each buffer's data then take `step` bytes, their size rounded up to 16. */
  lemma {:induction false} LayoutInBytes(i: nat, n: nat, bytes: nat, step: nat)
    requires n >= 1 && step % 16 == 0 && bytes <= step < bytes + 16
    ensures Place(i, n, bytes) == 80 + 16 * n + i * step
    ensures i == n ==> BlockLength(n, bytes) == 80 + 16 * n + n * step
  {
    MulStep(i, step);
    if i == 0 {
      LeastMultiple(Align(HeaderSize(n)), HeaderSize(n), HeaderSize(n));
    } else {
      LayoutInBytes(i - 1, n, bytes, step);
      hide Align, HeaderSize;
      AlignBehind(Place(i - 1, n, bytes), bytes, step);
    }
  }

  /** A header with its buffers in the free space, not yet produced */
  predicate HeaderIn(free: seq<Unit>, h: Header)
  {
    |h.bufs| >= 1 && HeaderCells(free, HeaderSize(|h.bufs|), h)
  }

  predicate CoveredUpTo(free: seq<Unit>, k: nat)
    requires k <= |free|
  {
    forall j :: 0 < j < k ==> free[j].Covered?
  }

  predicate HeaderCells(free: seq<Unit>, size: nat, h: Header)
  {
    && 0 < size <= |free| && free[0] == Start(h) && CoveredUpTo(free, size)
  }

  lemma StartStored(free: seq<Unit>, size: nat, h: Header)
    requires 0 < size <= |free| && CoveredUpTo(free, size)
    ensures HeaderCells(free[0 := Start(h)], size, h)
  {
  }

  /** Zeroing the header's memory */
  method ClearHeader(buffer: CircularBuffer<Unit>, size: nat)
    requires buffer.Valid() && 1 <= size && buffer.fillCount + size <= buffer.mem.Length
    modifies buffer.mem
    ensures buffer.Valid() && buffer.Contents() == old(buffer.Contents())
    ensures CoveredFree(buffer, size)
  {
    hide Window, Cell;
    var k := 1;
    while k < size
      invariant 1 <= k <= size && buffer.Valid() && buffer.Contents() == old(buffer.Contents())
      invariant CoveredUpTo(buffer.Free(), k)
    {
      buffer.Store(k, Covered);
      k := k + 1;
    }
  }

  /** TPCircularBufferPrepareEmptyAudioBufferList: succeeds exactly when the aligned block fits. */
  method Prepare(buffer: CircularBuffer<Unit>, n: nat, bytes: nat, stamp: Option<Stamp>) returns (list: Option<nat>)
    requires Queued(buffer) && n >= 1
    modifies buffer.mem
    ensures Queued(buffer) && buffer.Contents() == old(buffer.Contents())
    ensures list == if BlockLength(n, bytes) <= buffer.mem.Length - buffer.fillCount
                    then Some(buffer.head + 72) else None
    ensures list.Some? ==>
      HeaderIn(buffer.Free(), Header(if stamp.Some? then stamp.value else Stamp(false, 0), BlockLength(n, bytes),
                                     LaidOut(buffer.head, n, n, bytes)))
  {
    hide Window, Cell, Chain, DataEnd, LaidOut, Align, HeaderSize, CoveredUpTo;
    HeadAligned(buffer);
    Spare(n, bytes);
    var block, available := buffer.Head();
    if available < 96 + (n - 1) * 16 + n * bytes {
      return None;
    }
    var at := block.value;
    assert at % 16 == 0;
    var st := if stamp.Some? then stamp.value else Stamp(false, 0);
    ClearHeader(buffer, HeaderSize(n));
    var off, bufs := PlaceBuffers(buffer, n, bytes, st, available);
    if off.None? {
      return None;
    }
    var total := Align(off.value);
    StartStored(buffer.Free(), HeaderSize(n), Header(st, total, bufs));
    buffer.Store(0, Start(Header(st, total, bufs)));
    if total > available {
      return None;
    }
    return Some(at + 72);
  }

  /** The loop of Prepare: the offset after the last buffer, or none when a buffer does not fit */
  method PlaceBuffers(buffer: CircularBuffer<Unit>, n: nat, bytes: nat, st: Stamp, available: int)
    returns (end: Option<nat>, bufs: seq<Buf>)
    requires buffer.Valid() && n >= 1 && CoveredFree(buffer, HeaderSize(n))
    modifies buffer.mem
    ensures buffer.Valid() && buffer.Contents() == old(buffer.Contents()) && CoveredFree(buffer, HeaderSize(n))
    ensures end.Some? ==> end.value == DataEnd(n, n, bytes) && bufs == LaidOut(buffer.head, n, n, bytes)
    ensures end.None? ==> DataEnd(n, n, bytes) > available
  {
    hide Window, Cell, DataEnd, LaidOut, Align, HeaderSize, CoveredUpTo;
    bufs := [];
    var off: nat := HeaderSize(n);
    LayoutStart(buffer.head, n, bytes);
    for i := 0 to n
      invariant buffer.Valid() && buffer.Contents() == old(buffer.Contents())
      invariant CoveredFree(buffer, HeaderSize(n))
      invariant bufs == LaidOut(buffer.head, i, n, bytes) && off == DataEnd(i, n, bytes)
    {
      off := Align(off);
      LayoutStep(buffer.head, i, n, bytes);
      if off + bytes > available {
        return None, bufs;
      }
      bufs := bufs + [Buf(buffer.head + off, bytes)];
      StartStored(buffer.Free(), HeaderSize(n), Header(st, 0, bufs));
      buffer.Store(0, Start(Header(st, 0, bufs)));
      off := off + bytes;
    }
    return Some(off), bufs;
  }

  ghost predicate CoveredFree(buffer: CircularBuffer<Unit>, size: nat)
    requires buffer.Valid()
    reads buffer, buffer.mem
  {
    0 < size <= |buffer.Free()| && CoveredUpTo(buffer.Free(), size)
  }

  lemma Spare(n: nat, bytes: nat)
    requires n >= 1
    ensures 96 + (n - 1) * 16 == HeaderSize(n)
    ensures HeaderSize(n) + n * bytes <= DataEnd(n, n, bytes) <= BlockLength(n, bytes)
    ensures n * bytes >= 0
  {
    hide Align, DataEnd;
    DataEndAtLeast(n, n, bytes);
    MulStep(n, bytes);
  }

  lemma LayoutStart(at: nat, n: nat, bytes: nat)
    requires n >= 1
    ensures LaidOut(at, 0, n, bytes) == [] && DataEnd(0, n, bytes) == HeaderSize(n)
  {
  }

  lemma LayoutStep(at: nat, i: nat, n: nat, bytes: nat)
    requires n >= 1 && i < n
    ensures LaidOut(at, i + 1, n, bytes) == LaidOut(at, i, n, bytes) + [Buf(at + Align(DataEnd(i, n, bytes)), bytes)]
    ensures DataEnd(i + 1, n, bytes) == Align(DataEnd(i, n, bytes)) + bytes <= DataEnd(n, n, bytes)
  {
    hide Align, HeaderSize;
    DataEndGrows(i + 1, n, n, bytes);
  }

  // ---- producing it ----

  lemma {:induction false} InOrderBounds(bufs: seq<Buf>, from: nat, to: nat, i: nat)
    requires InOrder(bufs, from, to) && i < |bufs|
    ensures from <= bufs[i].data && bufs[i].data + bufs[i].size <= bufs[|bufs| - 1].data + bufs[|bufs| - 1].size <= to
    decreases |bufs|
  {
    if |bufs| > 1 {
      InOrderBounds(bufs[1..], bufs[0].data + bufs[0].size, to, if i > 0 then i - 1 else 0);
    }
  }

  lemma {:induction false} InOrderTight(bufs: seq<Buf>, from: nat, to: nat, to': nat)
    requires InOrder(bufs, from, to) && bufs != []
    requires bufs[|bufs| - 1].data + bufs[|bufs| - 1].size <= to'
    ensures InOrder(bufs, from, to')
    decreases |bufs|
  {
    if |bufs| > 1 {
      InOrderTight(bufs[1..], bufs[0].data + bufs[0].size, to, to');
    } else {
      assert bufs[1..] == [];
    }
  }

  /** What the caller may hand to Produce: a prepared block whose buffers have not left their places. */
  predicate Prepared(free: seq<Unit>, at: nat, h: Header)
  {
    && |h.bufs| >= 1 && HeaderIn(free, h) && h.total % 16 == 0 && HeaderSize(|h.bufs|) <= h.total <= |free|
    && InOrder(h.bufs, at + HeaderSize(|h.bufs|), at + h.total)
  }

  /** The block that Produce makes of the free space: cut off behind the last buffer's data. */
  function FinalLength(at: nat, h: Header): nat
    requires |h.bufs| >= 1 && InOrder(h.bufs, at + HeaderSize(|h.bufs|), at + h.total)
  {
    InOrderBounds(h.bufs, at + HeaderSize(|h.bufs|), at + h.total, |h.bufs| - 1);
    var last := h.bufs[|h.bufs| - 1];
    Align(last.data + last.size - at)
  }

  lemma AlignMonotone(x: nat, y: nat)
    requires x <= y && y % 16 == 0
    ensures Align(x) <= y
  {
  }

  /** The prepared block, cut to length t behind its last buffer */
  function Cut(free: seq<Unit>, h: Header, stamp: Stamp, t: nat): seq<Unit>
    requires 0 < t <= |free|
  {
    free[0 := Start(Header(stamp, t, h.bufs))][..t]
  }

  lemma FinalLengthFits(free: seq<Unit>, at: nat, h: Header)
    requires Prepared(free, at, h)
    ensures var t := FinalLength(at, h);
            && HeaderSize(|h.bufs|) <= t <= h.total && t % 16 == 0
            && InOrder(h.bufs, at + HeaderSize(|h.bufs|), at + t)
  {
    hide InOrder, Align, HeaderIn, HeaderSize;
    var last := h.bufs[|h.bufs| - 1];
    var from := at + HeaderSize(|h.bufs|);
    InOrderBounds(h.bufs, from, at + h.total, |h.bufs| - 1);
    AlignMonotone(last.data + last.size - at, h.total);
    InOrderTight(h.bufs, from, at + h.total, at + FinalLength(at, h));
  }

  /** The cut block is well formed. */
  lemma CutIsBlock(free: seq<Unit>, at: nat, h: Header, stamp: Stamp, t: nat)
    requires HeaderIn(free, h) && HeaderSize(|h.bufs|) <= t <= |free| && t % 16 == 0
    requires InOrder(h.bufs, at + HeaderSize(|h.bufs|), at + t)
    ensures Block(Cut(free, h, stamp, t), at) && HeaderOf(Cut(free, h, stamp, t)) == Header(stamp, t, h.bufs)
  {
    hide InOrder, HeaderSize;
  }

  /** ... and still carries the data of every buffer. */
  lemma CutKeepsData(free: seq<Unit>, at: nat, h: Header, stamp: Stamp, t: nat, c: nat)
    requires HeaderIn(free, h) && HeaderSize(|h.bufs|) <= t <= |free|
    requires InOrder(h.bufs, at + HeaderSize(|h.bufs|), at + t)
    ensures Channel(Cut(free, h, stamp, t), at, c) == Channel(free, at, c)
  {
    hide InOrder, HeaderSize, CoveredUpTo, Bytes;
    if c < |h.bufs| {
      InOrderBounds(h.bufs, at + HeaderSize(|h.bufs|), at + t, c);
      var x := h.bufs[c];
      SliceOfCut(free, h, stamp, t, x.data - at, x.data - at + x.size);
    }
  }

  lemma SliceOfCut(free: seq<Unit>, h: Header, stamp: Stamp, t: nat, i: nat, j: nat)
    requires 0 < i <= j <= t <= |free|
    ensures Cut(free, h, stamp, t)[i..j] == free[i..j]
  {
  }

  /** Every channel of s' is that of s followed by what the block at the front of `free` carries. */
  ghost predicate Grew(s: seq<Unit>, s': seq<Unit>, tail: nat, n: nat, free: seq<Unit>, at: nat)
    requires n > 0
  {
    forall c: nat :: Queue(s', tail, n, c) == Queue(s, tail, n, c) + Channel(free, at, c)
  }

  lemma BlockJoins(s: seq<Unit>, tail: nat, n: nat, free: seq<Unit>, at: nat, h: Header, stamp: Stamp)
    requires n > 0 && tail < n && Chain(s, tail, n) && at == Cell(tail + |s|, n) && Prepared(free, at, h)
    ensures 0 < FinalLength(at, h) <= |free|
    ensures var s' := s + Cut(free, h, stamp, FinalLength(at, h)); Chain(s', tail, n) && Grew(s, s', tail, n, free, at)
  {
    hide Chain, Queue, Block, InOrder, Align, Channel, Cut, HeaderIn, HeaderSize, Cell, FinalLength;
    FinalLengthFits(free, at, h);
    var t := FinalLength(at, h);
    CutIsBlock(free, at, h, stamp, t);
    var b := Cut(free, h, stamp, t);
    ChainAppend(s, tail, n, b, 0);
    forall c: nat
      ensures Queue(s + b, tail, n, c) == Queue(s, tail, n, c) + Channel(free, at, c)
    {
      ChainAppend(s, tail, n, b, c);
      CutKeepsData(free, at, h, stamp, t, c);
    }
  }

  /** TPCircularBufferProduceAudioBufferList */
  method Produce(buffer: CircularBuffer<Unit>, stamp: Option<Stamp>) returns (ghost block: seq<Unit>)
    requires Queued(buffer) && Prepared(buffer.Free(), buffer.head, HeaderOf(buffer.Free()))
    modifies buffer`head, buffer`fillCount, buffer.mem
    ensures Queued(buffer)
    ensures buffer.Contents() == old(buffer.Contents()) + block
    ensures HeaderOf(block).stamp == if stamp.Some? then stamp.value else old(HeaderOf(buffer.Free())).stamp
    ensures HeaderOf(block).bufs == old(HeaderOf(buffer.Free())).bufs
    ensures HeaderOf(block).total == |block| == old(FinalLength(buffer.head, HeaderOf(buffer.Free())))
    ensures Grew(old(buffer.Contents()), buffer.Contents(), buffer.tail, buffer.mem.Length, old(buffer.Free()),
        old(buffer.head))
  {
    hide Window, Cell, Chain, Queue, Block, InOrder, Align, Channel, Grew, HeaderSize, CoveredUpTo;
    HeadAligned(buffer);
    ghost var free := buffer.Free();
    var p, available := buffer.Head();
    var at := p.value;
    assert at % 16 == 0;
    var first := buffer.LoadFree(0);
    var h := first.h;
    var st := if stamp.Some? then stamp.value else h.stamp;
    BlockJoins(buffer.Contents(), buffer.tail, buffer.mem.Length, free, at, h, st);
    FinalLengthFits(free, at, h);
    InOrderBounds(h.bufs, at + HeaderSize(|h.bufs|), at + h.total, |h.bufs| - 1);
    var last := h.bufs[|h.bufs| - 1];
    var calculated := Align(last.data + last.size - at);
    assert calculated <= h.total && calculated <= available;
    buffer.Store(0, Start(Header(st, calculated, h.bufs)));
    buffer.Produce(calculated);
    block := Cut(free, h, st, calculated);
    CutIsBlock(free, at, h, st, calculated);
  }

  // ---- copying a whole buffer list in ----

  function Cells(b: seq<Byte>): (s: seq<Unit>)
    ensures |s| == |b|
  {
    seq(|b|, k requires 0 <= k < |b| => Data(b[k]))
  }

  function Overwrite(s: seq<Unit>, off: nat, b: seq<Byte>): (r: seq<Unit>)
    requires off + |b| <= |s|
    ensures |r| == |s|
  {
    s[..off] + Cells(b) + s[off + |b|..]
  }

  /** memcpy to free space */
  method CopyTo(buffer: CircularBuffer<Unit>, off: nat, b: seq<Byte>)
    requires buffer.Valid() && buffer.fillCount + off + |b| <= buffer.mem.Length
    modifies buffer.mem
    ensures buffer.Valid() && buffer.Contents() == old(buffer.Contents())
    ensures buffer.Free() == Overwrite(old(buffer.Free()), off, b)
  {
    hide Window, Cell;
    ghost var free := buffer.Free();
    for k := 0 to |b|
      invariant buffer.Valid() && buffer.Contents() == old(buffer.Contents())
      invariant buffer.Free() == Overwrite(free, off, b[..k])
    {
      OverwriteMore(free, off, b, k);
      buffer.Store(off + k, Data(b[k]));
    }
    assert b[..|b|] == b;
  }

  lemma OverwriteMore(s: seq<Unit>, off: nat, b: seq<Byte>, k: nat)
    requires off + |b| <= |s| && k < |b|
    ensures Overwrite(s, off, b[..k])[off + k := Data(b[k])] == Overwrite(s, off, b[..k + 1])
  {
  }

  lemma PayloadWritten(s: seq<Unit>, at: nat, x: Buf, b: seq<Byte>)
    requires at <= x.data && x.data - at + x.size <= |s| && x.size == |b|
    ensures Payload(Overwrite(s, x.data - at, b), at, x) == b
  {
    assert Overwrite(s, x.data - at, b)[x.data - at..x.data - at + x.size] == Cells(b);
    assert Bytes(Cells(b)) == b;
  }

  lemma PayloadKept(s: seq<Unit>, at: nat, x: Buf, off: nat, b: seq<Byte>)
    requires at <= x.data && x.data - at + x.size <= off && off + |b| <= |s|
    ensures Payload(Overwrite(s, off, b), at, x) == Payload(s, at, x)
  {
    var i, j := x.data - at, x.data - at + x.size;
    assert Overwrite(s, off, b)[i..j] == s[i..j];
  }

  lemma HeaderKept(s: seq<Unit>, h: Header, off: nat, b: seq<Byte>)
    requires HeaderIn(s, h) && HeaderSize(|h.bufs|) <= off && off + |b| <= |s|
    ensures HeaderIn(Overwrite(s, off, b), h)
  {
    hide HeaderSize;
  }

  /** The first i buffers of h hold the first `bytes` bytes of the first i sources. */
  ghost predicate Filled(free: seq<Unit>, at: nat, h: Header, src: seq<seq<Byte>>, bytes: nat, i: nat)
    requires i <= |src| && i <= |h.bufs|
  {
    forall c :: 0 <= c < i ==> bytes <= |src[c]| && Payload(free, at, h.bufs[c]) == src[c][..bytes]
  }

  lemma FillStep(free: seq<Unit>, at: nat, h: Header, src: seq<seq<Byte>>, bytes: nat, i: nat, n: nat)
    requires n == |src| == |h.bufs| && i < n && bytes <= |src[i]|
    requires h.bufs == LaidOut(at, n, n, bytes) && BlockLength(n, bytes) <= |free|
    requires HeaderIn(free, h) && Filled(free, at, h, src, bytes, i)
    ensures h.bufs[i] == Buf(at + Place(i, n, bytes), bytes) && Place(i, n, bytes) + bytes <= |free|
    ensures var f := Overwrite(free, Place(i, n, bytes), src[i][..bytes]);
            HeaderIn(f, h) && Filled(f, at, h, src, bytes, i + 1)
  {
    hide Overwrite, Align, DataEnd, LaidOut, Payload, HeaderIn, HeaderSize;
    LaidOutAt(at, n, n, bytes, i);
    LayoutStep(at, i, n, bytes);
    HeaderKept(free, h, Place(i, n, bytes), src[i][..bytes]);
    PayloadWritten(free, at, h.bufs[i], src[i][..bytes]);
    var f := Overwrite(free, Place(i, n, bytes), src[i][..bytes]);
    forall c | 0 <= c < i
      ensures Payload(f, at, h.bufs[c]) == src[c][..bytes]
    {
      LaidOutAt(at, n, n, bytes, c);
      LayoutStep(at, c, n, bytes);
      DataEndGrows(c + 1, i, n, bytes);
      PayloadKept(free, at, h.bufs[c], Place(i, n, bytes), src[i][..bytes]);
    }
  }

  /** The memcpy loop: each source's first `bytes` bytes go to the address the header gives. */
  method FillBuffers(buffer: CircularBuffer<Unit>, src: seq<seq<Byte>>, bytes: nat, ghost h: Header)
    requires buffer.Valid() && HeaderIn(buffer.Free(), h) && |h.bufs| == |src|
    requires h.bufs == LaidOut(buffer.head, |src|, |src|, bytes) && BlockLength(|src|, bytes) <= |buffer.Free()|
    requires forall c :: 0 <= c < |src| ==> bytes <= |src[c]|
    modifies buffer.mem
    ensures buffer.Valid() && buffer.Contents() == old(buffer.Contents()) && HeaderIn(buffer.Free(), h)
    ensures Filled(buffer.Free(), buffer.head, h, src, bytes, |src|)
  {
    hide Window, Cell, Align, DataEnd, LaidOut, Payload, Overwrite, HeaderSize, CoveredUpTo;
    for i := 0 to |src|
      invariant buffer.Valid() && buffer.Contents() == old(buffer.Contents()) && HeaderIn(buffer.Free(), h)
      invariant Filled(buffer.Free(), buffer.head, h, src, bytes, i)
    {
      FillStep(buffer.Free(), buffer.head, h, src, bytes, i, |src|);
      var first := buffer.LoadFree(0);
      CopyTo(buffer, first.h.bufs[i].data - buffer.head, src[i][..bytes]);
    }
  }

  /** frames * mBytesPerFrame in UInt32 arithmetic */
  function Product(frames: nat, bytesPerFrame: nat): nat { (frames * bytesPerFrame) % U32 }

  lemma SmallProduct(frames: nat, bytesPerFrame: nat)
    ensures frames * bytesPerFrame < U32 ==> Product(frames, bytesPerFrame) == frames * bytesPerFrame
    ensures Product(frames, bytesPerFrame) < U32 && Product(frames, bytesPerFrame) <= frames * bytesPerFrame
  {
  }

  /** Number of bytes copied per channel; none stands for kTPCircularBufferCopyAll. */
  function CopyCount(src: seq<seq<Byte>>, frames: Option<nat>, bytesPerFrame: nat): nat
    requires |src| >= 1
  {
    match frames
    case None => |src[0]|
    case Some(n) => Product(n, bytesPerFrame)
  }

  /** The assertion that a source has the bytes sees the wrapped product: it is right exactly when the product
      does not wrap, or wraps to more than the source has. */
  lemma AssertionExactly(frames: nat, bytesPerFrame: nat, size: nat)
    requires size < U32
    ensures (Product(frames, bytesPerFrame) <= size <==> frames * bytesPerFrame <= size)
       <==> (frames * bytesPerFrame < U32 || Product(frames, bytesPerFrame) > size)
  {
    SmallProduct(frames, bytesPerFrame);
  }

  /** Otherwise fewer bytes than asked for are copied, and the call still reports success. */
  lemma CopiesExactly(src: seq<seq<Byte>>, frames: nat, bytesPerFrame: nat)
    requires |src| >= 1
    ensures CopyCount(src, Some(frames), bytesPerFrame) == frames * bytesPerFrame <==> frames * bytesPerFrame < U32
  {
    SmallProduct(frames, bytesPerFrame);
  }

  /** 2^30 + 1 frames of four bytes pass for four bytes. */
  lemma FewCopiedAsMany(src: seq<seq<Byte>>)
    requires |src| >= 1
    ensures CopyCount(src, Some(0x4000_0001), 4) == 4
  {
  }

  /** TPCircularBufferCopyAudioBufferList: all channels get their bytes, or nothing changes. */
  method Copy(buffer: CircularBuffer<Unit>, src: seq<seq<Byte>>, stamp: Option<Stamp>, frames: Option<nat>,
              bytesPerFrame: nat)
    returns (ok: bool, ghost block: seq<Unit>)
    requires Queued(buffer) && |src| >= 1
    requires frames != Some(0) ==> forall c :: 0 <= c < |src| ==> CopyCount(src, frames, bytesPerFrame) <= |src[c]|
    modifies buffer`head, buffer`fillCount, buffer.mem
    ensures Queued(buffer)
    ensures ok == (|| frames == Some(0)
                   || BlockLength(|src|, CopyCount(src, frames, bytesPerFrame))
                        <= buffer.mem.Length - old(buffer.fillCount))
    ensures !ok || frames == Some(0) ==> buffer.Contents() == old(buffer.Contents())
    ensures ok && frames != Some(0) ==> buffer.Contents() == old(buffer.Contents()) + block
    ensures ok && frames != Some(0) ==> Carrying(block, |src|, CopyCount(src, frames, bytesPerFrame))
    ensures ok && frames != Some(0) ==>
      HeaderOf(block).stamp == match stamp case Some(s) => s case None => Stamp(false, 0)
    ensures ok && frames != Some(0) ==>
      forall c: nat :: Audio(buffer, c)
        == old(Audio(buffer, c)) + if c < |src| then src[c][..CopyCount(src, frames, bytesPerFrame)] else []
  {
    hide Window, Cell, Chain, Queue, InOrder, Align, DataEnd, LaidOut, Payload, HeaderSize, HeaderIn, FinalLength;
    block := [];
    if frames == Some(0) {
      return true, block;
    }
    var byteCount := |src[0]|;
    if frames.Some? {
      byteCount := Product(frames.value, bytesPerFrame);
      assert byteCount <= |src[0]|;
    }
    var list := Prepare(buffer, |src|, byteCount, stamp);
    if list.None? {
      return false, block;
    }
    ghost var at := buffer.head;
    ghost var h := Header(if stamp.Some? then stamp.value
        else Stamp(false, 0), BlockLength(|src|, byteCount), LaidOut(at, |src|, |src|, byteCount));
    ghost var s := buffer.Contents();
    FillBuffers(buffer, src, byteCount, h);
    ghost var free := buffer.Free();
    ReadyToProduce(free, at, h, |src|, byteCount);
    block := Produce(buffer, None);
    EqualBuffers(at, |src|, byteCount);
    Carried(s, buffer.Contents(), buffer.tail, buffer.mem.Length, free, at, h, src, byteCount);
    return true, block;
  }

  /** A whole block of n buffers of the same size */
  predicate Carrying(block: seq<Unit>, n: nat, bytes: nat)
  {
    && 0 < HeaderOf(block).total == |block| && |HeaderOf(block).bufs| == n
    && forall i :: 0 <= i < n ==> HeaderOf(block).bufs[i].size == bytes
  }

  lemma EqualBuffers(at: nat, n: nat, bytes: nat)
    requires n >= 1
    ensures forall i :: 0 <= i < n ==> LaidOut(at, n, n, bytes)[i].size == bytes
  {
    hide LaidOut;
    forall i: nat | i < n
      ensures LaidOut(at, n, n, bytes)[i].size == bytes
    {
      LaidOutAt(at, n, n, bytes, i);
    }
  }

  lemma ReadyToProduce(free: seq<Unit>, at: nat, h: Header, n: nat, bytes: nat)
    requires n >= 1 && HeaderIn(free, h) && h.total == BlockLength(n, bytes) <= |free|
        && h.bufs == LaidOut(at, n, n, bytes)
    ensures HeaderOf(free) == h && Prepared(free, at, h)
  {
    hide InOrder, Align, DataEnd, LaidOut, HeaderSize;
    LaidOutInOrder(at, n, n, bytes);
    LaidOutAt(at, n, n, bytes, n - 1);
    LayoutStep(at, n - 1, n, bytes);
    InOrderTight(h.bufs, at + HeaderSize(n), at + DataEnd(n, n, bytes), at + h.total);
  }

  lemma Carried(s: seq<Unit>, s': seq<Unit>, tail: nat, n: nat, free: seq<Unit>, at: nat, h: Header,
                src: seq<seq<Byte>>, bytes: nat)
    requires n > 0 && Grew(s, s', tail, n, free, at) && HeaderOf(free) == h && |h.bufs| == |src|
    requires Filled(free, at, h, src, bytes, |src|)
    ensures forall c: nat :: Queue(s', tail, n, c) == Queue(s, tail, n, c) + if c < |src| then src[c][..bytes] else []
  {
    hide Queue, Payload;
  }
}
