/** The calls of TPCircularBuffer+AudioBufferList.h in any order: each one does to the ring what it does to the
    queues of `AudioModel`, and a prepared block waits in the free space while the consumer goes on. */
module AudioRuns {
  import opened Common
  import opened Rings
  import opened AudioBlocks
  import opened AudioQueues
  import opened AudioDequeues
  import opened AudioModel

  /** A block of whole frames that lies in the free space, ready to be produced */
  predicate Pending(free: seq<Unit>, at: nat, channels: nat, bpf: nat)
    requires bpf > 0
  {
    var h := HeaderOf(free);
    Prepared(free, at, h) && EqualSizes(h) && channels <= |h.bufs| && h.bufs[0].size % bpf == 0
  }

  /** The state between calls; `pending` says that a list is prepared and not yet produced. */
  ghost predicate Sound(buffer: CircularBuffer<Unit>, pending: bool, channels: nat, bpf: nat)
    requires bpf > 0
    reads buffer, buffer.mem
  {
    && Queued(buffer) && Uniform(buffer.Contents(), channels, bpf)
    && (pending ==> Pending(buffer.Free(), buffer.head, channels, bpf))
  }

  // ---- the state that a ring stands for ----

  function PrepOf(free: seq<Unit>, at: nat): Prep
  {
    var h := HeaderOf(free);
    Prep(h.stamp, if h.bufs != [] && at <= h.bufs[|h.bufs| - 1].data then h.bufs[|h.bufs| - 1].data - at else 0,
         seq(|h.bufs|, c requires 0 <= c < |h.bufs| => Payload(free, at, h.bufs[c])))
  }

  ghost function QueuesAt(s: seq<Unit>, at: nat, n: nat, channels: nat): (qs: seq<seq<Byte>>)
    requires n > 0
    ensures |qs| == channels
  {
    seq(channels, c requires 0 <= c < channels => Queue(s, at, n, c))
  }

  ghost function StateOf(buffer: CircularBuffer<Unit>, pending: bool, channels: nat): State
    requires buffer.Valid()
    reads buffer, buffer.mem
  {
    State(QueuesAt(buffer.Contents(), buffer.tail, buffer.mem.Length, channels), Extents(buffer.Contents()),
          if pending then Some(PrepOf(buffer.Free(), buffer.head)) else None)
  }

  lemma {:induction false} ChainExtents(s: seq<Unit>, at: nat, n: nat)
    requires n > 0 && Chain(s, at, n)
    ensures Occupied(Extents(s)) == |s| && Held(Extents(s)) == |Queue(s, at, n, 0)|
    decreases |s|
  {
    hide Chain, Queue, Cell;
    EmptyChain(at, n, 0);
    if s != [] {
      FirstChannel(s, at, n);
      BehindFirst(s, at, n);
      ExtentsStep(s);
      ChainExtents(s[HeaderOf(s).total..], Cell(at + HeaderOf(s).total, n), n);
    }
  }

  lemma {:induction false} ExtentsAppend(s: seq<Unit>, b: seq<Unit>, at: nat, n: nat)
    requires n > 0 && Chain(s, at, n) && 0 < HeaderOf(b).total == |b|
    ensures Extents(s + b) == Extents(s) + [ExtentOf(HeaderOf(b))]
    decreases |s|
  {
    hide Chain, Cell;
    if s == [] {
      assert s + b == b && b[|b|..] == [];
      assert Extents([]) == [];
      ExtentsStep(b);
    } else {
      var t := HeaderOf(s).total;
      BehindFirst(s, at, n);
      ExtentsStep(s);
      AppendSplits(s, b, t);
      ExtentsStep(s + b);
      ExtentsAppend(s[t..], b, Cell(at + t, n), n);
    }
  }

  /** Where the buffers of a pending block lie in the free space */
  lemma PendingBounds(free: seq<Unit>, at: nat, channels: nat, bpf: nat, i: nat)
    requires bpf > 0 && Pending(free, at, channels, bpf) && i < |HeaderOf(free).bufs|
    ensures var x := HeaderOf(free).bufs[i];
            at + 96 <= x.data && x.data - at + x.size <= |free| && |Payload(free, at, x)| == x.size
  {
    hide InOrder, Payload, HeaderIn;
    var h := HeaderOf(free);
    InOrderBounds(h.bufs, at + HeaderSize(|h.bufs|), at + h.total, i);
    PayloadLength(free, at, h.bufs[i]);
  }

  /** More free space behind it does not touch a prepared block. */
  lemma PendingStays(free: seq<Unit>, free': seq<Unit>, at: nat, channels: nat, bpf: nat)
    requires bpf > 0 && free <= free' && Pending(free, at, channels, bpf)
    ensures Pending(free', at, channels, bpf)
  {
    hide InOrder, HeaderSize, EqualSizes;
    assert free[0] == free'[0];
  }

  lemma PrepStays(free: seq<Unit>, free': seq<Unit>, at: nat, channels: nat, bpf: nat)
    requires bpf > 0 && free <= free' && Pending(free, at, channels, bpf)
    ensures PrepOf(free', at) == PrepOf(free, at)
  {
    hide Pending, Payload;
    SameHeader(free, free', at, channels, bpf);
    var h := HeaderOf(free);
    forall c | 0 <= c < |h.bufs|
      ensures Payload(free', at, h.bufs[c]) == Payload(free, at, h.bufs[c])
    {
      PendingBounds(free, at, channels, bpf, c);
      PayloadOfPrefix(free, free', at, h.bufs[c]);
    }
  }

  lemma SameHeader(free: seq<Unit>, free': seq<Unit>, at: nat, channels: nat, bpf: nat)
    requires bpf > 0 && free <= free' && Pending(free, at, channels, bpf)
    ensures HeaderOf(free') == HeaderOf(free)
  {
    hide InOrder, HeaderSize, EqualSizes;
    assert free[0] == free'[0];
  }

  lemma PayloadOfPrefix(s: seq<Unit>, s': seq<Unit>, at: nat, x: Buf)
    requires s <= s' && at <= x.data && x.data - at + x.size <= |s|
    ensures Payload(s', at, x) == Payload(s, at, x)
  {
    var i, j := x.data - at, x.data - at + x.size;
    assert s'[i..j] == s[i..j];
  }

  // ---- the producer's calls ----

  lemma LaidOutIsPending(free: seq<Unit>, at: nat, st: Stamp, n: nat, bytes: nat, channels: nat, bpf: nat)
    requires bpf > 0 && n >= 1 && channels <= n && bytes % bpf == 0 && BlockLength(n, bytes) <= |free|
    requires HeaderIn(free, Header(st, BlockLength(n, bytes), LaidOut(at, n, n, bytes)))
    ensures Pending(free, at, channels, bpf)
  {
    hide InOrder, Align, DataEnd, LaidOut, HeaderSize, Prepared;
    ReadyToProduce(free, at, Header(st, BlockLength(n, bytes), LaidOut(at, n, n, bytes)), n, bytes);
    EqualBuffers(at, n, bytes);
  }

  lemma LaidOutPrep(free: seq<Unit>, at: nat, st: Stamp, n: nat, bytes: nat)
    requires n >= 1 && BlockLength(n, bytes) <= |free|
    requires HeaderIn(free, Header(st, BlockLength(n, bytes), LaidOut(at, n, n, bytes)))
    ensures var p := PrepOf(free, at);
            && p == Prep(st, Place(n - 1, n, bytes), p.bufs) && |p.bufs| == n
            && forall c :: 0 <= c < n ==> |p.bufs[c]| == bytes
  {
    hide LaidOut, Align, HeaderSize, Payload, DataEnd, CoveredUpTo;
    var h := Header(st, BlockLength(n, bytes), LaidOut(at, n, n, bytes));
    assert HeaderOf(free) == h;
    LaidOutAt(at, n, n, bytes, n - 1);
    forall c | 0 <= c < n
      ensures |Payload(free, at, h.bufs[c])| == bytes
    {
      LaidOutAt(at, n, n, bytes, c);
      LayoutStep(at, c, n, bytes);
      Spare(n, bytes);
      PayloadLength(free, at, h.bufs[c]);
    }
  }

  /** PrepareList */
  method DoPrepare(buffer: CircularBuffer<Unit>, n: nat, bytes: nat, stamp: Option<Stamp>, ghost channels: nat,
                   ghost bpf: nat)
    returns (pending: bool)
    requires bpf > 0 && Sound(buffer, false, channels, bpf) && n >= 1 && channels <= n && bytes % bpf == 0
    modifies buffer.mem
    ensures Sound(buffer, pending, channels, bpf) && buffer.Contents() == old(buffer.Contents())
    ensures pending == (BlockLength(n, bytes) + |buffer.Contents()| <= buffer.mem.Length)
    ensures pending ==>
      var p := PrepOf(buffer.Free(), buffer.head);
      && p == Prep(StampOr(stamp, Stamp(false, 0)), Place(n - 1, n, bytes), p.bufs) && |p.bufs| == n
      && forall c :: 0 <= c < n ==> |p.bufs[c]| == bytes
  {
    hide Chain, Window, Cell, Uniform, Pending, HeaderIn, LaidOut, DataEnd, Align, HeaderSize, Place, PrepOf;
    var list := Prepare(buffer, n, bytes, stamp);
    pending := list.Some?;
    if pending {
      LaidOutIsPending(buffer.Free(), buffer.head, StampOr(stamp, Stamp(false, 0)), n, bytes, channels, bpf);
      LaidOutPrep(buffer.Free(), buffer.head, StampOr(stamp, Stamp(false, 0)), n, bytes);
    }
  }

  /** Writing inside one of the prepared buffers leaves the block prepared. */
  lemma FillKeeps(free: seq<Unit>, at: nat, c: nat, data: seq<Byte>, channels: nat, bpf: nat)
    requires bpf > 0 && Pending(free, at, channels, bpf)
    requires c < |HeaderOf(free).bufs| && |data| <= HeaderOf(free).bufs[c].size
    ensures var x := HeaderOf(free).bufs[c];
            && 0 < x.data - at && x.data - at + |data| <= |free|
            && Pending(Overwrite(free, x.data - at, data), at, channels, bpf)
            && HeaderOf(Overwrite(free, x.data - at, data)) == HeaderOf(free)
  {
    hide InOrder, HeaderSize, EqualSizes, CoveredUpTo, Overwrite;
    var h := HeaderOf(free);
    InOrderBounds(h.bufs, at + HeaderSize(|h.bufs|), at + h.total, c);
    HeaderKept(free, h, h.bufs[c].data - at, data);
  }

  lemma {:induction false} InOrderApart(bufs: seq<Buf>, from: nat, to: nat, i: nat, j: nat)
    requires InOrder(bufs, from, to) && i < j < |bufs|
    ensures bufs[i].data + bufs[i].size <= bufs[j].data
    decreases |bufs|
  {
    if i == 0 {
      InOrderBounds(bufs[1..], bufs[0].data + bufs[0].size, to, j - 1);
    } else {
      InOrderApart(bufs[1..], bufs[0].data + bufs[0].size, to, i - 1, j - 1);
    }
  }

  lemma PayloadPartly(s: seq<Unit>, at: nat, x: Buf, b: seq<Byte>)
    requires at <= x.data && x.data - at + x.size <= |s| && |b| <= x.size
    ensures Payload(Overwrite(s, x.data - at, b), at, x) == b + Payload(s, at, x)[|b|..]
  {
    var i, j := x.data - at, x.data - at + x.size;
    var w := Overwrite(s, i, b);
    assert w[i..j] == Cells(b) + s[i..j][|b|..];
    assert Bytes(Cells(b)) == b;
    assert Bytes(w[i..j]) == b + Bytes(s[i..j])[|b|..];
  }

  lemma PayloadBehind(s: seq<Unit>, at: nat, x: Buf, off: nat, b: seq<Byte>)
    requires at <= x.data && x.data - at + x.size <= |s| && off + |b| <= x.data - at
    ensures Payload(Overwrite(s, off, b), at, x) == Payload(s, at, x)
  {
    var i, j := x.data - at, x.data - at + x.size;
    assert Overwrite(s, off, b)[i..j] == s[i..j];
  }

  /** Writing to one prepared buffer changes its first bytes and nothing else. */
  lemma FillPrep(free: seq<Unit>, at: nat, c: nat, data: seq<Byte>, channels: nat, bpf: nat)
    requires bpf > 0 && Pending(free, at, channels, bpf)
    requires c < |HeaderOf(free).bufs| && |data| <= HeaderOf(free).bufs[c].size
    ensures var x := HeaderOf(free).bufs[c];
            && 0 < x.data - at && x.data - at + |data| <= |free|
            && PrepOf(Overwrite(free, x.data - at, data), at) == WithData(PrepOf(free, at), c, data)
  {
    hide Pending, Payload, Overwrite;
    FillKeeps(free, at, c, data, channels, bpf);
    var h := HeaderOf(free);
    var x := h.bufs[c];
    PendingBounds(free, at, channels, bpf, c);
    var free' := Overwrite(free, x.data - at, data);
    PayloadPartly(free, at, x, data);
    forall i | 0 <= i < |h.bufs| && i != c
      ensures Payload(free', at, h.bufs[i]) == Payload(free, at, h.bufs[i])
    {
      PendingBounds(free, at, channels, bpf, i);
      PendingApart(free, at, channels, bpf, i, c);
      if i < c {
        PayloadKept(free, at, h.bufs[i], x.data - at, data);
      } else {
        PayloadBehind(free, at, h.bufs[i], x.data - at, data);
      }
    }
  }

  lemma PendingApart(free: seq<Unit>, at: nat, channels: nat, bpf: nat, i: nat, j: nat)
    requires bpf > 0 && Pending(free, at, channels, bpf) && i < |HeaderOf(free).bufs| && j < |HeaderOf(free).bufs|
    ensures var bufs := HeaderOf(free).bufs;
            && (i < j ==> bufs[i].data + bufs[i].size <= bufs[j].data)
            && (j < i ==> bufs[j].data + bufs[j].size <= bufs[i].data)
  {
    hide InOrder, HeaderSize, EqualSizes, HeaderIn;
    var h := HeaderOf(free);
    if i < j { InOrderApart(h.bufs, at + HeaderSize(|h.bufs|), at + h.total, i, j); }
    if j < i { InOrderApart(h.bufs, at + HeaderSize(|h.bufs|), at + h.total, j, i); }
  }

  /** Fill: the client writes to a buffer of the prepared list. */
  method DoFill(buffer: CircularBuffer<Unit>, c: nat, data: seq<Byte>, ghost channels: nat, ghost bpf: nat)
    requires bpf > 0 && Sound(buffer, true, channels, bpf)
    modifies buffer.mem
    ensures Sound(buffer, true, channels, bpf) && buffer.Contents() == old(buffer.Contents())
    ensures PrepOf(buffer.Free(), buffer.head)
         == WithData(old(PrepOf(buffer.Free(), buffer.head)), c, data)
  {
    hide Chain, Window, Cell, Uniform, HeaderIn, InOrder, HeaderSize, Overwrite, EqualSizes, Payload;
    var first := buffer.LoadFree(0);
    if c < |first.h.bufs| {
      PendingBounds(buffer.Free(), buffer.head, channels, bpf, c);
      if |data| <= first.h.bufs[c].size {
        FillKeeps(buffer.Free(), buffer.head, c, data, channels, bpf);
        FillPrep(buffer.Free(), buffer.head, c, data, channels, bpf);
        CopyTo(buffer, first.h.bufs[c].data - buffer.head, data);
      }
    }
  }

  function Resized(bufs: seq<Buf>, bytes: nat): (r: seq<Buf>)
    ensures |r| == |bufs|
  {
    seq(|bufs|, i requires 0 <= i < |bufs| => Buf(bufs[i].data, bytes))
  }

  lemma {:induction false} ResizedInOrder(bufs: seq<Buf>, from: nat, to: nat, bytes: nat)
    requires InOrder(bufs, from, to) && forall i :: 0 <= i < |bufs| ==> bytes <= bufs[i].size
    ensures InOrder(Resized(bufs, bytes), from, to)
    decreases |bufs|
  {
    if bufs != [] {
      assert Resized(bufs, bytes)[1..] == Resized(bufs[1..], bytes);
      ResizedInOrder(bufs[1..], bufs[0].data + bufs[0].size, to, bytes);
      InOrderEarlier(Resized(bufs[1..], bytes), bufs[0].data + bytes, bufs[0].data + bufs[0].size, to);
    }
  }

  lemma InOrderEarlier(bufs: seq<Buf>, from: nat, from': nat, to: nat)
    requires InOrder(bufs, from', to) && from <= from'
    ensures InOrder(bufs, from, to)
  {
  }

  lemma TrimKeeps(free: seq<Unit>, at: nat, bytes: nat, channels: nat, bpf: nat)
    requires bpf > 0 && Pending(free, at, channels, bpf) && bytes % bpf == 0 && bytes <= HeaderOf(free).bufs[0].size
    ensures var h := HeaderOf(free);
            free != [] && Pending(free[0 := Start(h.(bufs := Resized(h.bufs, bytes)))], at, channels, bpf)
  {
    hide InOrder, HeaderSize;
    var h := HeaderOf(free);
    ResizedInOrder(h.bufs, at + HeaderSize(|h.bufs|), at + h.total, bytes);
    StartStored(free, HeaderSize(|h.bufs|), h.(bufs := Resized(h.bufs, bytes)));
  }

  lemma PayloadCut(s: seq<Unit>, at: nat, x: Buf, bytes: nat, first: Unit)
    requires at < x.data && x.data - at + x.size <= |s| && bytes <= x.size
    ensures Payload(s[0 := first], at, Buf(x.data, bytes)) == Payload(s, at, x)[..bytes]
  {
    var i, j := x.data - at, x.data - at + x.size;
    assert s[0 := first][i..i + bytes] == s[i..j][..bytes];
  }

  lemma TrimPrep(free: seq<Unit>, at: nat, bytes: nat, channels: nat, bpf: nat)
    requires bpf > 0 && Pending(free, at, channels, bpf) && bytes <= HeaderOf(free).bufs[0].size
    ensures var h := HeaderOf(free);
            && free != []
            && PrepOf(free[0 := Start(h.(bufs := Resized(h.bufs, bytes)))], at)
                 == Trimmed(PrepOf(free, at), bytes)
  {
    hide InOrder, HeaderSize, Payload, HeaderIn;
    var h := HeaderOf(free);
    PendingBounds(free, at, channels, bpf, 0);
    var first := Start(h.(bufs := Resized(h.bufs, bytes)));
    forall c | 0 <= c < |h.bufs|
      ensures Payload(free[0 := first], at, first.h.bufs[c]) == FirstBytes(Payload(free, at, h.bufs[c]), bytes)
    {
      PendingBounds(free, at, channels, bpf, c);
      PayloadCut(free, at, h.bufs[c], bytes, first);
    }
    PendingBounds(free, at, channels, bpf, |h.bufs| - 1);
  }

  /** Trim: the client sets the size of every prepared buffer to what it really has. */
  method DoTrim(buffer: CircularBuffer<Unit>, bytes: nat, ghost channels: nat, ghost bpf: nat)
    requires bpf > 0 && Sound(buffer, true, channels, bpf) && bytes % bpf == 0
    modifies buffer.mem
    ensures Sound(buffer, true, channels, bpf) && buffer.Contents() == old(buffer.Contents())
    ensures PrepOf(buffer.Free(), buffer.head)
         == Trimmed(old(PrepOf(buffer.Free(), buffer.head)), bytes)
  {
    hide Chain, Window, Cell, Uniform, InOrder, HeaderSize, EqualSizes, CoveredUpTo, Resized, Payload;
    var first := buffer.LoadFree(0);
    PendingBounds(buffer.Free(), buffer.head, channels, bpf, 0);
    if bytes <= first.h.bufs[0].size {
      TrimKeeps(buffer.Free(), buffer.head, bytes, channels, bpf);
      TrimPrep(buffer.Free(), buffer.head, bytes, channels, bpf);
      buffer.Store(0, Start(first.h.(bufs := Resized(first.h.bufs, bytes))));
    }
  }

  lemma ProducedUniform(s: seq<Unit>, block: seq<Unit>, h: Header, channels: nat, bpf: nat)
    requires bpf > 0 && Uniform(s, channels, bpf)
    requires 0 < HeaderOf(block).total == |block| && HeaderOf(block).bufs == h.bufs
    requires |h.bufs| >= 1 && EqualSizes(h) && channels <= |h.bufs| && h.bufs[0].size % bpf == 0
    ensures Uniform(s + block, channels, bpf)
  {
    hide Uniform;
    CopyStaysUniform(s, block, |h.bufs|, h.bufs[0].size, channels, bpf);
  }

  /** The block that Produce makes has the extent that the model gives it. */
  lemma MadeExtent(free: seq<Unit>, at: nat, stamp: Option<Stamp>, h: Header, channels: nat, bpf: nat)
    requires bpf > 0 && Pending(free, at, channels, bpf) && h.bufs == HeaderOf(free).bufs
    requires h.stamp == (if stamp.Some? then stamp.value else HeaderOf(free).stamp)
    requires h.total == FinalLength(at, HeaderOf(free))
    ensures PrepOf(free, at).bufs != [] && ExtentOf(h) == Made(PrepOf(free, at), stamp)
  {
    hide InOrder, Payload, HeaderIn, Align;
    PendingBounds(free, at, channels, bpf, 0);
    PendingBounds(free, at, channels, bpf, |h.bufs| - 1);
  }

  lemma GrewQueues(s: seq<Unit>, s': seq<Unit>, tail: nat, n: nat, free: seq<Unit>, at: nat, channels: nat)
    requires n > 0 && Grew(s, s', tail, n, free, at) && channels <= |HeaderOf(free).bufs|
    ensures forall c :: 0 <= c < channels ==>
      QueuesAt(s', tail, n, channels)[c] == QueuesAt(s, tail, n, channels)[c] + PrepOf(free, at).bufs[c]
  {
    hide Queue, Payload;
    forall c: nat | c < channels
      ensures Queue(s', tail, n, c) == Queue(s, tail, n, c) + PrepOf(free, at).bufs[c]
    {
    }
  }

  /** ProduceList */
  method DoProduce(buffer: CircularBuffer<Unit>, stamp: Option<Stamp>, ghost channels: nat, ghost bpf: nat)
    requires bpf > 0 && Sound(buffer, true, channels, bpf)
    modifies buffer`head, buffer`fillCount, buffer.mem
    ensures Sound(buffer, false, channels, bpf)
    ensures var p := PrepOf(old(buffer.Free()), old(buffer.head));
            && channels <= |p.bufs| && p.bufs != []
            && Extents(buffer.Contents()) == Extents(old(buffer.Contents())) + [Made(p, stamp)]
            && forall c :: 0 <= c < channels ==>
                 QueuesAt(buffer.Contents(), buffer.tail, buffer.mem.Length, channels)[c]
                   == QueuesAt(old(buffer.Contents()), buffer.tail, buffer.mem.Length, channels)[c] + p.bufs[c]
  {
    hide Chain, Window, Cell, Uniform, Queue, Channel, InOrder, HeaderSize, HeaderIn, EqualSizes, Grew, Payload,
         Extents, ExtentOf, Made, FinalLength;
    ghost var s, free, at := buffer.Contents(), buffer.Free(), buffer.head;
    ghost var block := Produce(buffer, stamp);
    ProducedUniform(s, block, HeaderOf(free), channels, bpf);
    GrewQueues(s, buffer.Contents(), buffer.tail, buffer.mem.Length, free, at, channels);
    MadeExtent(free, at, stamp, HeaderOf(block), channels, bpf);
    ExtentsAppend(s, block, buffer.tail, buffer.mem.Length);
  }

  // ---- the consumer's calls ----

  /** Every channel is shorter by this many bytes. */
  ghost predicate Dropped(s0: seq<Unit>, at0: nat, s: seq<Unit>, at: nat, n: nat, channels: nat, bytes: nat)
    requires n > 0
  {
    forall c :: 0 <= c < channels ==>
      QueuesAt(s, at, n, channels)[c] == BytesAfter(QueuesAt(s0, at0, n, channels)[c], bytes)
  }

  lemma DroppedEach(s0: seq<Unit>, at0: nat, s: seq<Unit>, at: nat, n: nat, channels: nat, bytes: nat)
    requires n > 0
    requires forall c: nat :: c < channels ==>
        bytes <= |Queue(s0, at0, n, c)| && Queue(s, at, n, c) == Queue(s0, at0, n, c)[bytes..]
    ensures Dropped(s0, at0, s, at, n, channels, bytes)
  {
    hide Queue;
    forall c: nat | c < channels
      ensures Queue(s, at, n, c) == BytesAfter(Queue(s0, at0, n, c), bytes)
    {
      assert bytes <= |Queue(s0, at0, n, c)|;
    }
  }

  lemma NothingDropped(s: seq<Unit>, at: nat, n: nat, channels: nat)
    requires n > 0
    ensures Dropped(s, at, s, at, n, channels, 0)
  {
    hide Queue;
    forall c: nat | c < channels
      ensures 0 <= |Queue(s, at, n, c)| && Queue(s, at, n, c) == Queue(s, at, n, c)[0..]
    {
    }
    DroppedEach(s, at, s, at, n, channels, 0);
  }

  /** Shortening the first block of a uniform queue by whole frames */
  lemma ShortenDrops(s: seq<Unit>, at: nat, n: nat, frames: nat, bytes: nat, at': nat, channels: nat, bpf: nat)
    requires n > 0 && bpf > 0 && s != [] && Chain(s, at, n) && Uniform(s, channels, bpf)
    requires Ready(s) && bytes % bpf == 0 && bytes <= HeaderOf(s).bufs[0].size
    requires at' == if bytes == HeaderOf(s).bufs[0].size then Cell(at + HeaderOf(s).total, n) else at
    ensures Removable(s, bytes) && Uniform(Shortened(s, frames, bytes), channels, bpf)
    ensures Dropped(s, at, Shortened(s, frames, bytes), at', n, channels, bytes)
    ensures Extents(Shortened(s, frames, bytes)) == Consumed(Extents(s), frames, bytes)
  {
    hide Chain, Queue, Cell, Uniform, EqualSizes, Shortened, HeaderOf, Dropped, Removable, Extents, Consumed;
    EqualBuffersGive(s, bytes);
    FrontUniform(s, channels, bpf);
    UniformShortened(s, channels, bpf, frames, bytes);
    forall c: nat | c < channels
      ensures bytes <= |Queue(s, at, n, c)|
      ensures Queue(Shortened(s, frames, bytes), at', n, c) == Queue(s, at, n, c)[bytes..]
    {
      ShortenedQueue(s, at, n, frames, bytes, c);
    }
    DroppedEach(s, at, Shortened(s, frames, bytes), at', n, channels, bytes);
    ShortenedExtents(s, frames, bytes);
  }

  lemma EmptyExtents(s: seq<Unit>)
    requires s != [] ==> Ready(s)
    ensures Extents(s) == [] <==> s == []
    ensures s != [] ==> Extents(s)[0] == ExtentOf(HeaderOf(s)) && Extents(s)[0].size == HeaderOf(s).bufs[0].size
  {
    hide EqualSizes;
  }

  lemma WholeBlockConsumed(blocks: seq<Extent>)
    ensures blocks != [] ==> Consumed(blocks, 0, blocks[0].size) == blocks[1..]
  {
  }

  /** ConsumeList */
  method DoConsume(buffer: CircularBuffer<Unit>, ghost channels: nat, ghost bpf: nat)
    requires bpf > 0 && Queued(buffer) && Uniform(buffer.Contents(), channels, bpf)
    modifies buffer`tail, buffer`fillCount
    ensures Queued(buffer) && Uniform(buffer.Contents(), channels, bpf) && old(buffer.Free()) <= buffer.Free()
    ensures var blocks := Extents(old(buffer.Contents()));
            && Extents(buffer.Contents()) == (if blocks == [] then [] else blocks[1..])
            && Dropped(old(buffer.Contents()), old(buffer.tail), buffer.Contents(), buffer.tail, buffer.mem.Length,
                       channels, if blocks == [] then 0 else blocks[0].size)
  {
    hide Chain, Window, Cell, Uniform, Queue, HeaderOf, Dropped, EqualSizes, Extents, Consumed, Removable;
    ghost var s, at, n := buffer.Contents(), buffer.tail, buffer.mem.Length;
    NothingDropped(s, at, n, channels);
    NoExtents();
    if s != [] {
      FrontUniform(s, channels, bpf);
      EmptyExtents(s);
      var size := HeaderOf(s).bufs[0].size;
      MultipleIsWhole(size, bpf);
      ShortenDrops(s, at, n, 0, size, Cell(at + HeaderOf(s).total, n), channels, bpf);
      WholeBlockConsumed(Extents(s));
      ShortenedWhole(s);
    }
    ConsumeNext(buffer);
  }

  lemma NoExtents()
    ensures Extents([]) == []
  {
  }

  lemma ShortenedWhole(s: seq<Unit>)
    requires s != [] && |HeaderOf(s).bufs| >= 1 && Removable(s, HeaderOf(s).bufs[0].size)
    ensures Shortened(s, 0, HeaderOf(s).bufs[0].size) == s[HeaderOf(s).total..]
  {
  }

  lemma PartOfBlock(x: nat, size: nat, b: nat)
    requires b > 0 && Whole(size, b) == size && x % b == 0
    ensures Min(x, size) % b == 0
  {
  }

  lemma ConsumedNothing(blocks: seq<Extent>, frames: nat)
    ensures blocks == [] ==> Consumed(blocks, frames, 0) == []
  {
  }

  /** ConsumeFrames */
  method DoConsumeFrames(buffer: CircularBuffer<Unit>, frames: nat, bpf: nat, ghost channels: nat)
    requires bpf > 0 && Queued(buffer) && Uniform(buffer.Contents(), channels, bpf) && Product(frames, bpf) % bpf == 0
    modifies buffer`tail, buffer`fillCount, buffer.mem
    ensures Queued(buffer) && Uniform(buffer.Contents(), channels, bpf) && old(buffer.Free()) <= buffer.Free()
    ensures var blocks := Extents(old(buffer.Contents()));
            var bytes := if blocks == [] then 0 else Min(Product(frames, bpf), blocks[0].size);
            && Extents(buffer.Contents()) == Consumed(blocks, frames, bytes)
            && Dropped(old(buffer.Contents()), old(buffer.tail), buffer.Contents(), buffer.tail, buffer.mem.Length,
                       channels, bytes)
  {
    hide Chain, Window, Cell, Uniform, Queue, HeaderOf, Dropped, EqualSizes, Product, Shortened, Extents, Consumed,
         Removable, GivesEnough;
    ghost var s, at, n := buffer.Contents(), buffer.tail, buffer.mem.Length;
    NothingDropped(s, at, n, channels);
    NoExtents();
    ConsumedNothing([], frames);
    if s != [] {
      FrontUniform(s, channels, bpf);
      EmptyExtents(s);
      var size := HeaderOf(s).bufs[0].size;
      var bytes := Min(Product(frames, bpf), size);
      PartOfBlock(Product(frames, bpf), size, bpf);
      EqualBuffersGive(s, Product(frames, bpf));
      ShortenDrops(s, at, n, frames, bytes, if bytes == size then Cell(at + HeaderOf(s).total, n) else at, channels,
                   bpf);
    }
    ConsumePartial(buffer, frames, bpf);
  }

  /** What a draw removes and gives */
  lemma DrawnEach(s0: seq<Unit>, at0: nat, s: seq<Unit>, at: nat, n: nat, channels: nat, frames: nat, bpf: nat,
                  got: nat, out: seq<seq<Byte>>)
    requires n > 0 && bpf > 0 && Drawn(s0, at0, s, at, n, channels, frames, bpf, got, out)
    requires Level(s0, at0, n, channels, bpf)
    ensures var total := |Queue(s0, at0, n, 0)|;
            && Dropped(s0, at0, s, at, n, channels, Whole(Min(Product(frames, bpf), total), bpf))
            && out == Firsts(QueuesAt(s0, at0, n, channels), Product(frames, bpf))
  {
    hide Queue, Dropped, Whole, Product;
    var copied := Min(Product(frames, bpf), |Queue(s0, at0, n, 0)|);
    DroppedEach(s0, at0, s, at, n, channels, Whole(copied, bpf));
    forall c: nat | c < channels
      ensures out[c] == FirstBytes(Queue(s0, at0, n, c), Product(frames, bpf))
    {
      assert |Queue(s0, at0, n, c)| == |Queue(s0, at0, n, 0)|;
    }
  }

  /** DequeueFrames */
  method DoDequeue(buffer: CircularBuffer<Unit>, wanted: nat, room: seq<nat>, bpf: nat)
    returns (got: nat, stamp: Option<Stamp>, out: seq<seq<Byte>>)
    requires bpf > 0 && Queued(buffer) && Uniform(buffer.Contents(), |room|, bpf) && RoomFor(room, Product(wanted, bpf))
    modifies buffer`tail, buffer`fillCount, buffer.mem
    ensures Queued(buffer) && Uniform(buffer.Contents(), |room|, bpf) && old(buffer.Free()) <= buffer.Free()
    ensures var blocks := Extents(old(buffer.Contents()));
            && Extents(buffer.Contents()) == Draw(blocks, Product(wanted, bpf), bpf)
            && Dropped(old(buffer.Contents()), old(buffer.tail), buffer.Contents(), buffer.tail, buffer.mem.Length,
                       |room|, Whole(Min(Product(wanted, bpf), Held(blocks)), bpf))
            && Played(got, stamp, out)
                 == Played(Reported(wanted, bpf, Held(blocks)),
                           if Product(wanted, bpf) > 0 then Some(FrontStamp(blocks)) else None,
                           Firsts(QueuesAt(old(buffer.Contents()), old(buffer.tail), buffer.mem.Length, |room|),
                                  Product(wanted, bpf)))
  {
    hide Chain, Window, Cell, Uniform, Queue, HeaderOf, Dropped, EqualSizes, Product, Whole, Delivered, Level, RoomFor,
         Extents, Draw, Reported, Firsts, Moved;
    ghost var s, at, n := buffer.Contents(), buffer.tail, buffer.mem.Length;
    Lengths(buffer, |room|, bpf);
    ChainExtents(s, at, n);
    FrontOf(s, at, n);
    RoomForLess(room, Min(Product(wanted, bpf), |Queue(s, at, n, 0)|), Product(wanted, bpf));
    var size: nat;
    got, size, out, stamp := Dequeue(buffer, wanted, room, bpf);
    DrawnEach(s, at, buffer.Contents(), buffer.tail, n, |room|, wanted, bpf, got, out);
  }

  lemma FrontOf(s: seq<Unit>, at: nat, n: nat)
    requires n > 0 && Chain(s, at, n)
    ensures FrontStamp(Extents(s)) == HeaderOf(s).stamp
  {
    hide Chain, Cell;
    EmptyHeader(s);
    if s != [] { BehindFirst(s, at, n); }
  }

  // ---- each call does what the model says ----

  /** An operation that neither adds nor takes */
  lemma Quiet(a: State, b: State, op: Op, length: nat, bpf: nat, junk: seq<seq<Byte>>)
    requires bpf > 0 && (op.PrepareList? || op.Fill? || op.Trim? || (op.ProduceList? && a.prep.None?))
    requires b == State(a.queues, a.blocks, NextPrep(a, op, length, junk))
    ensures b == Next(a, op, length, bpf, junk)
  {
    hide NextPrep;
    forall c | 0 <= c < |a.queues|
      ensures BytesAfter(a.queues[c] + Adds(a, op, c), Takes(a, op, bpf)) == a.queues[c]
    {
      assert a.queues[c] + [] == a.queues[c];
    }
  }

  lemma Produces(a: State, b: State, stamp: Option<Stamp>, length: nat, bpf: nat)
    requires bpf > 0 && a.prep.Some? && a.prep.value.bufs != [] && |b.queues| == |a.queues| <= |a.prep.value.bufs|
    requires forall c :: 0 <= c < |a.queues| ==> b.queues[c] == a.queues[c] + a.prep.value.bufs[c]
    requires b.blocks == a.blocks + [Made(a.prep.value, stamp)] && b.prep == None
    ensures b == Next(a, ProduceList(stamp), length, bpf, [])
  {
    hide Made;
    forall c | 0 <= c < |a.queues|
      ensures b.queues[c] == Next(a, ProduceList(stamp), length, bpf, []).queues[c]
    {
      var q := a.queues[c] + a.prep.value.bufs[c];
      assert BytesAfter(q, 0) == q;
    }
  }

  lemma Consumes(a: State, b: State, op: Op, length: nat, bpf: nat)
    requires bpf > 0 && (op.ConsumeList? || op.ConsumeFrames? || op.DequeueFrames?)
    requires |b.queues| == |a.queues| && b.prep == a.prep && b.blocks == NextBlocks(a, op, bpf)
    requires forall c :: 0 <= c < |a.queues| ==> b.queues[c] == BytesAfter(a.queues[c], Takes(a, op, bpf))
    ensures b == Next(a, op, length, bpf, [])
  {
    hide NextBlocks, Takes;
    forall c | 0 <= c < |a.queues|
      ensures b.queues[c] == Next(a, op, length, bpf, []).queues[c]
    {
      assert a.queues[c] + [] == a.queues[c];
    }
  }

  ghost function NoJunk(op: Op): (junk: seq<seq<Byte>>)
    ensures Sized(op, junk)
  {
    if op.PrepareList? then seq(op.n, _ => Copies<Byte>(0, op.bytes)) else []
  }

  /** The consumer's calls leave a prepared block alone. */
  lemma StillPending(free: seq<Unit>, buffer: CircularBuffer<Unit>, pending: bool, channels: nat, bpf: nat)
    requires bpf > 0 && buffer.Valid() && free <= buffer.Free()
    ensures pending && Pending(free, buffer.head, channels, bpf) ==>
      && Pending(buffer.Free(), buffer.head, channels, bpf)
      && PrepOf(buffer.Free(), buffer.head) == PrepOf(free, buffer.head)
  {
    hide Pending, Window, Cell, PrepOf;
    if pending && Pending(free, buffer.head, channels, bpf) {
      PendingStays(free, buffer.Free(), buffer.head, channels, bpf);
      PrepStays(free, buffer.Free(), buffer.head, channels, bpf);
    }
  }

  method StepProducer(buffer: CircularBuffer<Unit>, op: Op, pending: bool, channels: nat, bpf: nat)
    returns (pending': bool, reply: Reply, ghost junk: seq<seq<Byte>>)
    requires bpf > 0 && Sound(buffer, pending, channels, bpf) && Proper(op, channels, bpf)
    requires op.PrepareList? || op.Fill? || op.Trim? || op.ProduceList?
    modifies buffer`head, buffer`fillCount, buffer.mem
    ensures Sound(buffer, pending', channels, bpf) && Sized(op, junk)
    ensures StateOf(buffer, pending', channels)
         == Next(old(StateOf(buffer, pending, channels)), op, buffer.mem.Length, bpf, junk)
    ensures reply == Answer(old(StateOf(buffer, pending, channels)), op, buffer.mem.Length, bpf)
  {
    hide Chain, Window, Cell, Uniform, Queue, Pending, HeaderOf, PrepOf, Extents, Align, BlockLength, Place, Next, Made,
         WithData, Trimmed;
    ghost var a := StateOf(buffer, pending, channels);
    ChainExtents(buffer.Contents(), buffer.tail, buffer.mem.Length);
    pending', reply, junk := pending, Done, NoJunk(op);
    match op {
      case PrepareList(n, bytes, stamp) =>
        pending' := DoPrepare(buffer, n, bytes, stamp, channels, bpf);
        if pending' { junk := PrepOf(buffer.Free(), buffer.head).bufs; }
        reply := Listed(pending');
        Quiet(a, StateOf(buffer, pending', channels), op, buffer.mem.Length, bpf, junk);
      case Fill(c, data) =>
        if pending { DoFill(buffer, c, data, channels, bpf); }
        Quiet(a, StateOf(buffer, pending', channels), op, buffer.mem.Length, bpf, junk);
      case Trim(bytes) =>
        if pending { DoTrim(buffer, bytes, channels, bpf); }
        Quiet(a, StateOf(buffer, pending', channels), op, buffer.mem.Length, bpf, junk);
      case ProduceList(stamp) =>
        if pending {
          DoProduce(buffer, stamp, channels, bpf);
          pending' := false;
          Produces(a, StateOf(buffer, pending', channels), stamp, buffer.mem.Length, bpf);
        } else {
          Quiet(a, StateOf(buffer, pending', channels), op, buffer.mem.Length, bpf, junk);
        }
    }
  }

  method StepConsumer(buffer: CircularBuffer<Unit>, op: Op, pending: bool, channels: nat, bpf: nat)
    returns (reply: Reply)
    requires bpf > 0 && Sound(buffer, pending, channels, bpf) && Proper(op, channels, bpf)
    requires op.ConsumeList? || op.ConsumeFrames? || op.DequeueFrames?
    modifies buffer`tail, buffer`fillCount, buffer.mem
    ensures Sound(buffer, pending, channels, bpf)
    ensures StateOf(buffer, pending, channels)
         == Next(old(StateOf(buffer, pending, channels)), op, buffer.mem.Length, bpf, [])
    ensures reply == Answer(old(StateOf(buffer, pending, channels)), op, buffer.mem.Length, bpf)
  {
    hide Chain, Window, Cell, Uniform, Queue, Pending, HeaderOf, PrepOf, Extents, Next, RoomFor, Product, Consumed,
         Draw, Reported, Firsts, Whole, FrontStamp, Held;
    ghost var a, free := StateOf(buffer, pending, channels), buffer.Free();
    reply := Done;
    match op {
      case ConsumeList => DoConsume(buffer, channels, bpf);
      case ConsumeFrames(frames) => DoConsumeFrames(buffer, frames, bpf, channels);
      case DequeueFrames(wanted, room) =>
        var got, stamp, out := DoDequeue(buffer, wanted, room, bpf);
        reply := Played(got, stamp, out);
    }
    StillPending(free, buffer, pending, channels, bpf);
    Consumes(a, StateOf(buffer, pending, channels), op, buffer.mem.Length, bpf);
  }

  /** Any sequence of calls: the ring ends in the state, and the client gets the answers, that the model gives. */
  method Run(buffer: CircularBuffer<Unit>, ops: seq<Op>, channels: nat, bpf: nat)
    returns (pending: bool, replies: seq<Reply>, ghost junk: seq<seq<seq<Byte>>>)
    requires bpf > 0 && Sound(buffer, false, channels, bpf)
    requires forall k :: 0 <= k < |ops| ==> Proper(ops[k], channels, bpf)
    modifies buffer`head, buffer`tail, buffer`fillCount, buffer.mem
    ensures Sound(buffer, pending, channels, bpf) && Orderly(ops, junk, channels, bpf)
    ensures StateOf(buffer, pending, channels)
         == RunState(old(StateOf(buffer, false, channels)), ops, buffer.mem.Length, bpf, junk)
    ensures replies == Replies(old(StateOf(buffer, false, channels)), ops, buffer.mem.Length, bpf, junk)
  {
    hide Chain, Window, Cell, Uniform, Queue, Pending, Proper, Sized, StateOf, Next, Answer;
    ghost var a := StateOf(buffer, false, channels);
    pending, replies, junk := false, [], [];
    for i := 0 to |ops|
      invariant buffer.Valid() && Sound(buffer, pending, channels, bpf) && Orderly(ops[..i], junk, channels, bpf)
      invariant StateOf(buffer, pending, channels) == RunState(a, ops[..i], buffer.mem.Length, bpf, junk)
      invariant replies == Replies(a, ops[..i], buffer.mem.Length, bpf, junk)
    {
      var reply: Reply;
      ghost var j := [];
      if ops[i].PrepareList? || ops[i].Fill? || ops[i].Trim? || ops[i].ProduceList? {
        pending, reply, j := StepProducer(buffer, ops[i], pending, channels, bpf);
      } else {
        reply := StepConsumer(buffer, ops[i], pending, channels, bpf);
        ConsumersNeedNone(ops[i]);
      }
      RunMore(a, ops, i, buffer.mem.Length, bpf, junk, j);
      OrderlyMore(ops, i, junk, j, channels, bpf);
      replies, junk := replies + [reply], junk + [j];
    }
    assert ops[..|ops|] == ops;
  }

  lemma ConsumersNeedNone(op: Op)
    requires !op.PrepareList?
    ensures Sized(op, [])
  {
  }

  lemma RunMore(a: State, ops: seq<Op>, i: nat, length: nat, bpf: nat, junk: seq<seq<seq<Byte>>>, j: seq<seq<Byte>>)
    requires bpf > 0 && i < |ops| && |junk| == i
    ensures var b := RunState(a, ops[..i], length, bpf, junk);
            && RunState(a, ops[..i + 1], length, bpf, junk + [j]) == Next(b, ops[i], length, bpf, j)
            && Replies(a, ops[..i + 1], length, bpf, junk + [j])
                 == Replies(a, ops[..i], length, bpf, junk) + [Answer(b, ops[i], length, bpf)]
  {
    hide Next, Answer;
    assert ops[..i + 1][..i] == ops[..i] && (junk + [j])[..i] == junk;
  }

  lemma OrderlyMore(ops: seq<Op>, i: nat, junk: seq<seq<seq<Byte>>>, j: seq<seq<Byte>>, channels: nat, bpf: nat)
    requires bpf > 0 && i < |ops| && Orderly(ops[..i], junk, channels, bpf)
    requires Proper(ops[i], channels, bpf) && Sized(ops[i], j)
    ensures Orderly(ops[..i + 1], junk + [j], channels, bpf)
  {
    hide Proper, Sized;
  }

  // ---- what the model's theorems say of a ring ----

  /** A sound ring stands for a consistent state. */
  lemma SoundIsConsistent(buffer: CircularBuffer<Unit>, pending: bool, channels: nat, bpf: nat)
    requires bpf > 0 && Sound(buffer, pending, channels, bpf)
    ensures Consistent(StateOf(buffer, pending, channels), channels, bpf)
  {
    hide Chain, Window, Cell, Uniform, Queue, Pending, Extents, Level, PrepOf, WholeBlocks, Regular;
    var s, n := buffer.Contents(), buffer.mem.Length;
    Lengths(buffer, channels, bpf);
    ChainExtents(s, buffer.tail, n);
    UniformExtents(s, channels, bpf);
    LevelQueues(s, buffer.tail, n, channels, bpf);
    if pending { PendingRegular(buffer.Free(), buffer.head, channels, bpf); }
  }

  lemma LevelQueues(s: seq<Unit>, at: nat, n: nat, channels: nat, bpf: nat)
    requires n > 0 && bpf > 0 && Level(s, at, n, channels, bpf)
    ensures forall c :: 0 <= c < channels ==> |QueuesAt(s, at, n, channels)[c]| == |Queue(s, at, n, 0)|
  {
    hide Queue;
    forall c: nat | c < channels
      ensures |QueuesAt(s, at, n, channels)[c]| == |Queue(s, at, n, 0)|
    {
      assert |Queue(s, at, n, c)| == |Queue(s, at, n, 0)|;
    }
  }

  lemma {:induction false} UniformExtents(s: seq<Unit>, channels: nat, bpf: nat)
    requires bpf > 0 && Uniform(s, channels, bpf)
    ensures WholeBlocks(Extents(s), bpf)
    decreases |s|
  {
    hide Uniform;
    if s != [] {
      UniformStep(s, channels, bpf);
      ExtentsStep(s);
      UniformExtents(s[HeaderOf(s).total..], channels, bpf);
    }
  }

  lemma PendingRegular(free: seq<Unit>, at: nat, channels: nat, bpf: nat)
    requires bpf > 0 && Pending(free, at, channels, bpf)
    ensures Regular(PrepOf(free, at).bufs, channels, bpf)
  {
    hide InOrder, Payload, HeaderIn;
    forall c | 0 <= c < |HeaderOf(free).bufs|
      ensures |PrepOf(free, at).bufs[c]| == HeaderOf(free).bufs[c].size
    {
      PendingBounds(free, at, channels, bpf, c);
    }
  }

  /** A ring that starts empty, with audio leaving by dequeuing only: on every channel, what the calls returned
      and what is still queued is what was produced, byte for byte and in order; and when no product wraps,
      the frames reported are the frames returned. */
  method RunFromEmpty(buffer: CircularBuffer<Unit>, ops: seq<Op>, channels: nat, bpf: nat)
    returns (pending: bool, replies: seq<Reply>, ghost junk: seq<seq<seq<Byte>>>)
    requires bpf > 0 && Sound(buffer, false, channels, bpf) && buffer.Contents() == []
    requires forall k :: 0 <= k < |ops| ==> Proper(ops[k], channels, bpf) && OnlyDequeues(ops[k], bpf)
    modifies buffer`head, buffer`tail, buffer`fillCount, buffer.mem
    ensures Sound(buffer, pending, channels, bpf) && Orderly(ops, junk, channels, bpf)
    ensures forall c: nat :: c < channels ==>
      PlayedOn(replies, c) + Audio(buffer, c)
        == Produced(old(StateOf(buffer, false, channels)), ops, buffer.mem.Length, bpf, junk, c)
    ensures (forall k :: 0 <= k < |ops| ==> NoWrap(ops[k], bpf)) ==>
      forall c: nat :: c < channels ==> FramesReported(replies) * bpf == |PlayedOn(replies, c)|
  {
    hide Chain, Window, Cell, Uniform, Pending, Proper, OnlyDequeues, NoWrap, Sized, PlayedOn, Produced, Replies,
         RunState, Queue, Consistent, FramesReported;
    ghost var a := StateOf(buffer, false, channels);
    SoundIsConsistent(buffer, false, channels, bpf);
    EmptyQueues(buffer, channels);
    pending, replies, junk := Run(buffer, ops, channels, bpf);
    forall c: nat | c < channels
      ensures PlayedOn(replies, c) + Audio(buffer, c) == Produced(a, ops, buffer.mem.Length, bpf, junk, c)
    {
      FirstInFirstOut(a, ops, buffer.mem.Length, bpf, junk, channels, c);
      assert StateOf(buffer, pending, channels).queues[c] == Audio(buffer, c);
    }
    if forall k :: 0 <= k < |ops| ==> NoWrap(ops[k], bpf) {
      forall c: nat | c < channels
        ensures FramesReported(replies) * bpf == |PlayedOn(replies, c)|
      {
        CountsAddUp(a, ops, buffer.mem.Length, bpf, junk, channels, c);
      }
    }
  }

  lemma EmptyQueues(buffer: CircularBuffer<Unit>, channels: nat)
    requires buffer.Valid() && buffer.Contents() == []
    ensures forall c :: 0 <= c < channels ==> StateOf(buffer, false, channels).queues[c] == []
  {
    hide Queue, Window;
    forall c | 0 <= c < channels
      ensures StateOf(buffer, false, channels).queues[c] == []
    {
      EmptyChain(buffer.tail, buffer.mem.Length, c);
    }
  }
}
