/** TPCircularBuffer+AudioBufferList.c/.h: walking and consuming the chain of blocks. */
module AudioDequeues {
  import opened Common
  import opened Rings
  import opened AudioBlocks
  import opened AudioQueues

  // ---- what consuming part of a block does ----

  predicate EqualSizes(h: Header)
  {
    forall i :: 0 <= i < |h.bufs| ==> h.bufs[i].size == h.bufs[0].size
  }

  function Advance(bufs: seq<Buf>, bytes: nat): (r: seq<Buf>)
    requires forall i :: 0 <= i < |bufs| ==> bytes <= bufs[i].size
    ensures |r| == |bufs|
  {
    seq(|bufs|, i requires 0 <= i < |bufs| => Buf(bufs[i].data + bytes, bufs[i].size - bytes))
  }

  function Later(t: Stamp, frames: nat): Stamp
  {
    if t.sampleValid then t.(sampleTime := t.sampleTime + frames) else t
  }

  /** The first block ends within s, its first buffer has `bytes` bytes to give, and so have the others unless
      that uses the first one up: what the assertions on the buffers demand. */
  predicate Removable(s: seq<Unit>, bytes: nat)
  {
    var h := HeaderOf(s);
    && 0 < h.total <= |s| && |h.bufs| >= 1 && bytes <= h.bufs[0].size
    && (bytes < h.bufs[0].size ==> forall i :: 0 <= i < |h.bufs| ==> bytes <= h.bufs[i].size)
  }

  /** What buffer c loses when `bytes` bytes leave the first one: everything, when the block goes */
  function Lost(h: Header, bytes: nat, c: nat): nat
    requires c < |h.bufs|
  {
    if bytes == h.bufs[0].size then h.bufs[c].size else bytes
  }

  /** The chain after `bytes` bytes per channel left its first block: the block is shortened at the
      front, or goes altogether. */
  function Shortened(s: seq<Unit>, frames: nat, bytes: nat): seq<Unit>
    requires s != [] ==> Removable(s, bytes)
  {
    var h := HeaderOf(s);
    if s == [] then []
    else if bytes == h.bufs[0].size then s[h.total..]
    else s[0 := Start(Header(Later(h.stamp, frames), h.total, Advance(h.bufs, bytes)))]
  }

  lemma {:induction false} AdvanceInOrder(bufs: seq<Buf>, from: nat, to: nat, bytes: nat)
    requires InOrder(bufs, from, to) && forall i :: 0 <= i < |bufs| ==> bytes <= bufs[i].size
    ensures InOrder(Advance(bufs, bytes), from, to)
    decreases |bufs|
  {
    if bufs != [] {
      assert Advance(bufs, bytes)[1..] == Advance(bufs[1..], bytes);
      AdvanceInOrder(bufs[1..], bufs[0].data + bufs[0].size, to, bytes);
    }
  }

  /** The first block with `bytes` bytes taken off the front of each buffer */
  lemma ShorterBlock(b: seq<Unit>, at: nat, stamp: Stamp, bytes: nat)
    requires Block(b, at) && forall i :: 0 <= i < |b[0].h.bufs| ==> bytes <= b[0].h.bufs[i].size
    ensures Block(b[0 := Start(Header(stamp, b[0].h.total, Advance(b[0].h.bufs, bytes)))], at)
  {
    hide InOrder, Advance, HeaderSize;
    var h := b[0].h;
    AdvanceInOrder(h.bufs, at + HeaderSize(|h.bufs|), at + h.total, bytes);
  }

  lemma PayloadTail(b: seq<Unit>, at: nat, x: Buf, bytes: nat, first: Unit)
    requires at < x.data && x.data - at + x.size <= |b| && bytes <= x.size
    ensures Payload(b[0 := first], at, Buf(x.data + bytes, x.size - bytes)) == Payload(b, at, x)[bytes..]
  {
    var i, j := x.data - at, x.data - at + x.size;
    assert b[0 := first][i + bytes..j] == b[i..j][bytes..];
  }

  lemma ShorterChannel(b: seq<Unit>, at: nat, stamp: Stamp, bytes: nat, c: nat)
    requires Block(b, at) && c < |b[0].h.bufs| && forall i :: 0 <= i < |b[0].h.bufs| ==> bytes <= b[0].h.bufs[i].size
    ensures var h := b[0].h;
            && |Channel(b, at, c)| == h.bufs[c].size
            && Channel(b[0 := Start(Header(stamp, h.total, Advance(h.bufs, bytes)))], at, c)
                == Channel(b, at, c)[bytes..]
  {
    hide InOrder, HeaderSize, Payload;
    var h := b[0].h;
    InOrderBounds(h.bufs, at + HeaderSize(|h.bufs|), at + h.total, c);
    PayloadLength(b, at, h.bufs[c]);
    PayloadTail(b, at, h.bufs[c], bytes, Start(Header(stamp, h.total, Advance(h.bufs, bytes))));
  }

  lemma PayloadLength(b: seq<Unit>, at: nat, x: Buf)
    requires at <= x.data && x.data - at + x.size <= |b|
    ensures |Payload(b, at, x)| == x.size
  {
  }

  lemma UpdateSplits<T>(s: seq<T>, v: T, t: nat)
    requires 0 < t <= |s|
    ensures s[0 := v][..t] == s[..t][0 := v] && s[0 := v][t..] == s[t..]
  {
  }

  /** Shortening keeps the chain, and every channel of the queue loses its first bytes: those of its buffer
      when the first buffer is used up, as many as the first buffer otherwise. */
  lemma ShortenedChannels(s: seq<Unit>, at: nat, n: nat, frames: nat, bytes: nat, c: nat)
    requires n > 0 && s != [] && Chain(s, at, n) && Removable(s, bytes) && c < |HeaderOf(s).bufs|
    ensures var h := HeaderOf(s);
            var s', at' := Shortened(s, frames, bytes), if bytes == h.bufs[0].size then Cell(at + h.total, n) else at;
            && Chain(s', at', n) && Lost(h, bytes, c) <= |Queue(s, at, n, c)|
            && Queue(s', at', n, c) == Queue(s, at, n, c)[Lost(h, bytes, c)..]
  {
    hide Chain, Queue, Block, Channel, Cell, Advance;
    var h := HeaderOf(s);
    var t := h.total;
    ChainStep(s, at, n);
    QueueStep(s, at, n, c);
    FrontBlock(s, at);
    ShorterChannel(s[..t], at, Later(h.stamp, frames), 0, c);
    if bytes != h.bufs[0].size {
      ShorterChannel(s[..t], at, Later(h.stamp, frames), bytes, c);
      var first := Start(Header(Later(h.stamp, frames), t, Advance(h.bufs, bytes)));
      UpdateSplits(s, first, t);
      ShorterBlock(s[..t], at, Later(h.stamp, frames), bytes);
      ChainStep(s[0 := first], at, n);
      QueueStep(s[0 := first], at, n, c);
    }
  }

  /** With buffers of equal sizes every channel loses as much. */
  lemma ShortenedQueue(s: seq<Unit>, at: nat, n: nat, frames: nat, bytes: nat, c: nat)
    requires n > 0 && s != [] && Chain(s, at, n) && EqualSizes(HeaderOf(s)) && |HeaderOf(s).bufs| >= 1
    requires 0 < HeaderOf(s).total <= |s| && bytes <= HeaderOf(s).bufs[0].size && c < |HeaderOf(s).bufs|
    ensures Removable(s, bytes)
    ensures var h := HeaderOf(s);
            var s', at' := Shortened(s, frames, bytes), if bytes == h.bufs[0].size then Cell(at + h.total, n) else at;
            && Chain(s', at', n) && bytes <= |Queue(s, at, n, c)|
            && Queue(s', at', n, c) == Queue(s, at, n, c)[bytes..]
  {
    hide Chain, Queue, Cell, Shortened;
    ShortenedChannels(s, at, n, frames, bytes, c);
  }

  lemma FrontBlock(s: seq<Unit>, at: nat)
    requires s != [] && 0 < HeaderOf(s).total <= |s| && Block(s[..HeaderOf(s).total], at)
    ensures s[0] == Start(HeaderOf(s)) && s[..HeaderOf(s).total][0] == s[0]
    ensures |HeaderOf(s).bufs| >= 1 && HeaderOf(s).total % 16 == 0
  {
    hide InOrder, HeaderSize;
  }

  /** The header at the front of a non-empty queue */
  lemma Front(buffer: CircularBuffer<Unit>)
    requires Queued(buffer) && buffer.Contents() != []
    ensures var s := buffer.Contents();
            && s[0] == Start(HeaderOf(s)) && |HeaderOf(s).bufs| >= 1
            && 0 < HeaderOf(s).total <= |s| && HeaderOf(s).total % 16 == 0
  {
    hide Chain, Window, Cell, Block;
    ChainStep(buffer.Contents(), buffer.tail, buffer.mem.Length);
    FrontBlock(buffer.Contents(), buffer.tail);
  }

  /** The chain behind the first block */
  lemma BehindFirst(s: seq<Unit>, at: nat, n: nat)
    requires n > 0 && s != [] && Chain(s, at, n)
    ensures var t := HeaderOf(s).total;
            && s[0] == Start(HeaderOf(s)) && 0 < t <= |s| && t % 16 == 0 && Chain(s[t..], Cell(at + t, n), n)
  {
    hide Chain, Cell, Block;
    ChainStep(s, at, n);
    FrontBlock(s, at);
  }

  // ---- consuming ----

  /** TPCircularBufferConsumeNextBufferList */
  method ConsumeNext(buffer: CircularBuffer<Unit>)
    requires Queued(buffer)
    modifies buffer`tail, buffer`fillCount
    ensures Queued(buffer)
    ensures old(buffer.Contents()) == [] ==> buffer.Contents() == [] && buffer.tail == old(buffer.tail)
    ensures old(buffer.Contents()) != [] ==>
      var t := HeaderOf(old(buffer.Contents())).total;
      && t <= |old(buffer.Contents())| && buffer.Contents() == old(buffer.Contents())[t..]
      && buffer.tail == Cell(old(buffer.tail) + t, buffer.mem.Length)
    ensures old(buffer.Free()) <= buffer.Free()
  {
    hide Chain, Window, Cell, Block, HeaderOf;
    var p, _ := buffer.Tail();
    if p.None? {
      return;
    }
    BehindFirst(buffer.Contents(), buffer.tail, buffer.mem.Length);
    var block := buffer.Load(0);
    AlignedSum(buffer.tail, block.h.total);
    CellAligned(buffer.tail + block.h.total, buffer.mem.Length);
    buffer.Consume(block.h.total);
  }

  /** No buffer of a block reaches past its end, nor does any part of it. */
  lemma InsideBlock(s: seq<Unit>, at: nat, n: nat, i: nat)
    requires n > 0 && s != [] && Chain(s, at, n) && i < |HeaderOf(s).bufs|
    ensures HeaderOf(s).bufs[i].data + HeaderOf(s).bufs[i].size <= at + HeaderOf(s).total
  {
    hide Chain, Cell, HeaderSize, InOrder;
    ChainStep(s, at, n);
    FrontBlock(s, at);
    var h := HeaderOf(s);
    InOrderBounds(h.bufs, at + HeaderSize(|h.bufs|), at + h.total, i);
  }

  /** min */
  function Min(a: nat, b: nat): nat { if a > b then b else a }

  /** The assertion on the buffers: unless `bytes` bytes use up the first one, every buffer has as many. */
  predicate GivesEnough(s: seq<Unit>, bytes: nat)
  {
    var h := HeaderOf(s);
    |h.bufs| >= 1 && bytes < h.bufs[0].size ==> forall i :: 0 <= i < |h.bufs| ==> bytes <= h.bufs[i].size
  }

  /** TPCircularBufferConsumeNextBufferListPartial. A product of 2^32 and more wraps, so that fewer bytes
      go than the frames make up. */
  method ConsumePartial(buffer: CircularBuffer<Unit>, frames: nat, bytesPerFrame: nat)
    requires Queued(buffer)
    requires buffer.Contents() != [] ==> GivesEnough(buffer.Contents(), Product(frames, bytesPerFrame))
    modifies buffer`tail, buffer`fillCount, buffer.mem
    ensures Queued(buffer)
    ensures old(buffer.Contents()) == [] ==> buffer.Contents() == [] && buffer.tail == old(buffer.tail)
    ensures old(buffer.Contents()) != [] ==>
      var s := old(buffer.Contents());
      |HeaderOf(s).bufs| >= 1 &&
      var bytes := Min(Product(frames, bytesPerFrame), HeaderOf(s).bufs[0].size);
      && Removable(s, bytes) && buffer.Contents() == Shortened(s, frames, bytes)
      && buffer.tail == (if bytes == HeaderOf(s).bufs[0].size
                         then Cell(old(buffer.tail) + HeaderOf(s).total, buffer.mem.Length)
                         else old(buffer.tail))
    ensures old(buffer.Free()) <= buffer.Free()
  {
    hide Chain, Window, Cell, Block, Queue, Product;
    var p, _ := buffer.Tail();
    if p.None? {
      return;
    }
    Front(buffer);
    ghost var s := buffer.Contents();
    var first := buffer.Load(0);
    var h := first.h;
    assert p.value % 16 == 0;
    var bytesToConsume := Min(Product(frames, bytesPerFrame), h.bufs[0].size);
    ShortenedChannels(s, buffer.tail, buffer.mem.Length, frames, bytesToConsume, 0);
    if bytesToConsume == h.bufs[0].size {
      ConsumeNext(buffer);
      return;
    }
    var bufs := AdvanceBuffers(h, bytesToConsume, p.value, s, buffer.mem.Length);
    buffer.StoreFirst(Start(Header(Later(h.stamp, frames), h.total, bufs)));
  }

  predicate Ready(s: seq<Unit>)
  {
    s != [] ==> 0 < HeaderOf(s).total <= |s| && |HeaderOf(s).bufs| >= 1 && EqualSizes(HeaderOf(s))
  }

  lemma EqualBuffersGive(s: seq<Unit>, bytes: nat)
    requires Ready(s)
    ensures s != [] ==> GivesEnough(s, bytes) && (bytes <= HeaderOf(s).bufs[0].size ==> Removable(s, bytes))
  {
  }

  /** The loop of ConsumePartial over the block's buffers, with its assertions */
  method AdvanceBuffers(h: Header, bytes: nat, at: nat, ghost s: seq<Unit>, ghost n: nat) returns (bufs: seq<Buf>)
    requires n > 0 && s != [] && Chain(s, at, n) && h == HeaderOf(s)
    requires forall i :: 0 <= i < |h.bufs| ==> bytes <= h.bufs[i].size
    ensures bufs == Advance(h.bufs, bytes)
  {
    hide Chain, HeaderOf;
    bufs := h.bufs;
    for i := 0 to |h.bufs|
      invariant |bufs| == |h.bufs|
      invariant forall k :: 0 <= k < |bufs| ==> bufs[k] == if k < i then Advance(h.bufs, bytes)[k] else h.bufs[k]
    {
      InsideBlock(s, at, n, i);
      assert bytes <= bufs[i].size && bufs[i].data + bytes <= at + h.total;
      bufs := bufs[i := Buf(bufs[i].data + bytes, bufs[i].size - bytes)];
    }
  }

  // ---- whole frames ----

  /** Every block carries at least `channels` buffers, all of the same whole number of frames. */
  predicate Uniform(s: seq<Unit>, channels: nat, bytesPerFrame: nat)
    requires bytesPerFrame > 0
    decreases |s|
  {
    var h := HeaderOf(s);
    s != [] ==>
      && 0 < h.total <= |s| && |h.bufs| >= 1 && channels <= |h.bufs| && EqualSizes(h)
      && h.bufs[0].size % bytesPerFrame == 0 && Uniform(s[h.total..], channels, bytesPerFrame)
  }

  lemma UniformStep(s: seq<Unit>, channels: nat, bpf: nat)
    requires bpf > 0 && s != []
    ensures var h := HeaderOf(s);
            Uniform(s, channels, bpf) <==>
              && 0 < h.total <= |s| && |h.bufs| >= 1 && channels <= |h.bufs| && EqualSizes(h)
              && h.bufs[0].size % bpf == 0 && Uniform(s[h.total..], channels, bpf)
  {
    hide EqualSizes;
  }

  lemma FrontUniform(s: seq<Unit>, channels: nat, bpf: nat)
    requires bpf > 0 && s != [] && Uniform(s, channels, bpf)
    ensures Ready(s) && channels <= |HeaderOf(s).bufs|
    ensures Whole(HeaderOf(s).bufs[0].size, bpf) == HeaderOf(s).bufs[0].size
    ensures EqualSizes(HeaderOf(s))
  {
    hide Uniform, EqualSizes;
    UniformStep(s, channels, bpf);
  }

  lemma UniformShortened(s: seq<Unit>, channels: nat, bpf: nat, frames: nat, bytes: nat)
    requires bpf > 0 && s != [] && Ready(s) && bytes <= HeaderOf(s).bufs[0].size
    requires Uniform(s, channels, bpf) && bytes % bpf == 0
    ensures Uniform(Shortened(s, frames, bytes), channels, bpf)
  {
    hide Uniform;
    var h := HeaderOf(s);
    UniformStep(s, channels, bpf);
    if bytes != h.bufs[0].size {
      var s' := Shortened(s, frames, bytes);
      UpdateSplits(s, s'[0], h.total);
      MultipleDifference(h.bufs[0].size, bytes, bpf);
      UniformStep(s', channels, bpf);
    }
  }

  /** All channels hold the same whole number of frames. */
  lemma {:induction false} QueueLengths(s: seq<Unit>, at: nat, n: nat, channels: nat, bpf: nat, c: nat)
    requires n > 0 && bpf > 0 && Chain(s, at, n) && Uniform(s, channels, bpf) && (c < channels || c == 0)
    ensures |Queue(s, at, n, c)| == |Queue(s, at, n, 0)|
    ensures |Queue(s, at, n, c)| % bpf == 0
    decreases |s|
  {
    hide Chain, Uniform, Queue, Channel, Cell, Block;
    if s == [] {
      EmptyChain(at, n, c);
      EmptyChain(at, n, 0);
      DivExact(0, bpf, 0);
    } else {
      var h := HeaderOf(s);
      UniformStep(s, channels, bpf);
      ChainStep(s, at, n);
      QueueStep(s, at, n, c);
      QueueStep(s, at, n, 0);
      FrontBlock(s, at);
      ShorterChannel(s[..h.total], at, h.stamp, 0, c);
      ShorterChannel(s[..h.total], at, h.stamp, 0, 0);
      QueueLengths(s[h.total..], Cell(at + h.total, n), n, channels, bpf, c);
      QueueLengths(s[h.total..], Cell(at + h.total, n), n, channels, bpf, 0);
      MultipleSum(h.bufs[0].size, |Queue(s[h.total..], Cell(at + h.total, n), n, c)|, bpf);
    }
  }

  lemma MultipleSum(x: nat, y: nat, b: nat)
    requires b > 0 && x % b == 0 && y % b == 0
    ensures (x + y) % b == 0
  {
    DivSplit(x, b);
    DivSplit(y, b);
    MulDistributes(x / b, y / b, b);
    DivExact(x + y, b, x / b + y / b);
  }

  /** Copying whole frames on enough channels keeps the queue uniform. */
  lemma {:induction false} CopyStaysUniform(s: seq<Unit>, block: seq<Unit>, n: nat, bytes: nat, channels: nat, bpf: nat)
    requires bpf > 0 && Uniform(s, channels, bpf) && Carrying(block, n, bytes)
    requires n >= 1 && channels <= n && bytes % bpf == 0
    ensures Uniform(s + block, channels, bpf)
    decreases |s|
  {
    hide Uniform;
    if s == [] {
      assert s + block == block;
      assert block[|block|..] == [];
      NoBlocks(channels, bpf);
      UniformStep(block, channels, bpf);
    } else {
      var t := HeaderOf(s).total;
      UniformStep(s, channels, bpf);
      AppendSplits(s, block, t);
      CopyStaysUniform(s[t..], block, n, bytes, channels, bpf);
      UniformStep(s + block, channels, bpf);
    }
  }

  lemma NoBlocks(channels: nat, bpf: nat)
    requires bpf > 0
    ensures Uniform([], channels, bpf)
  {
  }

  // ---- dequeuing frames ----

  /** Every channel has given its first `copied` bytes to `out` and lost its first `consumed` bytes. */
  ghost predicate Moved(s0: seq<Unit>, at0: nat, s: seq<Unit>, at: nat, n: nat, channels: nat, out: seq<seq<Byte>>,
                        copied: nat, consumed: nat)
    requires n > 0
  {
    && |out| == channels && consumed <= copied
    && (forall c: nat :: c < channels || c == 0 ==>
          && copied <= |Queue(s0, at0, n, c)|
          && Queue(s, at, n, c) == Queue(s0, at0, n, c)[consumed..])
    && (forall c: nat :: c < channels ==> copied <= |Queue(s0, at0, n, c)| && out[c] == Queue(s0, at0, n, c)[..copied])
  }

  /** memcpy of len bytes from the address of a queued buffer */
  method CopyOut(buffer: CircularBuffer<Unit>, off: nat, len: nat) returns (b: seq<Byte>)
    requires buffer.Valid() && off + len <= buffer.fillCount
    ensures b == Bytes(buffer.Contents()[off..off + len])
  {
    hide Window, Cell;
    b := [];
    for k := 0 to len
      invariant b == Bytes(buffer.Contents()[off..off + k])
    {
      var u := buffer.Load(off + k);
      OneMoreByte(buffer.Contents(), off, k);
      b := b + [ByteOf(u)];
    }
  }

  lemma OneMoreByte(s: seq<Unit>, off: nat, k: nat)
    requires off + k < |s|
    ensures Bytes(s[off..off + k + 1]) == Bytes(s[off..off + k]) + [ByteOf(s[off + k])]
  {
    assert s[off..off + k + 1] == s[off..off + k] + [s[off + k]];
  }

  /** The first bytes of a channel are those at mData of the first block's buffer. */
  lemma FrontBytes(s: seq<Unit>, at: nat, n: nat, c: nat, bytes: nat)
    requires n > 0 && s != [] && Chain(s, at, n) && c < |HeaderOf(s).bufs| && bytes <= HeaderOf(s).bufs[c].size
    ensures var off := HeaderOf(s).bufs[c].data - at;
            && 0 <= off && off + bytes <= HeaderOf(s).total <= |s| && bytes <= |Queue(s, at, n, c)|
            && Queue(s, at, n, c)[..bytes] == Bytes(s[off..off + bytes])
  {
    hide Chain, Queue, Cell, HeaderSize, InOrder, Bytes;
    var h := HeaderOf(s);
    ChainStep(s, at, n);
    QueueStep(s, at, n, c);
    FrontBlock(s, at);
    InOrderBounds(h.bufs, at + HeaderSize(|h.bufs|), at + h.total, c);
    BytesPrefix(s, h.total, h.bufs[c].data - at, h.bufs[c].size, bytes);
  }

  lemma BytesPrefix(s: seq<Unit>, t: nat, off: nat, size: nat, bytes: nat)
    requires off + size <= t <= |s| && bytes <= size
    ensures Bytes(s[..t][off..off + size])[..bytes] == Bytes(s[off..off + bytes])
  {
    assert s[..t][off..off + size] == s[off..off + size];
    assert s[off..off + bytes] == s[off..off + size][..bytes];
  }

  /** Every output got the first bytes of its channel. */
  ghost predicate Copied(s: seq<Unit>, at: nat, n: nat, out: seq<seq<Byte>>, out': seq<seq<Byte>>, bytes: nat)
    requires n > 0
  {
    && |out'| == |out|
    && forall c: nat :: c < |out| ==>
         bytes <= |Queue(s, at, n, c)| && out'[c] == out[c] + Queue(s, at, n, c)[..bytes]
  }

  /** The copying loop of one round of Dequeue, with its assertions */
  method CopyRound(buffer: CircularBuffer<Unit>, h: Header, room: seq<nat>, out: seq<seq<Byte>>, copied: nat,
                   bytes: nat)
    returns (out': seq<seq<Byte>>)
    requires Queued(buffer) && buffer.Contents() != [] && h == HeaderOf(buffer.Contents())
    requires |out| == |room| <= |h.bufs| && EqualSizes(h) && |h.bufs| >= 1 && bytes <= h.bufs[0].size
    requires RoomFor(room, copied + bytes)
    ensures Copied(buffer.Contents(), buffer.tail, buffer.mem.Length, out, out', bytes)
  {
    hide Chain, Window, Cell, Queue, HeaderOf, Bytes;
    ghost var s, at, n := buffer.Contents(), buffer.tail, buffer.mem.Length;
    out' := out;
    for i := 0 to |out|
      invariant |out'| == |out|
      invariant forall c: nat :: c < i ==>
        bytes <= |Queue(s, at, n, c)| && out'[c] == out[c] + Queue(s, at, n, c)[..bytes]
      invariant forall c: nat :: i <= c < |out| ==> out'[c] == out[c]
    {
      assert copied + bytes <= room[i];
      FrontBytes(buffer.Contents(), buffer.tail, buffer.mem.Length, i, bytes);
      assert h.bufs[i].data + bytes <= buffer.tail + 72 + h.total;
      var b := CopyOut(buffer, h.bufs[i].data - buffer.tail, bytes);
      out' := out'[i := out'[i] + b];
    }
  }

  /** A round copies `bytes` bytes of the first block and then consumes `whole` of them. */
  lemma MovedMore(s0: seq<Unit>, at0: nat, s: seq<Unit>, at: nat, n: nat, channels: nat,
                  out: seq<seq<Byte>>, out': seq<seq<Byte>>, copied: nat, frames: nat, bytes: nat, whole: nat, at': nat)
    requires n > 0 && Moved(s0, at0, s, at, n, channels, out, copied, copied)
    requires s != [] && Chain(s, at, n) && Ready(s) && channels <= |HeaderOf(s).bufs|
        && whole <= bytes <= HeaderOf(s).bufs[0].size
    requires at' == if whole == HeaderOf(s).bufs[0].size then Cell(at + HeaderOf(s).total, n) else at
    requires Copied(s, at, n, out, out', bytes) && EqualSizes(HeaderOf(s))
    ensures Moved(s0, at0, Shortened(s, frames, whole), at', n, channels, out', copied + bytes, copied + whole)
  {
    hide Chain, Queue, Cell, HeaderOf, EqualSizes, Shortened;
    FirstSizes(s, at, n, channels);
    EqualBuffersGive(s, whole);
    forall c: nat | c < channels || c == 0
      ensures copied + bytes <= |Queue(s0, at0, n, c)|
      ensures Queue(Shortened(s, frames, whole), at', n, c) == Queue(s0, at0, n, c)[copied + whole..]
    {
      ShortenedQueue(s, at, n, frames, whole, c);
      DropTwice(Queue(s0, at0, n, c), copied, whole);
    }
    forall c: nat | c < channels
      ensures out'[c] == Queue(s0, at0, n, c)[..copied + bytes]
    {
      DropTwice(Queue(s0, at0, n, c), copied, bytes);
    }
  }

  lemma DropTwice<T>(q: seq<T>, a: nat, b: nat)
    requires a <= |q|
    ensures a + b <= |q| ==> q[a..][b..] == q[a + b..] && q[..a] + q[a..][..b] == q[..a + b]
  {
  }

  /** The first block holds no more than what channel 0 does. */
  lemma FirstSize(s: seq<Unit>, at: nat, n: nat, c: nat)
    requires n > 0 && s != [] && Chain(s, at, n) && EqualSizes(HeaderOf(s)) && c < |HeaderOf(s).bufs|
    ensures HeaderOf(s).bufs[0].size <= |Queue(s, at, n, c)| && HeaderOf(s).bufs[0].size <= |s|
  {
    hide Chain, Queue;
    FrontBytes(s, at, n, c, HeaderOf(s).bufs[c].size);
    FrontBytes(s, at, n, 0, HeaderOf(s).bufs[0].size);
  }

  lemma WholeFrames(x: nat, b: nat)
    requires b > 0 && x < U32
    ensures Product(x / b, b) == Whole(x, b)
  {
    DivSplit(x, b);
    SmallProduct(x / b, b);
  }

  lemma WholeShift(x: nat, y: nat, b: nat)
    requires b > 0 && Whole(x, b) == x
    ensures Whole(x + y, b) == x + Whole(y, b)
  {
    DivSplit(x, b);
    DivSplit(y, b);
    MulDistributes(x / b, y / b, b);
    DivSplit(x + y, b);
    Remainder(b, (x + y) / b, (x + y) % b, x / b + y / b, y % b);
  }

  lemma NoFrames(b: nat)
    requires b > 0
    ensures Whole(0, b) == 0
  {
  }

  lemma Remainder(b: nat, q: nat, m: nat, q': nat, m': nat)
    requires m < b && m' < b && q * b + m == q' * b + m'
    ensures q == q' && m == m'
  {
    MulGap(b, q, q');
    MulGap(b, q', q);
  }

  /** The whole frames in x bytes */
  function Whole(x: nat, b: nat): (r: nat)
    requires b > 0
    ensures r <= x
  {
    x - x % b
  }

  // ---- what draws leave of the blocks ----

  /** Of a queued block: its length in the ring, the audio bytes on each channel, its stamp */
  datatype Extent = Extent(total: nat, size: nat, stamp: Stamp)

  function ExtentOf(h: Header): Extent
  {
    Extent(h.total, if h.bufs == [] then 0 else h.bufs[0].size, h.stamp)
  }

  function Extents(s: seq<Unit>): seq<Extent>
    decreases |s|
  {
    var t := HeaderOf(s).total;
    if s == [] || t == 0 || t > |s| then [] else [ExtentOf(HeaderOf(s))] + Extents(s[t..])
  }

  /** Consuming from the first block: all it has, or less, with the stamp moved on */
  function Consumed(blocks: seq<Extent>, frames: nat, bytes: nat): seq<Extent>
  {
    if blocks == [] || bytes >= blocks[0].size then if blocks == [] then [] else blocks[1..]
    else [Extent(blocks[0].total, blocks[0].size - bytes, Later(blocks[0].stamp, frames))] + blocks[1..]
  }

  /** Drawing `wanted` bytes per channel: blocks go as they are used up, and the last one keeps what is left
      behind its whole frames. */
  function Draw(blocks: seq<Extent>, wanted: nat, bpf: nat): seq<Extent>
    requires bpf > 0
    decreases |blocks|
  {
    if wanted == 0 || blocks == [] then blocks
    else if wanted >= blocks[0].size then Draw(blocks[1..], wanted - blocks[0].size, bpf)
    else Consumed(blocks, FramesIn(wanted, bpf), Whole(wanted, bpf))
  }

  lemma ExtentsStep(s: seq<Unit>)
    requires s != [] && 0 < HeaderOf(s).total <= |s|
    ensures Extents(s) == [ExtentOf(HeaderOf(s))] + Extents(s[HeaderOf(s).total..])
  {
  }

  lemma FirstExtent(s: seq<Unit>)
    requires s != [] && Ready(s)
    ensures Extents(s) != [] && Extents(s)[0].size == HeaderOf(s).bufs[0].size
  {
    hide EqualSizes;
  }

  lemma ShortenedExtents(s: seq<Unit>, frames: nat, bytes: nat)
    requires s != [] && Removable(s, bytes)
    ensures Extents(Shortened(s, frames, bytes)) == Consumed(Extents(s), frames, bytes)
  {
    var h := HeaderOf(s);
    ExtentsStep(s);
    if bytes != h.bufs[0].size {
      var s' := Shortened(s, frames, bytes);
      UpdateSplits(s, s'[0], h.total);
      ExtentsStep(s');
    }
  }

  /** One round of a draw: as many bytes as the first block has, or as are still wanted */
  lemma DrawRound(blocks: seq<Extent>, toGo: nat, bpf: nat)
    requires bpf > 0 && blocks != [] && toGo > 0 && Whole(blocks[0].size, bpf) == blocks[0].size
    ensures var bytes := Min(toGo, blocks[0].size);
            Draw(blocks, toGo, bpf)
              == Draw(Consumed(blocks, FramesIn(bytes, bpf), Whole(bytes, bpf)), toGo - bytes, bpf)
  {
    hide Whole, FramesIn;
    WholeBelow(Min(toGo, blocks[0].size), blocks[0].size, bpf);
  }

  lemma WholeBelow(bytes: nat, size: nat, b: nat)
    requires b > 0 && bytes <= size
    ensures Whole(bytes, b) <= bytes && (bytes < size ==> Whole(bytes, b) < size)
  {
  }

  function FramesIn(bytes: nat, bytesPerFrame: nat): nat
    requires bytesPerFrame > 0
  {
    bytes / bytesPerFrame
  }

  /** The consuming half of a round: the whole frames among the copied bytes go. */
  method ConsumeCopied(buffer: CircularBuffer<Unit>, bytes: nat, bytesPerFrame: nat, ghost channels: nat)
    requires Queued(buffer) && bytesPerFrame > 0 && Uniform(buffer.Contents(), channels, bytesPerFrame)
    requires buffer.Contents() != [] && Ready(buffer.Contents())
    requires bytes <= HeaderOf(buffer.Contents()).bufs[0].size < U32
    modifies buffer`tail, buffer`fillCount, buffer.mem
    ensures Queued(buffer) && Uniform(buffer.Contents(), channels, bytesPerFrame)
    ensures var s := old(buffer.Contents());
            var whole := Whole(bytes, bytesPerFrame);
            && buffer.Contents() == Shortened(s, FramesIn(bytes, bytesPerFrame), whole)
            && Extents(buffer.Contents()) == Consumed(Extents(s), FramesIn(bytes, bytesPerFrame), whole)
            && buffer.tail == (if whole == HeaderOf(s).bufs[0].size
                               then Cell(old(buffer.tail) + HeaderOf(s).total, buffer.mem.Length)
                               else old(buffer.tail))
    ensures buffer.fillCount <= old(buffer.fillCount)
    ensures bytes == old(HeaderOf(buffer.Contents())).bufs[0].size == 0 ==> buffer.fillCount < old(buffer.fillCount)
    ensures old(buffer.Free()) <= buffer.Free()
  {
    hide Chain, Window, Cell, Queue, HeaderOf, Uniform, EqualSizes, Shortened, Product, Whole, Extents, Consumed,
         Removable, GivesEnough;
    ghost var s := buffer.Contents();
    ghost var whole := Whole(bytes, bytesPerFrame);
    WholeFrames(bytes, bytesPerFrame);
    WholeIsWhole(bytes, bytesPerFrame);
    UniformShortened(s, channels, bytesPerFrame, bytes / bytesPerFrame, whole);
    ShortenedShrinks(s, bytes / bytesPerFrame, whole);
    EqualBuffersGive(s, Product(bytes / bytesPerFrame, bytesPerFrame));
    EqualBuffersGive(s, whole);
    ShortenedExtents(s, bytes / bytesPerFrame, whole);
    ConsumePartial(buffer, bytes / bytesPerFrame, bytesPerFrame);
  }

  /** One round: the first block gives up as many bytes as it has and are still wanted; of those, the whole
      frames are consumed. */
  method DequeueRound(buffer: CircularBuffer<Unit>, room: seq<nat>, bytesPerFrame: nat, out: seq<seq<Byte>>,
                      copied: nat, toGo: nat, ghost s0: seq<Unit>, ghost at0: nat)
    returns (out': seq<seq<Byte>>, bytes: nat)
    requires Queued(buffer) && bytesPerFrame > 0 && Uniform(buffer.Contents(), |room|, bytesPerFrame)
    requires buffer.Contents() != [] && toGo > 0 && RoomFor(room, copied + Min(toGo, |Audio(buffer, 0)|))
    requires Moved(s0, at0, buffer.Contents(), buffer.tail, buffer.mem.Length, |room|, out, copied, copied)
    modifies buffer`tail, buffer`fillCount, buffer.mem
    ensures Queued(buffer) && Uniform(buffer.Contents(), |room|, bytesPerFrame)
    ensures bytes == toGo || (bytes < toGo && Whole(bytes, bytesPerFrame) == bytes)
    ensures Moved(s0, at0, buffer.Contents(), buffer.tail, buffer.mem.Length, |room|, out', copied + bytes,
                  copied + Whole(bytes, bytesPerFrame))
    ensures bytes <= toGo && Draw(Extents(old(buffer.Contents())), toGo, bytesPerFrame)
      == Draw(Extents(buffer.Contents()), toGo - bytes, bytesPerFrame)
    ensures buffer.fillCount <= old(buffer.fillCount) && (bytes == 0 ==> buffer.fillCount < old(buffer.fillCount))
    ensures old(buffer.Free()) <= buffer.Free()
  {
    hide Chain, Window, Cell, Queue, HeaderOf, Uniform, EqualSizes, Shortened, Moved, Product, Whole, RoomFor, Copied,
         FramesIn, Extents, Consumed, Draw, Removable;
    ghost var s, at := buffer.Contents(), buffer.tail;
    Front(buffer);
    FrontUniform(s, |room|, bytesPerFrame);
    FirstSize(s, at, buffer.mem.Length, 0);
    var first := buffer.Load(0);
    var h := first.h;
    bytes := Min(toGo, h.bufs[0].size);
    MovedShape(s0, at0, s, at, buffer.mem.Length, |room|, out, copied, copied);
    RoomForLess(room, copied + bytes, copied + Min(toGo, |Audio(buffer, 0)|));
    out' := CopyRound(buffer, h, room, out, copied, bytes);
    WholeOfBlock(bytes, h.bufs[0].size, bytesPerFrame);
    FirstExtent(s);
    DrawRound(Extents(s), toGo, bytesPerFrame);
    ConsumeCopied(buffer, bytes, bytesPerFrame, |room|);
    MovedMore(s0, at0, s, at, buffer.mem.Length, |room|, out, out', copied, FramesIn(bytes, bytesPerFrame),
              bytes, Whole(bytes, bytesPerFrame), buffer.tail);
  }

  lemma WholeOfBlock(bytes: nat, size: nat, b: nat)
    requires b > 0 && Whole(size, b) == size && bytes <= size
    ensures Whole(bytes, b) <= size && (bytes == size ==> Whole(bytes, b) == bytes)
  {
  }

  lemma RoomForLess(room: seq<nat>, x: nat, y: nat)
    requires RoomFor(room, y) && x <= y
    ensures RoomFor(room, x)
  {
  }

  lemma FirstSizes(s: seq<Unit>, at: nat, n: nat, channels: nat)
    requires n > 0 && s != [] && Chain(s, at, n) && EqualSizes(HeaderOf(s)) && channels <= |HeaderOf(s).bufs|
    requires |HeaderOf(s).bufs| >= 1
    ensures HeaderOf(s).bufs[0].size <= |s|
    ensures forall c: nat :: c < channels || c == 0 ==> HeaderOf(s).bufs[0].size <= |Queue(s, at, n, c)|
  {
    hide Chain, Queue, HeaderOf, EqualSizes;
    forall c: nat | c < channels || c == 0
      ensures HeaderOf(s).bufs[0].size <= |Queue(s, at, n, c)| && HeaderOf(s).bufs[0].size <= |s|
    {
      FirstSize(s, at, n, c);
    }
    FirstSize(s, at, n, 0);
  }

  lemma WholeIsWhole(x: nat, b: nat)
    requires b > 0
    ensures Whole(x, b) % b == 0
  {
    DivSplit(x, b);
    DivExact(x - x % b, b, x / b);
  }

  /** The loop of Dequeue over blocks, until `total` bytes per channel are out or the ring is empty */
  method DequeueLoop(buffer: CircularBuffer<Unit>, total: nat, room: seq<nat>, bytesPerFrame: nat)
    returns (copied: nat, out: seq<seq<Byte>>, stamp: Option<Stamp>)
    requires Queued(buffer) && bytesPerFrame > 0 && Uniform(buffer.Contents(), |room|, bytesPerFrame)
    requires RoomFor(room, Min(total, |Audio(buffer, 0)|))
    modifies buffer`tail, buffer`fillCount, buffer.mem
    ensures Queued(buffer) && Uniform(buffer.Contents(), |room|, bytesPerFrame)
    ensures Moved(old(buffer.Contents()), old(buffer.tail), buffer.Contents(), buffer.tail, buffer.mem.Length,
                  |room|, out, copied, Whole(copied, bytesPerFrame))
    ensures copied == Min(total, |old(Audio(buffer, 0))|)
    ensures Extents(buffer.Contents()) == Draw(Extents(old(buffer.Contents())), total, bytesPerFrame)
    ensures stamp == if total > 0 then Some(HeaderOf(old(buffer.Contents())).stamp) else None
    ensures old(buffer.Free()) <= buffer.Free()
  {
    hide Chain, Window, Cell, Queue, HeaderOf, Moved, Uniform, Whole, RoomFor, Extents, Draw;
    ghost var s0, at0 := buffer.Contents(), buffer.tail;
    var hasTimestamp, empty := false, false;
    stamp, copied := None, 0;
    out := seq(|room|, _ => []);
    NoFrames(bytesPerFrame);
    NothingMoved(s0, at0, buffer.mem.Length, |room|, out);
    while total - copied > 0 && !empty
      invariant Queued(buffer) && Uniform(buffer.Contents(), |room|, bytesPerFrame)
      invariant copied == total || (copied < total && Whole(copied, bytesPerFrame) == copied)
      invariant Moved(s0, at0, buffer.Contents(), buffer.tail, buffer.mem.Length, |room|, out, copied,
                      Whole(copied, bytesPerFrame))
      invariant empty ==> buffer.Contents() == []
      invariant !hasTimestamp ==> buffer.Contents() == s0 && stamp == None && copied == 0 && !empty
      invariant hasTimestamp ==> total > 0 && stamp == Some(HeaderOf(s0).stamp)
      invariant old(buffer.Free()) <= buffer.Free()
      invariant Draw(Extents(s0), total, bytesPerFrame)
        == Draw(Extents(buffer.Contents()), total - copied, bytesPerFrame)
      decreases !empty, total - copied, buffer.fillCount
    {
      var list, first := NextBufferList(buffer);
      if !hasTimestamp {
        stamp := Some(first);
      }
      hasTimestamp := true;
      if list.None? {
        empty := true;
      } else {
        MovedShape(s0, at0, buffer.Contents(), buffer.tail, buffer.mem.Length, |room|, out, copied, copied);
        var bytes: nat;
        out, bytes := DequeueRound(buffer, room, bytesPerFrame, out, copied, total - copied, s0, at0);
        WholeShift(copied, bytes, bytesPerFrame);
        copied := copied + bytes;
      }
    }
    MovedShape(s0, at0, buffer.Contents(), buffer.tail, buffer.mem.Length, |room|, out, copied,
               Whole(copied, bytesPerFrame));
    EmptyChain(buffer.tail, buffer.mem.Length, 0);
    DrawnOut(buffer.Contents(), total - copied, bytesPerFrame);
  }

  lemma DrawnOut(s: seq<Unit>, toGo: nat, bpf: nat)
    requires bpf > 0 && (toGo == 0 || s == [])
    ensures Draw(Extents(s), toGo, bpf) == Extents(s)
  {
  }

  /** What Moved says about channel 0, and about the number of outputs */
  lemma MovedShape(s0: seq<Unit>, at0: nat, s: seq<Unit>, at: nat, n: nat, channels: nat, out: seq<seq<Byte>>,
                   copied: nat, consumed: nat)
    requires n > 0 && Moved(s0, at0, s, at, n, channels, out, copied, consumed)
    ensures |out| == channels && consumed <= copied <= |Queue(s0, at0, n, 0)|
    ensures |Queue(s, at, n, 0)| == |Queue(s0, at0, n, 0)| - consumed
  {
    hide Queue;
  }

  /** TPCircularBufferNextBufferList: the first block's list, and its stamp (zeros when there is none) */
  method NextBufferList(buffer: CircularBuffer<Unit>) returns (list: Option<nat>, stamp: Stamp)
    requires Queued(buffer)
    ensures list == if buffer.Contents() == [] then None else Some(buffer.tail + 72)
    ensures stamp == HeaderOf(buffer.Contents()).stamp
  {
    hide Chain, Window, Cell;
    EmptyHeader(buffer.Contents());
    var p, _ := buffer.Tail();
    if p.None? {
      return None, Stamp(false, 0);
    }
    Front(buffer);
    var first := buffer.Load(0);
    return Some(p.value + 72), first.h.stamp;
  }

  function FirstBytes(q: seq<Byte>, n: nat): seq<Byte> { q[..Min(n, |q|)] }

  function BytesAfter(q: seq<Byte>, n: nat): seq<Byte> { q[Min(n, |q|)..] }

  /** What dequeuing up to `frames` frames delivers from a channel holding q, and what it leaves */
  function Taken(q: seq<Byte>, frames: nat, bytesPerFrame: nat): seq<Byte> { FirstBytes(q, frames * bytesPerFrame) }

  function Left(q: seq<Byte>, frames: nat, bytesPerFrame: nat): seq<Byte> { BytesAfter(q, frames * bytesPerFrame) }

  /** One channel acted as a queue: its first frames are in `out`, the others are still there. */
  predicate FramesMoved(q0: seq<Byte>, q: seq<Byte>, out: seq<Byte>, frames: nat, bpf: nat)
  {
    out == Taken(q0, frames, bpf) && q == Left(q0, frames, bpf)
  }

  /** The number of frames there were to take, if that is less than was asked for */
  predicate Counted(q0: seq<Byte>, frames: nat, bpf: nat, got: nat)
    requires bpf > 0
  {
    got == Min(frames, |q0| / bpf)
  }

  /** Every channel of the ring acted as a queue of frames. */
  ghost predicate Delivered(s0: seq<Unit>, at0: nat, s: seq<Unit>, at: nat, n: nat, channels: nat, frames: nat,
                            bpf: nat,
                            got: nat, out: seq<seq<Byte>>)
    requires n > 0 && bpf > 0
  {
    && Counted(Queue(s0, at0, n, 0), frames, bpf, got)
    && Queue(s, at, n, 0) == Left(Queue(s0, at0, n, 0), frames, bpf)
    && |out| == channels
    && forall c: nat :: c < channels ==>
         FramesMoved(Queue(s0, at0, n, c), Queue(s, at, n, c), out[c], frames, bpf) && |out[c]| == got * bpf
  }

  predicate RoomFor(room: seq<nat>, bytes: nat)
  {
    forall i :: 0 <= i < |room| ==> bytes <= room[i]
  }

  /** What every call does, whatever the product of frames and bytes per frame: the product modulo 2^32 is
      what is wanted, the first bytes up to it are copied, and the whole frames among them are consumed. */
  ghost predicate Drawn(s0: seq<Unit>, at0: nat, s: seq<Unit>, at: nat, n: nat, channels: nat, frames: nat, bpf: nat,
                        got: nat, out: seq<seq<Byte>>)
    requires n > 0 && bpf > 0
  {
    var copied := Min(Product(frames, bpf), |Queue(s0, at0, n, 0)|);
    && got == Reported(frames, bpf, |Queue(s0, at0, n, 0)|)
    && Moved(s0, at0, s, at, n, channels, out, copied, Whole(copied, bpf))
  }

  /** The count written back when each channel holds `total` bytes */
  function Reported(frames: nat, bpf: nat, total: nat): int
    requires bpf > 0
  {
    frames - (Product(frames, bpf) - Min(Product(frames, bpf), total)) / bpf
  }

  /** The reported count is the right one if and only if the product did not wrap. */
  lemma CountExactly(frames: nat, bpf: nat, total: nat)
    requires bpf > 0 && total < U32 && total % bpf == 0
    ensures Reported(frames, bpf, total) == Min(frames, total / bpf) <==> frames * bpf < U32
  {
    hide Product;
    SmallProduct(frames, bpf);
    if frames * bpf < U32 {
      RightCount(frames, bpf, total);
    } else {
      WrongCount(frames, bpf, Product(frames, bpf), total);
    }
  }

  lemma RightCount(frames: nat, bpf: nat, total: nat)
    requires bpf > 0 && total % bpf == 0
    ensures frames - (frames * bpf - Min(frames * bpf, total)) / bpf == Min(frames, total / bpf)
    ensures Min(frames * bpf, total) % bpf == 0 && Min(frames * bpf, total) == Min(frames, total / bpf) * bpf
  {
    DivExact(frames * bpf, bpf, frames);
    DivSplit(total, bpf);
    MulGap(bpf, frames, total / bpf);
    MulGap(bpf, total / bpf, frames);
    if frames * bpf <= total {
      DivExact(0, bpf, 0);
    } else {
      MultipleDifference(frames * bpf, total, bpf);
    }
  }

  lemma WrongCount(frames: nat, bpf: nat, wanted: nat, total: nat)
    requires bpf > 0 && total % bpf == 0 && wanted < frames * bpf && total < frames * bpf
    ensures frames - (wanted - Min(wanted, total)) / bpf > Min(frames, total / bpf)
  {
    var excess := wanted - Min(wanted, total);
    DivSplit(total, bpf);
    DivSplit(excess, bpf);
    MulDistributes(excess / bpf, total / bpf, bpf);
    if excess == 0 {
      DivExact(0, bpf, 0);
      MulGap(bpf, total / bpf, frames);
    } else {
      MulGap(bpf, excess / bpf + total / bpf, frames);
    }
  }

  /** A draw delivers frames exactly when its product did not wrap. */
  lemma DrawnDelivers(s0: seq<Unit>, at0: nat, s: seq<Unit>, at: nat, n: nat, channels: nat, frames: nat, bpf: nat,
                      got: nat, out: seq<seq<Byte>>)
    requires n > 0 && bpf > 0 && Drawn(s0, at0, s, at, n, channels, frames, bpf, got, out)
    requires Level(s0, at0, n, channels, bpf)
    ensures Delivered(s0, at0, s, at, n, channels, frames, bpf, got, out) <==> frames * bpf < U32
  {
    hide Queue, Product;
    CountExactly(frames, bpf, |Queue(s0, at0, n, 0)|);
    if frames * bpf < U32 {
      SmallProduct(frames, bpf);
      RightCount(frames, bpf, |Queue(s0, at0, n, 0)|);
    }
  }

  lemma {:induction false} QueueFits(s: seq<Unit>, at: nat, n: nat)
    requires n > 0 && Chain(s, at, n)
    ensures |Queue(s, at, n, 0)| <= |s|
    decreases |s|
  {
    hide Chain, Queue, Cell;
    EmptyChain(at, n, 0);
    if s != [] {
      ChainStep(s, at, n);
      FirstChannel(s, at, n);
      FrontBytes(s, at, n, 0, HeaderOf(s).bufs[0].size);
      QueueFits(s[HeaderOf(s).total..], Cell(at + HeaderOf(s).total, n), n);
    }
  }

  /** The channels agree in length, and that length is a number of whole frames below 2^32 bytes. */
  ghost predicate Level(s: seq<Unit>, at: nat, n: nat, channels: nat, bpf: nat)
    requires n > 0 && bpf > 0
  {
    && |Queue(s, at, n, 0)| % bpf == 0 && |Queue(s, at, n, 0)| < U32
    && forall c: nat :: c < channels || c == 0 ==> |Queue(s, at, n, c)| == |Queue(s, at, n, 0)|
  }

  lemma Lengths(buffer: CircularBuffer<Unit>, channels: nat, bpf: nat)
    requires Queued(buffer) && bpf > 0 && Uniform(buffer.Contents(), channels, bpf)
    ensures Level(buffer.Contents(), buffer.tail, buffer.mem.Length, channels, bpf)
  {
    hide Chain, Window, Cell, Queue, Uniform;
    var s, n := buffer.Contents(), buffer.mem.Length;
    QueueFits(s, buffer.tail, n);
    QueueLengths(s, buffer.tail, n, channels, bpf, 0);
    forall c: nat | c < channels || c == 0
      ensures |Queue(s, buffer.tail, n, c)| == |Queue(s, buffer.tail, n, 0)|
    {
      QueueLengths(s, buffer.tail, n, channels, bpf, c);
    }
  }

  /** TPCircularBufferDequeueBufferListFrames. `room` gives the output buffers' sizes (empty for a NULL list)
      and `size` is what they are set to; the stamp is left alone (None) when no bytes are wanted. The output
      is what was asked for exactly when the byte count fits its UInt32. */
  method Dequeue(buffer: CircularBuffer<Unit>, frames: nat, room: seq<nat>, bytesPerFrame: nat)
    returns (got: nat, size: nat, out: seq<seq<Byte>>, stamp: Option<Stamp>)
    requires Queued(buffer) && bytesPerFrame > 0 && Uniform(buffer.Contents(), |room|, bytesPerFrame)
    requires RoomFor(room, Min(Product(frames, bytesPerFrame), |Audio(buffer, 0)|))
    modifies buffer`tail, buffer`fillCount, buffer.mem
    ensures Queued(buffer) && Uniform(buffer.Contents(), |room|, bytesPerFrame)
    ensures Drawn(old(buffer.Contents()), old(buffer.tail), buffer.Contents(), buffer.tail, buffer.mem.Length,
                  |room|, frames, bytesPerFrame, got, out)
    ensures frames * bytesPerFrame < U32 <==>
      Delivered(old(buffer.Contents()), old(buffer.tail), buffer.Contents(), buffer.tail, buffer.mem.Length,
                |room|, frames, bytesPerFrame, got, out)
    ensures size == Product(got, bytesPerFrame)
    ensures Extents(buffer.Contents())
      == Draw(Extents(old(buffer.Contents())), Product(frames, bytesPerFrame), bytesPerFrame)
    ensures stamp == if Product(frames, bytesPerFrame) > 0 then Some(HeaderOf(old(buffer.Contents())).stamp) else None
    ensures old(buffer.Free()) <= buffer.Free()
  {
    hide Chain, Window, Cell, Queue, HeaderOf, Uniform, Moved, Product, Whole, Delivered, Level, Extents, Draw;
    ghost var s0, at0, n := buffer.Contents(), buffer.tail, buffer.mem.Length;
    Lengths(buffer, |room|, bytesPerFrame);
    var wanted := Product(frames, bytesPerFrame);
    var copied: nat;
    copied, out, stamp := DequeueLoop(buffer, wanted, room, bytesPerFrame);
    EnoughFrames(frames, bytesPerFrame, wanted - copied);
    got := frames - (wanted - copied) / bytesPerFrame;
    size := Product(got, bytesPerFrame);
    DrawnDelivers(s0, at0, buffer.Contents(), buffer.tail, n, |room|, frames, bytesPerFrame, got, out);
  }

  lemma EnoughFrames(frames: nat, bpf: nat, toGo: nat)
    requires bpf > 0 && toGo <= Product(frames, bpf)
    ensures toGo / bpf <= frames
  {
    SmallProduct(frames, bpf);
    DivSplit(toGo, bpf);
    MulGap(bpf, toGo / bpf, frames);
  }

  /** 2^30 frames of four bytes wrap to no bytes at all, and yet all of them are reported. */
  lemma NothingReportedAsAll(s0: seq<Unit>, at0: nat, s: seq<Unit>, at: nat, n: nat, channels: nat, got: nat,
                             out: seq<seq<Byte>>)
    requires n > 0 && Drawn(s0, at0, s, at, n, channels, 0x4000_0000, 4, got, out)
    ensures got == 0x4000_0000 && |out| == channels && Queue(s, at, n, 0) == Queue(s0, at0, n, 0)
    ensures forall c: nat :: c < channels ==> out[c] == []
  {
    hide Queue;
    assert Product(0x4000_0000, 4) == 0;
  }

  lemma TakeTwice(q: seq<Byte>, a: nat, b: nat)
    ensures FirstBytes(q, a) + FirstBytes(BytesAfter(q, a), b) == FirstBytes(q, a + b)
    ensures BytesAfter(BytesAfter(q, a), b) == BytesAfter(q, a + b)
  {
    var x, y := Min(a, |q|), Min(a + b, |q|);
    assert x + Min(b, |q| - x) == y;
    DropTwice(q, x, y - x);
  }

  lemma FramesTwice(q: seq<Byte>, a: nat, b: nat, bpf: nat)
    ensures Taken(q, a, bpf) + Taken(Left(q, a, bpf), b, bpf) == Taken(q, a + b, bpf)
    ensures Left(Left(q, a, bpf), b, bpf) == Left(q, a + b, bpf)
  {
    hide FirstBytes, BytesAfter;
    MulDistributes(a, b, bpf);
    TakeTwice(q, a * bpf, b * bpf);
  }

  /** Counts add up: what is left after the first call is what the second counts. */
  lemma CountedTwice(q: seq<Byte>, a: nat, b: nat, bpf: nat, got1: nat, got2: nat)
    requires bpf > 0 && |q| % bpf == 0 && Counted(q, a, bpf, got1) && Counted(Left(q, a, bpf), b, bpf, got2)
    ensures Counted(q, a + b, bpf, got1 + got2)
  {
    RightCount(a, bpf, |q|);
    MultipleDifference(|q|, Min(a * bpf, |q|), bpf);
    DivExact(Min(a * bpf, |q|), bpf, Min(a, |q| / bpf));
  }

  /** Outputs of two calls, joined channel by channel */
  function Joined(a: seq<seq<Byte>>, b: seq<seq<Byte>>): (r: seq<seq<Byte>>)
    requires |a| == |b|
    ensures |r| == |a|
  {
    seq(|a|, c requires 0 <= c < |a| => a[c] + b[c])
  }

  /** Delivering a frames and then b is delivering a + b: outputs concatenate, counts add, the rest is the same. */
  lemma DeliveredTwice(s0: seq<Unit>, at0: nat, s1: seq<Unit>, at1: nat, s2: seq<Unit>, at2: nat, n: nat,
                       channels: nat, a: nat, b: nat, bpf: nat,
                       got1: nat, out1: seq<seq<Byte>>, got2: nat, out2: seq<seq<Byte>>)
    requires n > 0 && bpf > 0 && |Queue(s0, at0, n, 0)| % bpf == 0
    requires Delivered(s0, at0, s1, at1, n, channels, a, bpf, got1, out1)
    requires Delivered(s1, at1, s2, at2, n, channels, b, bpf, got2, out2)
    ensures Delivered(s0, at0, s2, at2, n, channels, a + b, bpf, got1 + got2, Joined(out1, out2))
  {
    hide Queue, Taken, Left, Counted;
    FramesTwice(Queue(s0, at0, n, 0), a, b, bpf);
    CountedTwice(Queue(s0, at0, n, 0), a, b, bpf, got1, got2);
    MulDistributes(got1, got2, bpf);
    forall c: nat | c < channels
      ensures FramesMoved(Queue(s0, at0, n, c), Queue(s2, at2, n, c), Joined(out1, out2)[c], a + b, bpf)
      ensures |Joined(out1, out2)[c]| == (got1 + got2) * bpf
    {
      FramesTwice(Queue(s0, at0, n, c), a, b, bpf);
    }
  }

  /** Two calls in a row */
  method DequeueTwice(buffer: CircularBuffer<Unit>, a: nat, b: nat, room: seq<nat>, bytesPerFrame: nat)
    returns (got: nat, out: seq<seq<Byte>>)
    requires Queued(buffer) && bytesPerFrame > 0 && Uniform(buffer.Contents(), |room|, bytesPerFrame)
    requires a * bytesPerFrame < U32 && b * bytesPerFrame < U32
    requires var first := Min(a * bytesPerFrame, |Audio(buffer, 0)|);
             RoomFor(room, first) && RoomFor(room, Min(b * bytesPerFrame, |Audio(buffer, 0)| - first))
    modifies buffer`tail, buffer`fillCount, buffer.mem
    ensures Queued(buffer) && Uniform(buffer.Contents(), |room|, bytesPerFrame)
    ensures Delivered(old(buffer.Contents()), old(buffer.tail), buffer.Contents(), buffer.tail, buffer.mem.Length,
                      |room|, a + b, bytesPerFrame, got, out)
  {
    hide Chain, Window, Cell, Queue, HeaderOf, Uniform, Moved, Product, Drawn, Delivered;
    ghost var s0, at0 := buffer.Contents(), buffer.tail;
    Lengths(buffer, |room|, bytesPerFrame);
    SmallProduct(a, bytesPerFrame);
    SmallProduct(b, bytesPerFrame);
    var got1, _, out1, _ := Dequeue(buffer, a, room, bytesPerFrame);
    ghost var s1, at1 := buffer.Contents(), buffer.tail;
    DeliveredShape(s0, at0, s1, at1, buffer.mem.Length, |room|, a, bytesPerFrame, got1, out1);
    var got2, _, out2, _ := Dequeue(buffer, b, room, bytesPerFrame);
    DeliveredShape(s1, at1, buffer.Contents(), buffer.tail, buffer.mem.Length, |room|, b, bytesPerFrame, got2, out2);
    DeliveredTwice(s0, at0, s1, at1, buffer.Contents(), buffer.tail, buffer.mem.Length, |room|, a, b, bytesPerFrame,
                   got1, out1, got2, out2);
    got, out := got1 + got2, Joined(out1, out2);
  }

  lemma DeliveredShape(s0: seq<Unit>, at0: nat, s: seq<Unit>, at: nat, n: nat, channels: nat, frames: nat, bpf: nat,
                       got: nat, out: seq<seq<Byte>>)
    requires n > 0 && bpf > 0 && Delivered(s0, at0, s, at, n, channels, frames, bpf, got, out)
    ensures |out| == channels
    ensures |Queue(s, at, n, 0)| == |Queue(s0, at0, n, 0)| - Min(frames * bpf, |Queue(s0, at0, n, 0)|)
  {
    hide Queue, Counted, FramesMoved;
  }

  lemma EmptyHeader(s: seq<Unit>)
    ensures s == [] ==> HeaderOf(s).stamp == Stamp(false, 0)
  {
  }

  lemma NothingMoved(s0: seq<Unit>, at0: nat, n: nat, channels: nat, out: seq<seq<Byte>>)
    requires n > 0 && |out| == channels && forall c :: 0 <= c < channels ==> out[c] == []
    ensures Moved(s0, at0, s0, at0, n, channels, out, 0, 0)
  {
    hide Queue;
  }

  /** Taking nothing from a block means that the block was empty and goes. */
  lemma ShortenedShrinks(s: seq<Unit>, frames: nat, bytes: nat)
    requires s != [] && Ready(s) && bytes <= HeaderOf(s).bufs[0].size
    ensures |Shortened(s, frames, bytes)| <= |s|
    ensures bytes == HeaderOf(s).bufs[0].size ==> |Shortened(s, frames, bytes)| < |s|
  {
    hide EqualSizes;
  }

  // ---- walking the chain ----

  /** A block starts p bytes into the chain s. */
  predicate BlockAt(s: seq<Unit>, p: nat)
    decreases |s|
  {
    var t := HeaderOf(s).total;
    s != [] && (p == 0 || (0 < t <= p && t <= |s| && BlockAt(s[t..], p - t)))
  }

  /** From there on the rest is a chain again, and the next block is where totalLength says. */
  lemma {:induction false} RestOfChain(s: seq<Unit>, at: nat, n: nat, p: nat)
    requires n > 0 && at < n && Chain(s, at, n) && BlockAt(s, p)
    ensures p < |s| && p % 16 == 0 && Chain(s[p..], Cell(at + p, n), n)
    ensures var q := p + HeaderOf(s[p..]).total; q <= |s| && (q < |s| ==> BlockAt(s, q))
    decreases |s|
  {
    hide Chain, Cell, Block;
    var t := HeaderOf(s).total;
    ChainStep(s, at, n);
    if p == 0 {
      assert s[0..] == s;
      CellHere(at, n);
    } else {
      FrontBlock(s, at);
      RestOfChain(s[t..], Cell(at + t, n), n, p - t);
      CellAdd(at + t, p - t, n);
      assert s[t..][p - t..] == s[p..];
    }
  }

  lemma FrontHasBuffers(s: seq<Unit>, at: nat, n: nat)
    requires n > 0 && s != [] && Chain(s, at, n)
    ensures |HeaderOf(s).bufs| >= 1
  {
    hide Chain, Cell, Block;
    ChainStep(s, at, n);
    FrontBlock(s, at);
  }

  /** The block header behind an address in the chain, read through the mirrored mapping */
  method HeaderAt(buffer: CircularBuffer<Unit>, p: nat) returns (h: Header)
    requires Queued(buffer) && BlockAt(buffer.Contents(), p)
    ensures p < buffer.fillCount && (buffer.tail + p) % 16 == 0
    ensures h == HeaderOf(buffer.Contents()[p..]) && 0 < h.total && p + h.total <= buffer.fillCount && |h.bufs| >= 1
    ensures p + h.total < buffer.fillCount ==> BlockAt(buffer.Contents(), p + h.total)
  {
    hide Chain, Cell, Window, Block, BlockAt, HeaderOf;
    ghost var s := buffer.Contents();
    RestOfChain(s, buffer.tail, buffer.mem.Length, p);
    AlignedSum(buffer.tail, p);
    BehindFirst(s[p..], Cell(buffer.tail + p, buffer.mem.Length), buffer.mem.Length);
    FrontHasBuffers(s[p..], Cell(buffer.tail + p, buffer.mem.Length), buffer.mem.Length);
    var first := buffer.Load(p);
    h := first.h;
  }

  /** TPCircularBufferNextBufferListAfter: the list of the following block, if there is one */
  method NextBufferListAfter(buffer: CircularBuffer<Unit>, list: nat) returns (next: Option<nat>, stamp: Option<Stamp>)
    requires Queued(buffer) && list >= buffer.tail + 72 && BlockAt(buffer.Contents(), list - 72 - buffer.tail)
    ensures var p := list - 72 - buffer.tail;
            p < |buffer.Contents()| && var q := p + HeaderOf(buffer.Contents()[p..]).total;
            if q < |buffer.Contents()| then
              && next == Some(buffer.tail + q + 72) && stamp == Some(HeaderOf(buffer.Contents()[q..]).stamp)
              && BlockAt(buffer.Contents(), q)
            else next == None && stamp == None && q == |buffer.Contents()|
  {
    hide Chain, Cell, Window, Block, BlockAt;
    var p := list - 72 - buffer.tail;
    RestOfChain(buffer.Contents(), buffer.tail, buffer.mem.Length, p);
    Roomy(buffer.Contents()[p..], Cell(buffer.tail + p, buffer.mem.Length), buffer.mem.Length);
    assert list > buffer.tail && list < buffer.tail + buffer.fillCount;
    var original := HeaderAt(buffer, p);
    assert (buffer.tail + p) % 16 == 0;
    var nextBlock := buffer.tail + p + original.total;
    if nextBlock >= buffer.tail + buffer.fillCount {
      return None, None;
    }
    var following := HeaderAt(buffer, p + original.total);
    assert nextBlock % 16 == 0;
    return Some(nextBlock + 72), Some(following.stamp);
  }

  lemma Roomy(s: seq<Unit>, at: nat, n: nat)
    requires n > 0 && s != [] && Chain(s, at, n)
    ensures |s| >= 96
  {
    hide Chain, Cell, InOrder;
    ChainStep(s, at, n);
  }

  /** What a block adds to channel 0 */
  lemma FirstChannel(s: seq<Unit>, at: nat, n: nat)
    requires n > 0 && s != [] && Chain(s, at, n)
    ensures var h := HeaderOf(s);
            && 0 < h.total <= |s| && |h.bufs| >= 1
            && |Queue(s, at, n, 0)| == h.bufs[0].size + |Queue(s[h.total..], Cell(at + h.total, n), n, 0)|
  {
    hide Chain, Queue, Cell, HeaderSize, InOrder, Payload;
    var h := HeaderOf(s);
    ChainStep(s, at, n);
    QueueStep(s, at, n, 0);
    FrontBlock(s, at);
    InOrderBounds(h.bufs, at + HeaderSize(|h.bufs|), at + h.total, 0);
    PayloadLength(s[..h.total], at, h.bufs[0]);
  }

  /** The bytes counted before position p and those from there on are all of channel 0. */
  ghost predicate CountedTo(s: seq<Unit>, at: nat, n: nat, p: nat, bytes: nat)
    requires n > 0 && p <= |s|
  {
    bytes + |Queue(s[p..], Cell(at + p, n), n, 0)| == |Queue(s, at, n, 0)|
  }

  lemma CountBlock(s: seq<Unit>, at: nat, n: nat, p: nat, bytes: nat)
    requires n > 0 && at < n && Chain(s, at, n) && BlockAt(s, p) && p < |s| && CountedTo(s, at, n, p, bytes)
    ensures var h := HeaderOf(s[p..]);
            |h.bufs| >= 1 && p + h.total <= |s| && CountedTo(s, at, n, p + h.total, bytes + h.bufs[0].size)
  {
    hide Chain, Queue, Cell, BlockAt;
    RestOfChain(s, at, n, p);
    FirstChannel(s[p..], Cell(at + p, n), n);
    var t := HeaderOf(s[p..]).total;
    CellAdd(at + p, t, n);
    assert s[p..][t..] == s[p + t..];
  }

  lemma CountStart(s: seq<Unit>, at: nat, n: nat)
    requires at < n
    ensures CountedTo(s, at, n, 0, 0)
  {
    hide Queue;
    assert s[0..] == s;
    CellHere(at, n);
  }

  lemma CountEnd(s: seq<Unit>, at: nat, n: nat, bytes: nat)
    requires n > 0 && CountedTo(s, at, n, |s|, bytes)
    ensures bytes == |Queue(s, at, n, 0)|
  {
    hide Queue;
    assert s[|s|..] == [];
    EmptyChain(Cell(at + |s|, n), n, 0);
  }

  lemma StartsWithBlock(s: seq<Unit>)
    requires s != []
    ensures BlockAt(s, 0)
  {
  }

  /** TPCircularBufferPeek: the number of frames queued */
  method Peek(buffer: CircularBuffer<Unit>, bytesPerFrame: nat) returns (frames: nat, stamp: Option<Stamp>)
    requires Queued(buffer) && bytesPerFrame > 0
    ensures frames == |Audio(buffer, 0)| / bytesPerFrame
    ensures stamp == if buffer.Contents() == [] then None else Some(HeaderOf(buffer.Contents()).stamp)
  {
    hide Chain, Cell, Window, BlockAt, Queue, CountedTo, HeaderOf;
    ghost var s, n := buffer.Contents(), buffer.mem.Length;
    CountStart(s, buffer.tail, n);
    var p, available := buffer.Tail();
    if p.None? {
      CountEnd(s, buffer.tail, n, 0);
      DivExact(0, bytesPerFrame, 0);
      return 0, None;
    }
    StartsWithBlock(s);
    var block := HeaderAt(buffer, 0);
    assert s[0..] == s;
    stamp := Some(block.stamp);
    var off: nat, byteCount: nat, more := 0, 0, true;
    while more
      invariant off <= |s| && CountedTo(s, buffer.tail, n, off, byteCount)
      invariant more ==> off < |s| && BlockAt(s, off)
      invariant !more ==> off == |s|
      decreases |s| - off, more
    {
      CountBlock(s, buffer.tail, n, off, byteCount);
      block := HeaderAt(buffer, off);
      byteCount := byteCount + block.bufs[0].size;
      off := off + block.total;
      more := off < available;
    }
    CountEnd(s, buffer.tail, n, byteCount);
    frames := byteCount / bytesPerFrame;
  }
}
