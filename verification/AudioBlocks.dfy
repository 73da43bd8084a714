/** What TPCircularBuffer+AudioBufferList keeps in the ring: a chain of 16-byte aligned blocks, each a
    header followed by one stretch of audio data per channel. Addresses count from the (page-aligned)
    start of the mapping. */
module AudioBlocks {
  import opened Common
  import opened Rings

  /** The sample-time part of an AudioTimeStamp, and whether its flag says it is valid */
  datatype Stamp = Stamp(sampleValid: bool, sampleTime: int)

  /** mData and mDataByteSize of an AudioBuffer */
  datatype Buf = Buf(data: nat, size: nat)

  /** TPCircularBufferABLBlockHeader */
  datatype Header = Header(stamp: Stamp, total: nat, bufs: seq<Buf>)

  /** A header is kept whole in its first cell; the other cells it occupies must stay untouched. */
  datatype Unit = Data(b: Byte) | Start(h: Header) | Covered

  function ByteOf(c: Unit): Byte { if c.Data? then c.b else 0 }

  /** align16byte */
  function Align(x: nat): (r: nat)
    ensures r % 16 == 0 && x <= r < x + 16
  {
    if x % 16 != 0 then x + (16 - x % 16) else x
  }

  /** offsetof(bufferList) + sizeof(AudioBufferList) + (n - 1) * sizeof(AudioBuffer) */
  function HeaderSize(n: nat): (r: nat)
    requires n >= 1
    ensures r % 16 == 0 && r >= 96
  {
    72 + 24 + (n - 1) * 16
  }

  // ---- one block ----

  /** Buffers i, i+1, ... lie one after the other between from and to. */
  predicate InOrder(bufs: seq<Buf>, from: nat, to: nat)
    decreases |bufs|
  {
    if bufs == [] then from <= to
    else from <= bufs[0].data && InOrder(bufs[1..], bufs[0].data + bufs[0].size, to)
  }

  /** Cells b, placed at address `at`, are one block. */
  predicate Block(b: seq<Unit>, at: nat)
  {
    && b != [] && b[0].Start?
    && var h := b[0].h;
      && |h.bufs| >= 1 && h.total == |b| && h.total % 16 == 0 && HeaderSize(|h.bufs|) <= h.total
      && InOrder(h.bufs, at + HeaderSize(|h.bufs|), at + h.total)
      && forall k :: 0 < k < HeaderSize(|h.bufs|) ==> b[k].Covered?
  }

  function HeaderOf(s: seq<Unit>): (h: Header)
  {
    if s != [] && s[0].Start? then s[0].h else Header(Stamp(false, 0), 0, [])
  }

  /** Following totalLength from the first block on, the blocks fill s exactly. */
  predicate Chain(s: seq<Unit>, at: nat, n: nat)
    requires n > 0
    decreases |s|
  {
    s != [] ==>
      var t := HeaderOf(s).total;
      0 < t <= |s| && Block(s[..t], at) && Chain(s[t..], Cell(at + t, n), n)
  }

  // ---- the audio in it ----

  function Bytes(s: seq<Unit>): (b: seq<Byte>)
    ensures |b| == |s|
  {
    seq<Byte>(|s|, k requires 0 <= k < |s| => ByteOf(s[k]))
  }

  function Payload(s: seq<Unit>, at: nat, b: Buf): seq<Byte>
  {
    if at <= b.data && b.data - at + b.size <= |s| then Bytes(s[b.data - at..b.data - at + b.size]) else []
  }

  /** The bytes of channel c in one block */
  function Channel(s: seq<Unit>, at: nat, c: nat): seq<Byte>
  {
    var h := HeaderOf(s);
    if c < |h.bufs| then Payload(s, at, h.bufs[c]) else []
  }

  /** The bytes of channel c in all blocks */
  function Queue(s: seq<Unit>, at: nat, n: nat, c: nat): seq<Byte>
    requires n > 0
    decreases |s|
  {
    var t := HeaderOf(s).total;
    if s == [] || t == 0 || t > |s| then []
    else Channel(s[..t], at, c) + Queue(s[t..], Cell(at + t, n), n, c)
  }

  // ---- chains grow at the end and shrink at the front ----

  /** The block at the front, and the chain behind it */
  lemma ChainStep(s: seq<Unit>, at: nat, n: nat)
    requires n > 0 && s != []
    ensures var t := HeaderOf(s).total;
            Chain(s, at, n) <==> 0 < t <= |s| && Block(s[..t], at) && Chain(s[t..], Cell(at + t, n), n)
  {
    hide Block, Cell;
  }

  lemma QueueStep(s: seq<Unit>, at: nat, n: nat, c: nat)
    requires n > 0 && 0 < HeaderOf(s).total <= |s|
    ensures var t := HeaderOf(s).total;
            Queue(s, at, n, c) == Channel(s[..t], at, c) + Queue(s[t..], Cell(at + t, n), n, c)
  {
    hide Channel, Cell;
  }

  lemma EmptyChain(at: nat, n: nat, c: nat)
    requires n > 0
    ensures Chain([], at, n) && Queue([], at, n, c) == []
  {
  }

  lemma AppendSplits<T>(s: seq<T>, b: seq<T>, t: nat)
    requires t <= |s|
    ensures (s + b)[..t] == s[..t] && (s + b)[t..] == s[t..] + b
  {
  }

  lemma {:induction false} ChainAppend(s: seq<Unit>, at: nat, n: nat, b: seq<Unit>, c: nat)
    requires n > 0 && at < n && Chain(s, at, n) && Block(b, Cell(at + |s|, n))
    ensures Chain(s + b, at, n)
    ensures Queue(s + b, at, n, c) == Queue(s, at, n, c) + Channel(b, Cell(at + |s|, n), c)
    decreases |s|
  {
    hide Block, Channel, Chain, Queue, Cell;
    if s == [] {
      assert s + b == b;
      CellHere(at, n);
      EmptyChain(at, n, c);
      OneBlock(b, at, n, c);
    } else {
      var t := HeaderOf(s).total;
      ChainStep(s, at, n);
      CellAdd(at + t, |s| - t, n);
      ChainAppend(s[t..], Cell(at + t, n), n, b, c);
      AppendSplits(s, b, t);
      ChainStep(s + b, at, n);
      QueueStep(s, at, n, c);
      QueueStep(s + b, at, n, c);
    }
  }

  lemma CellHere(at: nat, n: nat)
    requires at < n
    ensures Cell(at, n) == at
  {
  }

  lemma OneBlock(b: seq<Unit>, at: nat, n: nat, c: nat)
    requires n > 0 && Block(b, at)
    ensures Chain(b, at, n) && Queue(b, at, n, c) == Channel(b, at, c)
  {
    hide Channel, InOrder;
    var t := HeaderOf(b).total;
    assert b[..t] == b && b[t..] == [];
    assert Queue([], Cell(at + t, n), n, c) == [];
  }

  lemma {:induction false} ChainAligned(s: seq<Unit>, at: nat, n: nat)
    requires n > 0 && Chain(s, at, n)
    ensures |s| % 16 == 0
    decreases |s|
  {
    hide InOrder, Cell, Chain;
    if s != [] {
      var t := HeaderOf(s).total;
      ChainStep(s, at, n);
      ChainAligned(s[t..], Cell(at + t, n), n);
    }
  }
}
