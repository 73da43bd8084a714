/** What a client of TPCircularBuffer+AudioBufferList.h may rely on: one queue of bytes per channel, the blocks
    they came in, and the list that is prepared and not yet produced. */
module AudioModel {
  import opened Common
  import opened AudioBlocks
  import opened AudioQueues
  import opened AudioDequeues

  /** A prepared list: its stamp, where in the block the data of its last buffer start, and what its buffers hold */
  datatype Prep = Prep(stamp: Stamp, last: nat, bufs: seq<seq<Byte>>)

  datatype State = State(queues: seq<seq<Byte>>, blocks: seq<Extent>, prep: Option<Prep>)

  /** One call, or one thing a client does to the list it has prepared */
  datatype Op =
    | PrepareList(n: nat, bytes: nat, stamp: Option<Stamp>)
    | Fill(c: nat, data: seq<Byte>)
    | Trim(bytes: nat)
    | ProduceList(newStamp: Option<Stamp>)
    | ConsumeList
    | ConsumeFrames(frames: nat)
    | DequeueFrames(wanted: nat, room: seq<nat>)

  /** What the client gets back */
  datatype Reply = Done | Listed(ok: bool) | Played(frames: int, stamp: Option<Stamp>, data: seq<seq<Byte>>)

  /** What the client sees to: equal buffers of whole frames on enough channels, partial consumption of whole
      frames (a UInt32 product may wrap to less), and output buffers that are large enough. */
  predicate Proper(op: Op, channels: nat, bpf: nat)
    requires bpf > 0
  {
    match op
    case PrepareList(n, bytes, _) => n >= 1 && channels <= n && bytes % bpf == 0
    case Trim(bytes) => bytes % bpf == 0
    case ConsumeFrames(frames) => Product(frames, bpf) % bpf == 0
    case DequeueFrames(wanted, room) => |room| == channels && RoomFor(room, Product(wanted, bpf))
    case _ => true
  }

  // ---- one call ----

  function Occupied(blocks: seq<Extent>): nat
  {
    if blocks == [] then 0 else blocks[0].total + Occupied(blocks[1..])
  }

  /** Bytes queued on each channel */
  function Held(blocks: seq<Extent>): nat
  {
    if blocks == [] then 0 else blocks[0].size + Held(blocks[1..])
  }

  function FrontStamp(blocks: seq<Extent>): Stamp
  {
    if blocks == [] then Stamp(false, 0) else blocks[0].stamp
  }

  function StampOr(stamp: Option<Stamp>, otherwise: Stamp): Stamp
  {
    if stamp.Some? then stamp.value else otherwise
  }

  /** How many bytes per channel an operation removes */
  function Takes(a: State, op: Op, bpf: nat): nat
    requires bpf > 0
  {
    match op
    case ConsumeList => if a.blocks == [] then 0 else a.blocks[0].size
    case ConsumeFrames(frames) => if a.blocks == [] then 0 else Min(Product(frames, bpf), a.blocks[0].size)
    case DequeueFrames(wanted, _) => Whole(Min(Product(wanted, bpf), Held(a.blocks)), bpf)
    case _ => 0
  }

  /** What an operation appends to channel c */
  function Adds(a: State, op: Op, c: nat): seq<Byte>
  {
    if op.ProduceList? && a.prep.Some? && c < |a.prep.value.bufs| then a.prep.value.bufs[c] else []
  }

  function NextBlocks(a: State, op: Op, bpf: nat): seq<Extent>
    requires bpf > 0
  {
    match op
    case ProduceList(stamp) =>
      if a.prep.Some? && a.prep.value.bufs != [] then a.blocks + [Made(a.prep.value, stamp)] else a.blocks
    case ConsumeList => if a.blocks == [] then [] else a.blocks[1..]
    case ConsumeFrames(frames) => Consumed(a.blocks, frames, Takes(a, op, bpf))
    case DequeueFrames(wanted, _) => Draw(a.blocks, Product(wanted, bpf), bpf)
    case _ => a.blocks
  }

  /** The block that a prepared list becomes: cut off behind the last buffer's data, and 16-byte aligned */
  function Made(p: Prep, stamp: Option<Stamp>): Extent
    requires p.bufs != []
  {
    Extent(Align(p.last + |p.bufs[|p.bufs| - 1]|), |p.bufs[0]|, StampOr(stamp, p.stamp))
  }

  predicate Fits(a: State, n: nat, bytes: nat, length: nat)
  {
    n >= 1 && BlockLength(n, bytes) + Occupied(a.blocks) <= length
  }

  /** `junk` is what the prepared memory happens to hold. */
  function NextPrep(a: State, op: Op, length: nat, junk: seq<seq<Byte>>): Option<Prep>
  {
    match op
    case PrepareList(n, bytes, stamp) =>
      if Fits(a, n, bytes, length) then Some(Prep(StampOr(stamp, Stamp(false, 0)), Place(n - 1, n, bytes), junk))
      else None
    case Fill(c, data) => if a.prep.Some? then Some(WithData(a.prep.value, c, data)) else None
    case Trim(bytes) => if a.prep.Some? then Some(Trimmed(a.prep.value, bytes)) else None
    case ProduceList(_) => None
    case _ => a.prep
  }

  function WithData(p: Prep, c: nat, data: seq<Byte>): Prep
  {
    if c < |p.bufs| && |data| <= |p.bufs[c]| then p.(bufs := p.bufs[c := data + p.bufs[c][|data|..]]) else p
  }

  function Trimmed(p: Prep, bytes: nat): Prep
  {
    if p.bufs != [] && bytes <= |p.bufs[0]| then p.(bufs := Firsts(p.bufs, bytes)) else p
  }

  /** The first bytes of every channel */
  function Firsts(qs: seq<seq<Byte>>, bytes: nat): (r: seq<seq<Byte>>)
    ensures |r| == |qs|
  {
    seq(|qs|, c requires 0 <= c < |qs| => FirstBytes(qs[c], bytes))
  }

  function Next(a: State, op: Op, length: nat, bpf: nat, junk: seq<seq<Byte>>): (a': State)
    requires bpf > 0
    ensures |a'.queues| == |a.queues|
  {
    State(seq(|a.queues|, c requires 0 <= c < |a.queues| =>
            BytesAfter(a.queues[c] + Adds(a, op, c), Takes(a, op, bpf))),
          NextBlocks(a, op, bpf), NextPrep(a, op, length, junk))
  }

  function Answer(a: State, op: Op, length: nat, bpf: nat): Reply
    requires bpf > 0
  {
    match op
    case PrepareList(n, bytes, _) => Listed(Fits(a, n, bytes, length))
    case DequeueFrames(wanted, _) =>
      Played(Reported(wanted, bpf, Held(a.blocks)),
             if Product(wanted, bpf) > 0 then Some(FrontStamp(a.blocks)) else None,
             Firsts(a.queues, Product(wanted, bpf)))
    case _ => Done
  }

  // ---- runs ----

  function RunState(a: State, ops: seq<Op>, length: nat, bpf: nat, junk: seq<seq<seq<Byte>>>): (r: State)
    requires bpf > 0 && |junk| == |ops|
    ensures |r.queues| == |a.queues|
  {
    if ops == [] then a
    else
      var n := |ops| - 1;
      Next(RunState(a, ops[..n], length, bpf, junk[..n]), ops[n], length, bpf, junk[n])
  }

  function Replies(a: State, ops: seq<Op>, length: nat, bpf: nat, junk: seq<seq<seq<Byte>>>): (r: seq<Reply>)
    requires bpf > 0 && |junk| == |ops|
    ensures |r| == |ops|
  {
    if ops == [] then []
    else
      var n := |ops| - 1;
      Replies(a, ops[..n], length, bpf, junk[..n])
      + [Answer(RunState(a, ops[..n], length, bpf, junk[..n]), ops[n], length, bpf)]
  }

  /** All that was produced on channel c */
  function Produced(a: State, ops: seq<Op>, length: nat, bpf: nat, junk: seq<seq<seq<Byte>>>, c: nat): seq<Byte>
    requires bpf > 0 && |junk| == |ops|
  {
    if ops == [] then []
    else
      var n := |ops| - 1;
      Produced(a, ops[..n], length, bpf, junk[..n], c) + Adds(RunState(a, ops[..n], length, bpf, junk[..n]), ops[n], c)
  }

  /** All that was played on channel c: the data of the dequeuing calls, one after the other */
  function PlayedOn(replies: seq<Reply>, c: nat): seq<Byte>
  {
    if replies == [] then []
    else
      var n := |replies| - 1;
      PlayedOn(replies[..n], c)
      + if replies[n].Played? && c < |replies[n].data| then replies[n].data[c] else []
  }

  /** Frames reported by the dequeuing calls */
  function FramesReported(replies: seq<Reply>): int
  {
    if replies == [] then 0
    else
      var n := |replies| - 1;
      FramesReported(replies[..n]) + if replies[n].Played? then replies[n].frames else 0
  }

  // ---- what every operation keeps ----

  /** Every channel holds what the blocks say, in whole frames; a prepared list has equal buffers of whole frames. */
  predicate Consistent(a: State, channels: nat, bpf: nat)
    requires bpf > 0
  {
    && |a.queues| == channels && (forall c :: 0 <= c < channels ==> |a.queues[c]| == Held(a.blocks))
    && WholeBlocks(a.blocks, bpf) && (a.prep.Some? ==> Regular(a.prep.value.bufs, channels, bpf))
  }

  predicate WholeBlocks(blocks: seq<Extent>, bpf: nat)
    requires bpf > 0
  {
    forall k :: 0 <= k < |blocks| ==> blocks[k].size % bpf == 0
  }

  predicate Regular(bufs: seq<seq<Byte>>, channels: nat, bpf: nat)
    requires bpf > 0
  {
    && |bufs| >= 1 && channels <= |bufs| && |bufs[0]| % bpf == 0
    && forall c :: 0 <= c < |bufs| ==> |bufs[c]| == |bufs[0]|
  }

  /** The memory a list was prepared in holds as many bytes as the list has. */
  predicate Sized(op: Op, junk: seq<seq<Byte>>)
  {
    op.PrepareList? ==> |junk| == op.n && forall c :: 0 <= c < |junk| ==> |junk[c]| == op.bytes
  }

  lemma {:induction false} HeldAppend(a: seq<Extent>, b: Extent)
    ensures Held(a + [b]) == Held(a) + b.size
    decreases |a|
  {
    if a == [] {
      assert a + [b] == [b] && [b][1..] == [];
    } else {
      assert (a + [b])[1..] == a[1..] + [b];
      HeldAppend(a[1..], b);
    }
  }

  lemma {:induction false} HeldWhole(blocks: seq<Extent>, bpf: nat)
    requires bpf > 0 && WholeBlocks(blocks, bpf)
    ensures Held(blocks) % bpf == 0
  {
    if blocks == [] {
      DivExact(0, bpf, 0);
    } else {
      HeldWhole(blocks[1..], bpf);
      MultipleSum(blocks[0].size, Held(blocks[1..]), bpf);
    }
  }

  lemma ConsumedKeeps(blocks: seq<Extent>, frames: nat, bytes: nat, bpf: nat)
    requires bpf > 0 && WholeBlocks(blocks, bpf) && bytes % bpf == 0 && blocks != [] && bytes <= blocks[0].size
    ensures WholeBlocks(Consumed(blocks, frames, bytes), bpf)
    ensures Held(Consumed(blocks, frames, bytes)) == Held(blocks) - bytes
  {
    if bytes < blocks[0].size {
      MultipleDifference(blocks[0].size, bytes, bpf);
      assert Consumed(blocks, frames, bytes)[1..] == blocks[1..];
    }
  }

  lemma {:induction false} DrawKeeps(blocks: seq<Extent>, wanted: nat, bpf: nat)
    requires bpf > 0 && WholeBlocks(blocks, bpf)
    ensures WholeBlocks(Draw(blocks, wanted, bpf), bpf)
    ensures Whole(Min(wanted, Held(blocks)), bpf) <= Held(blocks)
    ensures Held(Draw(blocks, wanted, bpf)) == Held(blocks) - Whole(Min(wanted, Held(blocks)), bpf)
    decreases |blocks|
  {
    hide Whole, FramesIn, Consumed;
    NoFrames(bpf);
    if wanted == 0 || blocks == [] {
    } else if wanted >= blocks[0].size {
      var size := blocks[0].size;
      DrawKeeps(blocks[1..], wanted - size, bpf);
      MultipleIsWhole(size, bpf);
      WholeShift(size, Min(wanted - size, Held(blocks[1..])), bpf);
    } else {
      WholeIsWhole(wanted, bpf);
      ConsumedKeeps(blocks, FramesIn(wanted, bpf), Whole(wanted, bpf), bpf);
    }
  }

  lemma MultipleIsWhole(x: nat, b: nat)
    requires b > 0
    ensures x % b == 0 <==> Whole(x, b) == x
  {
  }

  /** The bytes an operation adds to every channel */
  function Gains(a: State, op: Op): nat
  {
    if op.ProduceList? && a.prep.Some? && a.prep.value.bufs != [] then |a.prep.value.bufs[0]| else 0
  }

  lemma NextHeld(a: State, op: Op, bpf: nat, channels: nat)
    requires bpf > 0 && Consistent(a, channels, bpf) && Proper(op, channels, bpf)
    ensures WholeBlocks(NextBlocks(a, op, bpf), bpf) && Takes(a, op, bpf) <= Held(a.blocks) + Gains(a, op)
    ensures Held(NextBlocks(a, op, bpf)) == Held(a.blocks) + Gains(a, op) - Takes(a, op, bpf)
  {
    hide Product, Align, Draw, Whole, WholeBlocks, Consumed, FramesIn;
    NoFrames(bpf);
    match op {
      case ProduceList(stamp) =>
        if a.prep.Some? && a.prep.value.bufs != [] {
          HeldAppend(a.blocks, Made(a.prep.value, stamp));
          OneMoreBlock(a.blocks, Made(a.prep.value, stamp), bpf);
        }
      case ConsumeList => OneBlockLess(a.blocks, bpf);
      case ConsumeFrames(frames) =>
        OneBlockLess(a.blocks, bpf);
        if a.blocks != [] {
          ConsumedKeeps(a.blocks, frames, Takes(a, op, bpf), bpf);
        } else {
          NoneConsumed(frames, bpf);
        }
      case DequeueFrames(wanted, _) => DrawKeeps(a.blocks, Product(wanted, bpf), bpf);
      case _ =>
    }
  }

  lemma NoneConsumed(frames: nat, bpf: nat)
    requires bpf > 0
    ensures Consumed([], frames, 0) == [] && WholeBlocks([], bpf)
  {
  }

  lemma OneMoreBlock(blocks: seq<Extent>, b: Extent, bpf: nat)
    requires bpf > 0 && WholeBlocks(blocks, bpf) && b.size % bpf == 0
    ensures WholeBlocks(blocks + [b], bpf)
  {
  }

  lemma OneBlockLess(blocks: seq<Extent>, bpf: nat)
    requires bpf > 0 && WholeBlocks(blocks, bpf)
    ensures blocks != [] ==>
      WholeBlocks(blocks[1..], bpf) && blocks[0].size % bpf == 0 && Held(blocks[1..]) == Held(blocks) - blocks[0].size
  {
  }

  lemma AddsGain(a: State, op: Op, bpf: nat, channels: nat, c: nat)
    requires bpf > 0 && Consistent(a, channels, bpf) && c < channels
    ensures |Adds(a, op, c)| == Gains(a, op)
  {
    hide WholeBlocks;
  }

  lemma NextPrepKeeps(a: State, op: Op, length: nat, bpf: nat, junk: seq<seq<Byte>>, channels: nat)
    requires bpf > 0 && Consistent(a, channels, bpf) && Proper(op, channels, bpf) && Sized(op, junk)
    ensures var p := NextPrep(a, op, length, junk); p.Some? ==> Regular(p.value.bufs, channels, bpf)
  {
    hide Align, BlockLength, Place, WholeBlocks, Held;
  }

  /** Every operation keeps the state consistent. */
  lemma NextKeeps(a: State, op: Op, length: nat, bpf: nat, junk: seq<seq<Byte>>, channels: nat)
    requires bpf > 0 && Consistent(a, channels, bpf) && Proper(op, channels, bpf) && Sized(op, junk)
    ensures Consistent(Next(a, op, length, bpf, junk), channels, bpf)
  {
    hide NextBlocks, NextPrep, Takes, Adds, WholeBlocks, Regular;
    NextHeld(a, op, bpf, channels);
    NextPrepKeeps(a, op, length, bpf, junk, channels);
    var a' := Next(a, op, length, bpf, junk);
    forall c | 0 <= c < channels
      ensures |a'.queues[c]| == Held(a'.blocks)
    {
      AddsGain(a, op, bpf, channels, c);
    }
  }

  /** The operations of a run are in order, and so is the memory they find. */
  predicate Orderly(ops: seq<Op>, junk: seq<seq<seq<Byte>>>, channels: nat, bpf: nat)
    requires bpf > 0
  {
    |junk| == |ops| && forall k :: 0 <= k < |ops| ==> Proper(ops[k], channels, bpf) && Sized(ops[k], junk[k])
  }

  lemma {:induction false} RunKeeps(a: State, ops: seq<Op>, length: nat, bpf: nat, junk: seq<seq<seq<Byte>>>,
                                    channels: nat)
    requires bpf > 0 && Consistent(a, channels, bpf) && Orderly(ops, junk, channels, bpf)
    ensures Consistent(RunState(a, ops, length, bpf, junk), channels, bpf)
    decreases |ops|
  {
    hide Consistent, Next, Proper, Sized;
    if ops != [] {
      var n := |ops| - 1;
      RunKeeps(a, ops[..n], length, bpf, junk[..n], channels);
      NextKeeps(RunState(a, ops[..n], length, bpf, junk[..n]), ops[n], length, bpf, junk[n], channels);
    }
  }

  // ---- nothing is lost, doubled or reordered ----

  /** All that left channel c */
  function Removed(a: State, ops: seq<Op>, length: nat, bpf: nat, junk: seq<seq<seq<Byte>>>, c: nat): seq<Byte>
    requires bpf > 0 && |junk| == |ops| && c < |a.queues|
  {
    if ops == [] then []
    else
      var n := |ops| - 1;
      var b := RunState(a, ops[..n], length, bpf, junk[..n]);
      Removed(a, ops[..n], length, bpf, junk[..n], c) + FirstBytes(b.queues[c], Takes(b, ops[n], bpf))
  }

  lemma SplitBytes(q: seq<Byte>, n: nat)
    ensures FirstBytes(q, n) + BytesAfter(q, n) == q
  {
  }

  lemma OneStep(a: State, op: Op, length: nat, bpf: nat, junk: seq<seq<Byte>>, c: nat)
    requires bpf > 0 && c < |a.queues|
    ensures FirstBytes(a.queues[c], Takes(a, op, bpf)) + Next(a, op, length, bpf, junk).queues[c]
         == a.queues[c] + Adds(a, op, c)
  {
    hide NextBlocks, NextPrep, Product, Whole, Held;
    if op.ProduceList? {
      assert Takes(a, op, bpf) == 0;
    } else {
      assert a.queues[c] + [] == a.queues[c];
      SplitBytes(a.queues[c], Takes(a, op, bpf));
    }
  }

  /** On every channel, what was queued and what was produced is what left and what is queued now. */
  lemma {:induction false} Conservation(a: State, ops: seq<Op>, length: nat, bpf: nat, junk: seq<seq<seq<Byte>>>,
                                        c: nat)
    requires bpf > 0 && |junk| == |ops| && c < |a.queues|
    ensures Removed(a, ops, length, bpf, junk, c) + RunState(a, ops, length, bpf, junk).queues[c]
         == a.queues[c] + Produced(a, ops, length, bpf, junk, c)
    decreases |ops|
  {
    hide Next, Adds, Takes;
    if ops == [] {
      assert [] + a.queues[c] == a.queues[c] + [];
    } else {
      var n := |ops| - 1;
      Conservation(a, ops[..n], length, bpf, junk[..n], c);
      var b := RunState(a, ops[..n], length, bpf, junk[..n]);
      OneStep(b, ops[n], length, bpf, junk[n], c);
      var r, f := Removed(a, ops[..n], length, bpf, junk[..n], c), FirstBytes(b.queues[c], Takes(b, ops[n], bpf));
      Assoc(r, f, Next(b, ops[n], length, bpf, junk[n]).queues[c]);
      Assoc(r, b.queues[c], Adds(b, ops[n], c));
      Assoc(a.queues[c], Produced(a, ops[..n], length, bpf, junk[..n], c), Adds(b, ops[n], c));
    }
  }

  /** Audio leaves by dequeuing only, in whole frames. */
  predicate OnlyDequeues(op: Op, bpf: nat)
    requires bpf > 0
  {
    !op.ConsumeList? && !op.ConsumeFrames? && (op.DequeueFrames? ==> Product(op.wanted, bpf) % bpf == 0)
  }

  lemma DequeuePlays(a: State, op: Op, length: nat, bpf: nat, channels: nat, c: nat)
    requires bpf > 0 && Consistent(a, channels, bpf) && c < channels && OnlyDequeues(op, bpf)
    ensures PlayedOn([Answer(a, op, length, bpf)], c) == FirstBytes(a.queues[c], Takes(a, op, bpf))
  {
    hide Product, Whole, Reported, Held, WholeBlocks, Regular;
    var r := Answer(a, op, length, bpf);
    assert [r][..0] == [];
    if op.DequeueFrames? {
      var w := Product(op.wanted, bpf);
      HeldWhole(a.blocks, bpf);
      MultipleIsWhole(w, bpf);
      MultipleIsWhole(Held(a.blocks), bpf);
      assert r.data[c] == FirstBytes(a.queues[c], w);
      assert [] + r.data[c] == r.data[c];
    }
  }

  lemma PlayedMore(rs: seq<Reply>, r: Reply, c: nat)
    ensures PlayedOn(rs + [r], c) == PlayedOn(rs, c) + PlayedOn([r], c)
  {
    assert (rs + [r])[..|rs|] == rs && [r][..0] == [];
    assert PlayedOn([r], c) == [] + if r.Played? && c < |r.data| then r.data[c] else [];
  }

  lemma {:induction false} PlayedIsRemoved(a: State, ops: seq<Op>, length: nat, bpf: nat, junk: seq<seq<seq<Byte>>>,
                                           channels: nat, c: nat)
    requires bpf > 0 && Consistent(a, channels, bpf) && Orderly(ops, junk, channels, bpf) && c < channels
    requires forall k :: 0 <= k < |ops| ==> OnlyDequeues(ops[k], bpf)
    ensures PlayedOn(Replies(a, ops, length, bpf, junk), c) == Removed(a, ops, length, bpf, junk, c)
    decreases |ops|
  {
    hide Consistent, Answer, Takes, OnlyDequeues, Proper, Sized, RunState;
    if ops != [] {
      var n := |ops| - 1;
      PlayedIsRemoved(a, ops[..n], length, bpf, junk[..n], channels, c);
      RunKeeps(a, ops[..n], length, bpf, junk[..n], channels);
      var b := RunState(a, ops[..n], length, bpf, junk[..n]);
      DequeuePlays(b, ops[n], length, bpf, channels, c);
      PlayedMore(Replies(a, ops[..n], length, bpf, junk[..n]), Answer(b, ops[n], length, bpf), c);
    }
  }

  /** From an empty ring, with audio leaving by dequeuing only: on every channel, what was played and what is
      still queued is what was produced, byte for byte and in order. */
  lemma FirstInFirstOut(a: State, ops: seq<Op>, length: nat, bpf: nat, junk: seq<seq<seq<Byte>>>, channels: nat, c: nat)
    requires bpf > 0 && Consistent(a, channels, bpf) && Orderly(ops, junk, channels, bpf) && c < channels
    requires a.queues[c] == [] && forall k :: 0 <= k < |ops| ==> OnlyDequeues(ops[k], bpf)
    ensures PlayedOn(Replies(a, ops, length, bpf, junk), c) + RunState(a, ops, length, bpf, junk).queues[c]
         == Produced(a, ops, length, bpf, junk, c)
  {
    hide Removed, Produced, RunState, Replies, OnlyDequeues, PlayedOn, Proper, Sized;
    PlayedIsRemoved(a, ops, length, bpf, junk, channels, c);
    Conservation(a, ops, length, bpf, junk, c);
    assert [] + Produced(a, ops, length, bpf, junk, c) == Produced(a, ops, length, bpf, junk, c);
  }

  /** No product of frames and bytes per frame wraps. */
  predicate NoWrap(op: Op, bpf: nat) { op.DequeueFrames? ==> op.wanted * bpf < U32 }

  lemma AnswerCounts(a: State, op: Op, length: nat, bpf: nat, channels: nat, c: nat)
    requires bpf > 0 && Consistent(a, channels, bpf) && c < channels && NoWrap(op, bpf)
    ensures var r := Answer(a, op, length, bpf);
            FramesReported([r]) * bpf == |PlayedOn([r], c)|
  {
    hide Product, WholeBlocks, Regular, Held;
    var r := Answer(a, op, length, bpf);
    assert [r][..0] == [] && FramesReported([]) == 0;
    if op.DequeueFrames? {
      HeldWhole(a.blocks, bpf);
      SmallProduct(op.wanted, bpf);
      RightCount(op.wanted, bpf, Held(a.blocks));
      assert FramesReported([r]) == r.frames;
      assert [] + r.data[c] == r.data[c];
    } else {
      assert FramesReported([r]) == 0 && PlayedOn([r], c) == [];
    }
  }

  /** When no product wraps, the frames reported are the frames played, on every channel. */
  lemma {:induction false} CountsAddUp(a: State, ops: seq<Op>, length: nat, bpf: nat, junk: seq<seq<seq<Byte>>>,
                                       channels: nat, c: nat)
    requires bpf > 0 && Consistent(a, channels, bpf) && Orderly(ops, junk, channels, bpf) && c < channels
    requires forall k :: 0 <= k < |ops| ==> NoWrap(ops[k], bpf)
    ensures FramesReported(Replies(a, ops, length, bpf, junk)) * bpf
         == |PlayedOn(Replies(a, ops, length, bpf, junk), c)|
    decreases |ops|
  {
    hide Consistent, Answer, NoWrap, Proper, Sized, RunState;
    if ops != [] {
      var n := |ops| - 1;
      CountsAddUp(a, ops[..n], length, bpf, junk[..n], channels, c);
      RunKeeps(a, ops[..n], length, bpf, junk[..n], channels);
      var b := RunState(a, ops[..n], length, bpf, junk[..n]);
      AnswerCounts(b, ops[n], length, bpf, channels, c);
      CountedMore(Replies(a, ops[..n], length, bpf, junk[..n]), Answer(b, ops[n], length, bpf), bpf, c);
    }
  }

  lemma CountedMore(rs: seq<Reply>, r: Reply, bpf: nat, c: nat)
    requires FramesReported(rs) * bpf == |PlayedOn(rs, c)| && FramesReported([r]) * bpf == |PlayedOn([r], c)|
    ensures FramesReported(rs + [r]) * bpf == |PlayedOn(rs + [r], c)|
  {
    PlayedMore(rs, r, c);
    assert (rs + [r])[..|rs|] == rs && [r][..0] == [];
    assert FramesReported(rs + [r]) == FramesReported(rs) + FramesReported([r]);
    Distributes(FramesReported(rs), FramesReported([r]), bpf);
  }

  lemma Distributes(x: int, y: int, b: nat)
    ensures (x + y) * b == x * b + y * b
  {
  }
}
