/** The sample times of queued audio: what is dequeued carries the time at which it was to be played. */
module AudioTime {
  import opened Common
  import opened AudioBlocks
  import opened AudioQueues
  import opened AudioDequeues
  import opened AudioModel

  // ---- frames ----

  lemma FramesAdd(x: nat, y: nat, b: nat)
    requires b > 0 && x % b == 0
    ensures FramesIn(x + y, b) == FramesIn(x, b) + FramesIn(y, b)
  {
    DivSplit(x, b);
    DivSplit(y, b);
    DivSplit(x + y, b);
    MulDistributes(x / b, y / b, b);
    Remainder(b, (x + y) / b, (x + y) % b, x / b + y / b, y % b);
  }

  lemma FramesOfProduct(frames: nat, b: nat)
    requires b > 0
    ensures FramesIn(frames * b, b) == frames && frames * b % b == 0 && FramesIn(0, b) == 0
  {
    DivExact(frames * b, b, frames);
    DivExact(0, b, 0);
  }

  lemma FramesOfWhole(x: nat, b: nat)
    requires b > 0
    ensures FramesIn(Whole(x, b), b) == FramesIn(x, b)
  {
    DivSplit(x, b);
    DivExact(x - x % b, b, x / b);
  }

  // ---- blocks in time ----

  /** Each block is stamped with the time at which the one before it ends; the first with `now`. */
  predicate Timeline(blocks: seq<Extent>, now: int, bpf: nat)
    requires bpf > 0
    decreases |blocks|
  {
    blocks != [] ==>
      blocks[0].stamp == Stamp(true, now) && Timeline(blocks[1..], now + FramesIn(blocks[0].size, bpf), bpf)
  }

  lemma {:induction false} TimelineAppend(blocks: seq<Extent>, now: int, b: Extent, bpf: nat)
    requires bpf > 0 && Timeline(blocks, now, bpf) && WholeBlocks(blocks, bpf)
    requires b.stamp == Stamp(true, now + FramesIn(Held(blocks), bpf))
    ensures Timeline(blocks + [b], now, bpf)
    decreases |blocks|
  {
    hide FramesIn;
    FramesOfProduct(0, bpf);
    if blocks == [] {
      assert blocks + [b] == [b] && [b][1..] == [];
    } else {
      assert (blocks + [b])[1..] == blocks[1..] + [b];
      FramesAdd(blocks[0].size, Held(blocks[1..]), bpf);
      TimelineAppend(blocks[1..], now + FramesIn(blocks[0].size, bpf), b, bpf);
    }
  }

  /** Consuming from the first block: what is left of it begins as many frames later. */
  lemma ConsumedInTime(blocks: seq<Extent>, now: int, frames: nat, bytes: nat, bpf: nat)
    requires bpf > 0 && blocks != [] && Timeline(blocks, now, bpf) && bytes % bpf == 0 && bytes <= blocks[0].size
    requires bytes < blocks[0].size ==> FramesIn(bytes, bpf) == frames
    ensures Timeline(Consumed(blocks, frames, bytes), now + FramesIn(bytes, bpf), bpf)
  {
    hide FramesIn;
    if bytes < blocks[0].size {
      var rest := Consumed(blocks, frames, bytes);
      assert rest[1..] == blocks[1..];
      FramesAdd(bytes, blocks[0].size - bytes, bpf);
    }
  }

  lemma {:induction false} DrawInTime(blocks: seq<Extent>, now: int, wanted: nat, bpf: nat)
    requires bpf > 0 && Timeline(blocks, now, bpf) && WholeBlocks(blocks, bpf)
    ensures Timeline(Draw(blocks, wanted, bpf), now + FramesIn(Min(wanted, Held(blocks)), bpf), bpf)
    decreases |blocks|
  {
    hide FramesIn, Whole, Consumed, WholeBlocks;
    FramesOfProduct(0, bpf);
    OneBlockLess(blocks, bpf);
    if wanted == 0 || blocks == [] {
    } else if wanted >= blocks[0].size {
      FramesAdd(blocks[0].size, Min(wanted - blocks[0].size, Held(blocks[1..])), bpf);
      DrawInTime(blocks[1..], now + FramesIn(blocks[0].size, bpf), wanted - blocks[0].size, bpf);
    } else {
      WholeIsWhole(wanted, bpf);
      FramesOfWhole(wanted, bpf);
      ConsumedInTime(blocks, now, FramesIn(wanted, bpf), Whole(wanted, bpf), bpf);
    }
  }

  // ---- one operation ----

  /** No product of frames and bytes per frame wraps. */
  predicate Unwrapped(op: Op, bpf: nat)
  {
    (op.DequeueFrames? ==> op.wanted * bpf < U32) && (op.ConsumeFrames? ==> op.frames * bpf < U32)
  }

  /** The list that is produced, if one is, is stamped with this time: by the producing call or, without a stamp
      there, by the preparing one. */
  predicate ProducedAt(a: State, op: Op, time: int)
  {
    op.ProduceList? && a.prep.Some? && a.prep.value.bufs != [] ==>
      (match op.newStamp case Some(s) => s case None => a.prep.value.stamp) == Stamp(true, time)
  }

  lemma StepInTime(a: State, op: Op, bpf: nat, channels: nat, now: int)
    requires bpf > 0 && Consistent(a, channels, bpf) && Proper(op, channels, bpf) && Unwrapped(op, bpf)
    requires Timeline(a.blocks, now, bpf) && ProducedAt(a, op, now + FramesIn(Held(a.blocks), bpf))
    ensures Timeline(NextBlocks(a, op, bpf), now + FramesIn(Takes(a, op, bpf), bpf), bpf)
  {
    hide Product, Align, Draw, Whole, WholeBlocks, Consumed, FramesIn, Regular;
    FramesOfProduct(0, bpf);
    OneBlockLess(a.blocks, bpf);
    match op {
      case ProduceList(stamp) =>
        if a.prep.Some? && a.prep.value.bufs != [] {
          TimelineAppend(a.blocks, now, Made(a.prep.value, stamp), bpf);
        }
      case ConsumeFrames(frames) =>
        SmallProduct(frames, bpf);
        FramesOfProduct(frames, bpf);
        if a.blocks != [] {
          ConsumedInTime(a.blocks, now, frames, Takes(a, op, bpf), bpf);
        } else {
          NoneConsumed(frames, bpf);
        }
      case DequeueFrames(wanted, _) =>
        DrawInTime(a.blocks, now, Product(wanted, bpf), bpf);
        FramesOfWhole(Min(Product(wanted, bpf), Held(a.blocks)), bpf);
      case _ =>
    }
  }

  /** The stamp of a prepared list is the one it was prepared with, whatever happens before it is produced. */
  lemma PrepStamp(a: State, op: Op, length: nat, junk: seq<seq<Byte>>)
    ensures var p := NextPrep(a, op, length, junk);
            p.Some? ==>
              if op.PrepareList? then p.value.stamp == (if op.stamp.Some? then op.stamp.value else Stamp(false, 0))
              else a.prep.Some? && p.value.stamp == a.prep.value.stamp
  {
    hide Align, BlockLength, Place;
  }

  // ---- runs ----

  /** Frames that have left since the run began */
  function FramesGone(a: State, ops: seq<Op>, length: nat, bpf: nat, junk: seq<seq<seq<Byte>>>): nat
    requires bpf > 0 && |junk| == |ops| && |a.queues| > 0
  {
    FramesIn(|Removed(a, ops, length, bpf, junk, 0)|, bpf)
  }

  /** The producer stamps every list with the time that the frames before it make up: those queued when the run
      began, at `start`, and all those produced since. */
  predicate OnTime(a: State, ops: seq<Op>, length: nat, bpf: nat, junk: seq<seq<seq<Byte>>>, start: int)
    requires bpf > 0 && |junk| == |ops| && |a.queues| > 0
  {
    forall k :: 0 <= k < |ops| ==>
      ProducedAt(RunState(a, ops[..k], length, bpf, junk[..k]), ops[k],
                 start + FramesIn(|a.queues[0]| + |Produced(a, ops[..k], length, bpf, junk[..k], 0)|, bpf))
  }

  lemma TakesWhole(a: State, op: Op, bpf: nat, channels: nat)
    requires bpf > 0 && Consistent(a, channels, bpf) && Proper(op, channels, bpf) && channels > 0
    ensures Takes(a, op, bpf) % bpf == 0 && |FirstBytes(a.queues[0], Takes(a, op, bpf))| == Takes(a, op, bpf)
  {
    hide Product, WholeBlocks, Held, Whole, Regular;
    DivExact(0, bpf, 0);
    NextHeld(a, op, bpf, channels);
    OneBlockLess(a.blocks, bpf);
    match op {
      case DequeueFrames(wanted, _) =>
        WholeIsWhole(Min(Product(wanted, bpf), Held(a.blocks)), bpf);
      case _ =>
    }
  }

  lemma Prefixes<T>(xs: seq<T>, n: nat, k: nat)
    requires k <= n <= |xs|
    ensures xs[..n][..k] == xs[..k]
  {
  }

  lemma OnTimePrefix(a: State, ops: seq<Op>, length: nat, bpf: nat, junk: seq<seq<seq<Byte>>>, start: int, n: nat)
    requires bpf > 0 && |junk| == |ops| && |a.queues| > 0 && n <= |ops| && OnTime(a, ops, length, bpf, junk, start)
    ensures OnTime(a, ops[..n], length, bpf, junk[..n], start)
  {
    hide ProducedAt, RunState, Produced, FramesIn;
    forall k | 0 <= k < n
      ensures ProducedAt(RunState(a, ops[..n][..k], length, bpf, junk[..n][..k]), ops[..n][k],
                start + FramesIn(|a.queues[0]| + |Produced(a, ops[..n][..k], length, bpf, junk[..n][..k], 0)|, bpf))
    {
      Prefixes(ops, n, k);
      Prefixes(junk, n, k);
    }
  }

  lemma HasQueues(a: State, channels: nat, bpf: nat)
    requires bpf > 0 && channels > 0 && Consistent(a, channels, bpf)
    ensures |a.queues| > 0
  {
  }

  /** What the last operation of a run does to the blocks and to what has gone */
  lemma LastStep(a: State, ops: seq<Op>, length: nat, bpf: nat, junk: seq<seq<seq<Byte>>>, channels: nat)
    requires bpf > 0 && channels > 0 && Consistent(a, channels, bpf) && Orderly(ops, junk, channels, bpf) && ops != []
    ensures var n := |ops| - 1;
            var b := RunState(a, ops[..n], length, bpf, junk[..n]);
            && Consistent(b, channels, bpf) && Takes(b, ops[n], bpf) % bpf == 0
            && RunState(a, ops, length, bpf, junk).blocks == NextBlocks(b, ops[n], bpf)
            && |Removed(a, ops, length, bpf, junk, 0)|
                 == |Removed(a, ops[..n], length, bpf, junk[..n], 0)| + Takes(b, ops[n], bpf)
  {
    hide Consistent, Takes, NextBlocks, Proper, Sized, NextPrep, Adds;
    HasQueues(a, channels, bpf);
    var n := |ops| - 1;
    RunKeeps(a, ops[..n], length, bpf, junk[..n], channels);
    TakesWhole(RunState(a, ops[..n], length, bpf, junk[..n]), ops[n], bpf, channels);
  }

  /** Through every run the queue stays on its timeline, as far on as frames have gone. */
  lemma {:induction false} RunInTime(a: State, ops: seq<Op>, length: nat, bpf: nat, junk: seq<seq<seq<Byte>>>,
                                     channels: nat, start: int)
    requires bpf > 0 && channels > 0 && Consistent(a, channels, bpf) && Orderly(ops, junk, channels, bpf)
    requires forall k :: 0 <= k < |ops| ==> Unwrapped(ops[k], bpf)
    requires Timeline(a.blocks, start, bpf) && OnTime(a, ops, length, bpf, junk, start)
    requires |junk| == |ops|
    ensures |Removed(a, ops, length, bpf, junk, 0)| % bpf == 0
    ensures Timeline(RunState(a, ops, length, bpf, junk).blocks, start + FramesGone(a, ops, length, bpf, junk), bpf)
    decreases |ops|
  {
    hide *;
    HasQueues(a, channels, bpf);
    if ops == [] {
      assert junk == [];
      NothingGone(a, length, bpf, start);
    } else {
      var n := |ops| - 1;
      var b, gone := RunState(a, ops[..n], length, bpf, junk[..n]), |Removed(a, ops[..n], length, bpf, junk[..n], 0)|;
      OnTimePrefix(a, ops, length, bpf, junk, start, n);
      OrderlyPrefix(ops, junk, channels, bpf);
      RunInTime(a, ops[..n], length, bpf, junk[..n], channels, start);
      LastStep(a, ops, length, bpf, junk, channels);
      LastProduced(a, ops, length, bpf, junk, channels, start);
      StepInTime(b, ops[n], bpf, channels, start + FramesGone(a, ops[..n], length, bpf, junk[..n]));
      FramesAdd(gone, Takes(b, ops[n], bpf), bpf);
      MultipleSum(gone, Takes(b, ops[n], bpf), bpf);
      GoneIs(a, ops, length, bpf, junk);
      GoneIs(a, ops[..n], length, bpf, junk[..n]);
    }
  }

  lemma OrderlyPrefix(ops: seq<Op>, junk: seq<seq<seq<Byte>>>, channels: nat, bpf: nat)
    requires bpf > 0 && Orderly(ops, junk, channels, bpf) && ops != []
    ensures var n := |ops| - 1; |junk| == |ops| && Orderly(ops[..n], junk[..n], channels, bpf)
    ensures Proper(ops[|ops| - 1], channels, bpf)
  {
    hide Proper, Sized;
  }

  lemma GoneIs(a: State, ops: seq<Op>, length: nat, bpf: nat, junk: seq<seq<seq<Byte>>>)
    requires bpf > 0 && |junk| == |ops| && |a.queues| > 0
    ensures FramesGone(a, ops, length, bpf, junk) == FramesIn(|Removed(a, ops, length, bpf, junk, 0)|, bpf)
  {
  }

  lemma NothingGone(a: State, length: nat, bpf: nat, start: int)
    requires bpf > 0 && |a.queues| > 0
    ensures |Removed(a, [], length, bpf, [], 0)| % bpf == 0 && FramesGone(a, [], length, bpf, []) == 0
    ensures RunState(a, [], length, bpf, []) == a
  {
    FramesOfProduct(0, bpf);
  }

  /** In terms of the queue: the last list is stamped with the time at which what is queued ends. */
  lemma LastProduced(a: State, ops: seq<Op>, length: nat, bpf: nat, junk: seq<seq<seq<Byte>>>, channels: nat,
                     start: int)
    requires bpf > 0 && channels > 0 && Consistent(a, channels, bpf) && Orderly(ops, junk, channels, bpf) && ops != []
    requires OnTime(a, ops, length, bpf, junk, start)
    requires var n := |ops| - 1; |Removed(a, ops[..n], length, bpf, junk[..n], 0)| % bpf == 0
    ensures var n := |ops| - 1;
            var b := RunState(a, ops[..n], length, bpf, junk[..n]);
            ProducedAt(b, ops[n], start + FramesGone(a, ops[..n], length, bpf, junk[..n])
                                  + FramesIn(Held(b.blocks), bpf))
  {
    hide RunState, Removed, Produced, FramesIn, ProducedAt, Held, Proper, Sized;
    var n := |ops| - 1;
    var b := RunState(a, ops[..n], length, bpf, junk[..n]);
    RunKeeps(a, ops[..n], length, bpf, junk[..n], channels);
    Conservation(a, ops[..n], length, bpf, junk[..n], 0);
    var gone := |Removed(a, ops[..n], length, bpf, junk[..n], 0)|;
    FramesAdd(gone, Held(b.blocks), bpf);
    assert gone + |b.queues[0]| == |a.queues[0]| + |Produced(a, ops[..n], length, bpf, junk[..n], 0)|;
  }

  /** A dequeuing call that plays anything reports the time of the first frame it plays. */
  lemma PlayedStamp(a: State, op: Op, length: nat, bpf: nat, channels: nat, now: int)
    requires bpf > 0 && channels > 0 && Consistent(a, channels, bpf) && Timeline(a.blocks, now, bpf)
    ensures var r := Answer(a, op, length, bpf);
            r.Played? && r.data[0] != [] ==> r.stamp == Some(Stamp(true, now))
  {
    hide Product, Reported, WholeBlocks, Regular, FramesIn;
  }

  /** Audio that was stamped on time is played on time: whatever is dequeued comes with the start of the timeline
      plus the frames that have gone before it. */
  lemma PlayedInTime(a: State, ops: seq<Op>, length: nat, bpf: nat, junk: seq<seq<seq<Byte>>>, channels: nat,
                     start: int, k: nat)
    requires bpf > 0 && channels > 0 && Consistent(a, channels, bpf) && Orderly(ops, junk, channels, bpf)
    requires forall j :: 0 <= j < |ops| ==> Unwrapped(ops[j], bpf)
    requires Timeline(a.blocks, start, bpf) && OnTime(a, ops, length, bpf, junk, start)
    requires k < |ops|
    ensures var r := Replies(a, ops, length, bpf, junk)[k];
            r.Played? && |r.data| > 0 && r.data[0] != [] ==>
              r.stamp == Some(Stamp(true, start + FramesGone(a, ops[..k], length, bpf, junk[..k])))
  {
    hide Consistent, Answer, Proper, Sized, RunState, Timeline, OnTime, Unwrapped, FramesGone;
    HasQueues(a, channels, bpf);
    OnTimePrefix(a, ops, length, bpf, junk, start, k);
    RunInTime(a, ops[..k], length, bpf, junk[..k], channels, start);
    RunKeeps(a, ops[..k], length, bpf, junk[..k], channels);
    var b := RunState(a, ops[..k], length, bpf, junk[..k]);
    ReplyAt(a, ops, length, bpf, junk, k);
    PlayedStamp(b, ops[k], length, bpf, channels, start + FramesGone(a, ops[..k], length, bpf, junk[..k]));
  }

  lemma {:induction false} ReplyAt(a: State, ops: seq<Op>, length: nat, bpf: nat, junk: seq<seq<seq<Byte>>>, k: nat)
    requires bpf > 0 && |junk| == |ops| && k < |ops|
    ensures Replies(a, ops, length, bpf, junk)[k]
         == Answer(RunState(a, ops[..k], length, bpf, junk[..k]), ops[k], length, bpf)
    decreases |ops|
  {
    hide Answer, RunState;
    var n := |ops| - 1;
    if k < n {
      ReplyAt(a, ops[..n], length, bpf, junk[..n], k);
      Prefixes(ops, n, k);
      Prefixes(junk, n, k);
    }
  }

  /** When audio leaves by dequeuing only, the frames that have gone are the frames reported. */
  lemma GoneIsReported(a: State, ops: seq<Op>, length: nat, bpf: nat, junk: seq<seq<seq<Byte>>>, channels: nat)
    requires bpf > 0 && channels > 0 && Consistent(a, channels, bpf) && Orderly(ops, junk, channels, bpf)
    requires forall j :: 0 <= j < |ops| ==> OnlyDequeues(ops[j], bpf) && NoWrap(ops[j], bpf)
    ensures FramesGone(a, ops, length, bpf, junk) == FramesReported(Replies(a, ops, length, bpf, junk))
  {
    hide Consistent, Proper, Sized, RunState, Replies, OnlyDequeues, NoWrap, FramesIn, FramesReported, PlayedOn,
         Removed;
    PlayedIsRemoved(a, ops, length, bpf, junk, channels, 0);
    CountsAddUp(a, ops, length, bpf, junk, channels, 0);
    var f := FramesReported(Replies(a, ops, length, bpf, junk));
    NotNegative(f, bpf);
    FramesOfProduct(f, bpf);
  }

  lemma NotNegative(x: int, b: nat)
    requires b > 0 && x * b >= 0
    ensures x >= 0
  {
  }

  lemma DequeuesUnwrapped(op: Op, bpf: nat)
    requires bpf > 0 && OnlyDequeues(op, bpf) && NoWrap(op, bpf)
    ensures Unwrapped(op, bpf)
  {
  }

  /** Between any two dequeuing calls that play something, the stamps they report are as far apart as the frames
      reported from the first up to the second. */
  lemma StampsKeepStep(a: State, ops: seq<Op>, length: nat, bpf: nat, junk: seq<seq<seq<Byte>>>, channels: nat,
                       start: int, i: nat, k: nat)
    requires bpf > 0 && channels > 0 && Consistent(a, channels, bpf) && Orderly(ops, junk, channels, bpf)
    requires forall j :: 0 <= j < |ops| ==> OnlyDequeues(ops[j], bpf) && NoWrap(ops[j], bpf)
    requires Timeline(a.blocks, start, bpf) && OnTime(a, ops, length, bpf, junk, start) && i <= k < |ops|
    ensures var rs := Replies(a, ops, length, bpf, junk);
            Plays(rs[i]) && Plays(rs[k]) ==>
              && rs[i].stamp.Some? && rs[k].stamp.Some?
              && rs[k].stamp.value.sampleTime - rs[i].stamp.value.sampleTime
                  == FramesReported(rs[..k]) - FramesReported(rs[..i])
  {
    hide Consistent, Proper, Sized, RunState, Timeline, OnTime, OnlyDequeues, NoWrap, FramesGone, Replies,
         FramesReported, Unwrapped;
    forall j | 0 <= j < |ops|
      ensures Unwrapped(ops[j], bpf)
    {
      DequeuesUnwrapped(ops[j], bpf);
    }
    PlayedInTime(a, ops, length, bpf, junk, channels, start, i);
    PlayedInTime(a, ops, length, bpf, junk, channels, start, k);
    GoneIsReported(a, ops[..i], length, bpf, junk[..i], channels);
    GoneIsReported(a, ops[..k], length, bpf, junk[..k], channels);
    FirstReplies(a, ops, length, bpf, junk, i);
    FirstReplies(a, ops, length, bpf, junk, k);
  }

  predicate Plays(r: Reply) { r.Played? && |r.data| > 0 && r.data[0] != [] }

  lemma {:induction false} FirstReplies(a: State, ops: seq<Op>, length: nat, bpf: nat, junk: seq<seq<seq<Byte>>>,
                                        k: nat)
    requires bpf > 0 && |junk| == |ops| && k <= |ops|
    ensures Replies(a, ops, length, bpf, junk)[..k] == Replies(a, ops[..k], length, bpf, junk[..k])
    decreases |ops|
  {
    hide Answer, RunState;
    if k < |ops| {
      var n := |ops| - 1;
      FirstReplies(a, ops[..n], length, bpf, junk[..n], k);
      Prefixes(ops, n, k);
      Prefixes(junk, n, k);
      assert Replies(a, ops, length, bpf, junk)[..k] == Replies(a, ops[..n], length, bpf, junk[..n])[..k];
    } else {
      assert ops[..k] == ops && junk[..k] == junk;
    }
  }
}
