/** Reading in pieces: how the socket splits the byte stream does not matter. */
module WebSocketChunks {
  import opened Common
  import opened WebSocketFrames

  // ---- memory behind the buffer ----

  lemma {:induction false} BigEndianInside(buf: seq<Byte>, t: seq<Byte>, off: nat, n: nat, b: Beyond, c: Beyond)
    requires off + n <= |buf|
    ensures BigEndian(buf, off, n, b) == BigEndian(buf + t, off, n, c)
  {
    if n > 0 { BigEndianInside(buf, t, off, n - 1, b, c); }
  }

  lemma LengthInside(buf: seq<Byte>, t: seq<Byte>, b: Beyond, c: Beyond)
    requires |buf| >= 2 && Offset(buf[1]) <= |buf|
    ensures DataLength(buf, b) == DataLength(buf + t, c)
  {
    hide BigEndian;
    if buf[1] % 128 == 127 { BigEndianInside(buf, t, 2, 8, b, c); }
    if buf[1] % 128 == 126 { BigEndianInside(buf, t, 2, 2, b, c); }
  }

  lemma ContentsInside(cfg: Config, buf: seq<Byte>, t: seq<Byte>, off: nat, n: nat, code: nat)
    requires buf != [] && off + n <= |buf|
    ensures Contents(cfg, buf + t, off, n, code) == Contents(cfg, buf, off, n, code)
  {
    assert (buf + t)[off..off + n] == buf[off..off + n];
    if n >= 2 { assert (buf + t)[off + 2..off + n] == buf[off + 2..off + n]; }
  }

  /** Too short a buffer for the extended length is too short for the frame, whatever length is read. */
  lemma ReadFrameStep(cfg: Config, buf: seq<Byte>, b: Beyond)
    requires |buf| >= 2
    ensures ReadFrame(cfg, buf, b)
         == match Judge(buf[0], buf[1])
            case Quit(code) => Closing(code)
            case Oversized => Dropped
            case Fine =>
              if |buf| < Offset(buf[1]) || |buf| < Offset(buf[1]) + DataLength(buf, b) then More
              else Contents(cfg, buf, Offset(buf[1]), DataLength(buf, b), BigEndian(buf, 2, 2, b))
  {
    hide BigEndian, DataLength, Contents, Judge;
  }

  /** A frame that is complete in a buffer is the same frame when more follows, and what is behind
      the buffer never matters once two bytes are there. */
  lemma CompleteStays(cfg: Config, buf: seq<Byte>, t: seq<Byte>, b: Beyond, c: Beyond)
    requires |buf| >= 2
    ensures !ReadFrame(cfg, buf, b).More? ==> ReadFrame(cfg, buf + t, c) == ReadFrame(cfg, buf, b)
    ensures ReadFrame(cfg, buf + t, c).More? ==> ReadFrame(cfg, buf, b).More?
  {
    hide DataLength, BigEndian, Contents, ReadFrame, Judge;
    ReadFrameStep(cfg, buf, b);
    ReadFrameStep(cfg, buf + t, c);
    var off := Offset(buf[1]);
    if off <= |buf| {
      LengthInside(buf, t, b, c);
      var n := DataLength(buf, b);
      CodeInside(cfg, buf, t, b, c, off, n);
      if off + n <= |buf| {
        ContentsInside(cfg, buf, t, off, n, BigEndian(buf, 2, 2, b));
      }
    }
  }

  /** The code bytes are inside a complete close frame; other frames do not use them. */
  lemma CodeInside(cfg: Config, buf: seq<Byte>, t: seq<Byte>, b: Beyond, c: Beyond, off: nat, n: nat)
    requires |buf| >= 2 && off == Offset(buf[1]) && n == DataLength(buf, b)
    ensures off + n <= |buf| && Judge(buf[0], buf[1]).Fine? ==>
      Contents(cfg, buf + t, off, n, BigEndian(buf, 2, 2, b))
          == Contents(cfg, buf + t, off, n, BigEndian(buf + t, 2, 2, c))
  {
    hide BigEndian, CloseCode;
    if |buf| >= 4 { BigEndianInside(buf, t, 2, 2, b, c); }
  }

  lemma SameFrame(cfg: Config, buf: seq<Byte>, b: Beyond, c: Beyond)
    requires |buf| >= 2
    ensures ReadFrame(cfg, buf, b) == ReadFrame(cfg, buf, c)
  {
    hide ReadFrame;
    CompleteStays(cfg, buf, [], b, c);
    CompleteStays(cfg, buf, [], c, b);
    assert buf + [] == buf;
  }

  /** Out-of-range reads never influence the result, except through a lone first byte. */
  lemma BeyondIsIrrelevant(cfg: Config, p: Parser, buf: seq<Byte>, b: Beyond, c: Beyond)
    requires p.stack != [] || |buf| != 1
    ensures Next(cfg, p, buf, b) == Next(cfg, p, buf, c)
  {
    hide ReadFrame, Apply;
    if |buf| >= 2 { SameFrame(cfg, buf, b, c); }
  }

  /** A lone first byte decides on its own exactly when it starts a pong, carries a reserved bit,
      has an unknown opcode, or begins a fragmented control frame. */
  predicate DecidesAlone(b0: Byte)
  {
    var op := b0 % 16;
    op == 10 || b0 / 16 % 8 != 0 || op !in {0, 1, 2, 8, 9, 10} || (op in {8, 9} && b0 < 128)
  }

  function Const(b: Byte): Beyond { (i: nat) => b }

  lemma LoneByteParse(cfg: Config, b0: Byte, b1: Byte)
    ensures ReadFrame(cfg, [b0], Const(b1))
         == match Judge(b0, b1) case Quit(code) => Closing(code) case Oversized => Dropped case Fine => More
  {
    hide BigEndian;
  }

  lemma LoneByteExactly(cfg: Config, p: Parser, b0: Byte)
    requires p.stack == []
    ensures DecidesAlone(b0) <==> forall b: Beyond, c: Beyond :: Next(cfg, p, [b0], b) == Next(cfg, p, [b0], c)
  {
    hide Apply;
    if DecidesAlone(b0) {
      forall b: Beyond, c: Beyond
        ensures Next(cfg, p, [b0], b) == Next(cfg, p, [b0], c)
      {
        LoneByteAnyway(cfg, b0, b);
        LoneByteAnyway(cfg, b0, c);
      }
    } else {
      LoneByteParse(cfg, b0, 5);
      LoneByteParse(cfg, b0, 128);
      assert Next(cfg, p, [b0], Const(5)).0.frag == Some([b0]);
      assert Next(cfg, p, [b0], Const(128)).0.events != p.events;
      assert Next(cfg, p, [b0], Const(5)).0.events == p.events;
    }
  }

  lemma LoneByteAnyway(cfg: Config, b0: Byte, b: Beyond)
    requires DecidesAlone(b0)
    ensures ReadFrame(cfg, [b0], b) == if b0 % 16 == 10 then More else Closing(1002)
  {
    hide BigEndian;
  }

  // ---- frames read off a byte stream ----

  function Zeros(): Beyond { (i: nat) => 0 }

  /** s is one valid close frame (section 5.5.1 of RFC 6455): no body, or a code and a reason. */
  predicate WholeClose(s: seq<Byte>)
  {
    |s| >= 2 && s[0] == 0x88 && s[1] <= 125 && s[1] != 1 && |s| == 2 + s[1]
  }

  /** All complete frames of s have been acted on and `rest` is the beginning of the next; or the last of
      them is the peer's close frame; or some frame was refused. */
  datatype Ran = Ran(p: Parser, rest: seq<Byte>) | Left(p: Parser, code: nat) | Refused

  function Run(cfg: Config, p: Parser, s: seq<Byte>): Ran
    decreases |s|
  {
    if |s| < 2 then Ran(p, s)
    else
      match ReadFrame(cfg, s, Zeros())
      case More => Ran(p, s)
      case Closing(code) => if WholeClose(s) then Left(p, code) else Refused
      case Whole(fin, op, payload, size) => (
        match Apply(cfg, p, fin, op, payload)
        case Continue(p') => Run(cfg, p', s[size..])
        case Halt(_) => Refused
      )
      case _ => Refused
  }

  /** What running s comes to when frame f is read at its front */
  function RunOn(cfg: Config, p: Parser, s: seq<Byte>, f: Frame): Ran
    requires f.Whole? ==> f.size <= |s|
  {
    if f.More? then Ran(p, s)
    else if f.Closing? && WholeClose(s) then Left(p, f.code)
    else if f.Whole? && Apply(cfg, p, f.fin, f.op, f.payload).Continue? then
      Run(cfg, Apply(cfg, p, f.fin, f.op, f.payload).p, s[f.size..])
    else Refused
  }

  lemma RunStep(cfg: Config, p: Parser, s: seq<Byte>, b: Beyond)
    requires |s| >= 2
    ensures Run(cfg, p, s) == RunOn(cfg, p, s, ReadFrame(cfg, s, b))
  {
    hide ReadFrame, Apply, WholeClose;
    SameFrame(cfg, s, b, Zeros());
  }

  lemma RunShort(cfg: Config, p: Parser, s: seq<Byte>)
    requires |s| < 2
    ensures Run(cfg, p, s) == Ran(p, s)
  {
  }

  /** A close frame is read when its last byte is there, and not before. */
  lemma CloseWaits(cfg: Config, a: seq<Byte>, t: seq<Byte>, b: Beyond)
    requires |a| >= 2 && t != [] && WholeClose(a + t)
    ensures ReadFrame(cfg, a, b).More? && !WholeClose(a)
  {
    hide BigEndian, Contents;
    assert (a + t)[0] == a[0] && (a + t)[1] == a[1];
  }

  /** Frames acted on before more bytes arrive are acted on in the same way. */
  lemma {:induction false} RunConcat(cfg: Config, p: Parser, a: seq<Byte>, b: seq<Byte>)
    requires !Run(cfg, p, a + b).Refused? && b != []
    ensures Run(cfg, p, a).Ran?
    ensures Run(cfg, p, a + b) == Run(cfg, Run(cfg, p, a).p, Run(cfg, p, a).rest + b)
    decreases |a|
  {
    hide Run, ReadFrame, Apply, WholeClose;
    if |a| < 2 {
      RunShort(cfg, p, a);
    } else {
      RunStep(cfg, p, a, Zeros());
      RunStep(cfg, p, a + b, Zeros());
      CompleteStays(cfg, a, b, Zeros(), Zeros());
      if WholeClose(a + b) { CloseWaits(cfg, a, b, Zeros()); }
      var f := ReadFrame(cfg, a, Zeros());
      if f.Whole? {
        assert (a + b)[f.size..] == a[f.size..] + b;
        RunConcat(cfg, Apply(cfg, p, f.fin, f.op, f.payload).p, a[f.size..], b);
      }
    }
  }

  /** The parser state with the unfinished rest put aside, or with the close frame answered */
  function Settled(cfg: Config, r: Ran): Parser
    requires !r.Refused?
  {
    if r.Left? then Leave(cfg, r.p, r.code)
    else r.p.(frag := if r.rest == [] then None else Some(r.rest))
  }

  /** Enough of a frame to be looked at safely */
  predicate Readable(p: Parser, buf: seq<Byte>)
  {
    |buf| >= 2 || (|buf| == 1 && (p.stack != [] || buf[0] % 16 == 10))
  }

  lemma ApplyFrag(cfg: Config, p: Parser, fin: bool, op: nat, payload: seq<Byte>)
    ensures Apply(cfg, p, fin, op, payload).p.frag == p.frag
  {
  }

  lemma NextIsRun(cfg: Config, p: Parser, buf: seq<Byte>, b: Beyond)
    requires |buf| >= 2 && !Run(cfg, p, buf).Refused? && p.frag == None
    ensures var (p', rest) := Next(cfg, p, buf, b);
            if ReadFrame(cfg, buf, b).Whole? then p'.frag == None && Run(cfg, p', rest) == Run(cfg, p, buf)
            else rest == [] && p' == Settled(cfg, Run(cfg, p, buf))
  {
    hide ReadFrame, Apply, Run, WholeClose, Leave;
    RunStep(cfg, p, buf, b);
    var f := ReadFrame(cfg, buf, b);
    if f.Whole? { ApplyFrag(cfg, p, f.fin, f.op, f.payload); }
  }

  lemma LoneByteWaits(cfg: Config, p: Parser, buf: seq<Byte>, b: Beyond)
    requires |buf| == 1 && Readable(p, buf)
    ensures Next(cfg, p, buf, b) == (p.(frag := Some(buf)), [])
  {
    hide Apply, DataLength;
  }

  /** Emptying a buffer acts on its complete frames and keeps the rest. */
  lemma {:induction false} DrainIsRun(cfg: Config, p: Parser, buf: seq<Byte>, b: Beyond)
    requires Readable(p, buf) && p.frag == None && !Run(cfg, p, buf).Refused?
    ensures Drain(cfg, p, buf, b) == Settled(cfg, Run(cfg, p, buf))
    decreases |buf|
  {
    hide ReadFrame, Apply, Run, Next, Leave;
    var (p', rest) := Next(cfg, p, buf, b);
    if |buf| == 1 {
      LoneByteWaits(cfg, p, buf, b);
      RunShort(cfg, p, buf);
    } else {
      NextIsRun(cfg, p, buf, b);
      if |rest| >= 2 {
        DrainIsRun(cfg, p', rest, b);
      } else {
        RunShort(cfg, p', rest);
      }
    }
  }

  // ---- chunks ----

  function Pending(p: Parser): seq<Byte>
  {
    if p.frag.Some? then p.frag.value else []
  }

  predicate Chunked(chunks: seq<seq<Byte>>, behind: seq<Beyond>)
  {
    |chunks| == |behind| && forall k :: 0 <= k < |chunks| ==> chunks[k] != []
  }

  function FeedAll(cfg: Config, p: Parser, chunks: seq<seq<Byte>>, behind: seq<Beyond>): Parser
    requires Chunked(chunks, behind)
    decreases |chunks|
  {
    if chunks == [] then p else FeedAll(cfg, Feed(cfg, p, chunks[0], behind[0]), chunks[1..], behind[1..])
  }

  function Join(chunks: seq<seq<Byte>>): seq<Byte>
  {
    if chunks == [] then [] else chunks[0] + Join(chunks[1..])
  }

  lemma FeedIsRun(cfg: Config, p: Parser, chunk: seq<Byte>, b: Beyond)
    requires chunk != [] && Readable(p, Pending(p) + chunk) && !Run(cfg, p.(frag := None), Pending(p) + chunk).Refused?
    ensures Feed(cfg, p, chunk, b) == Settled(cfg, Run(cfg, p.(frag := None), Pending(p) + chunk))
  {
    hide Run, Drain;
    assert [] + chunk == chunk;
    DrainIsRun(cfg, p.(frag := None), Pending(p) + chunk, b);
  }

  lemma SettledPending(cfg: Config, r: Ran)
    requires r.Ran? && r.p.frag == None
    ensures Pending(Settled(cfg, r)) == r.rest && Settled(cfg, r).(frag := None) == r.p
    ensures Settled(cfg, r).stack == r.p.stack
  {
  }

  lemma {:induction false} RunFrag(cfg: Config, p: Parser, s: seq<Byte>)
    requires Run(cfg, p, s).Ran?
    ensures Run(cfg, p, s).p.frag == p.frag && |Run(cfg, p, s).rest| <= |s|
    decreases |s|
  {
    hide ReadFrame, Apply, Run, WholeClose;
    if |s| < 2 {
      RunShort(cfg, p, s);
    } else {
      RunStep(cfg, p, s, Zeros());
      var f := ReadFrame(cfg, s, Zeros());
      if f.Whole? {
        ApplyFrag(cfg, p, f.fin, f.op, f.payload);
        RunFrag(cfg, Apply(cfg, p, f.fin, f.op, f.payload).p, s[f.size..]);
      }
    }
  }

  /** After the bytes `before` a frame is due and no message is open. */
  predicate IdleAfter(cfg: Config, p: Parser, before: seq<Byte>)
  {
    Run(cfg, p, before).Ran? && Run(cfg, p, before).rest == [] && Run(cfg, p, before).p.stack == []
  }

  /** No chunk is one lone byte that starts a frame while no message is open, pongs aside. Where frames start
      is a matter of the bytes before, not of how they were cut. */
  predicate Clean(cfg: Config, p: Parser, before: seq<Byte>, chunks: seq<seq<Byte>>)
    decreases |chunks|
  {
    chunks != [] ==>
      && (|chunks[0]| == 1 && IdleAfter(cfg, p, before) ==> chunks[0][0] % 16 == 10)
      && Clean(cfg, p, before + chunks[0], chunks[1..])
  }

  /** One chunk, when what came before it has been read as the stream demands */
  lemma ChunkRuns(cfg: Config, p: Parser, before: seq<Byte>, chunk: seq<Byte>, b: Beyond)
    requires p.frag == None && chunk != [] && !Run(cfg, p, before + chunk).Refused?
    requires |chunk| == 1 && IdleAfter(cfg, p, before) ==> chunk[0] % 16 == 10
    ensures Run(cfg, p, before).Ran?
    ensures Feed(cfg, Settled(cfg, Run(cfg, p, before)), chunk, b) == Settled(cfg, Run(cfg, p, before + chunk))
  {
    hide Run, Feed, Settled;
    RunConcat(cfg, p, before, chunk);
    RunFrag(cfg, p, before);
    SettledPending(cfg, Run(cfg, p, before));
    FeedIsRun(cfg, Settled(cfg, Run(cfg, p, before)), chunk, b);
  }

  lemma {:induction false} ChunksRun(cfg: Config, p: Parser, before: seq<Byte>, chunks: seq<seq<Byte>>,
                                     behind: seq<Beyond>)
    requires Chunked(chunks, behind) && p.frag == None && Clean(cfg, p, before, chunks)
    requires !Run(cfg, p, before + Join(chunks)).Refused?
    ensures !Run(cfg, p, before).Refused?
    ensures FeedAll(cfg, Settled(cfg, Run(cfg, p, before)), chunks, behind)
         == Settled(cfg, Run(cfg, p, before + Join(chunks)))
    decreases |chunks|
  {
    hide Run, Feed, Settled, IdleAfter;
    if chunks == [] {
      assert before + Join(chunks) == before;
    } else {
      var c, cs := chunks[0], chunks[1..];
      Assoc(before, c, Join(cs));
      Readies(cfg, p, before + c, cs);
      ChunkRuns(cfg, p, before, c, behind[0]);
      ChunksRun(cfg, p, before + c, cs, behind[1..]);
    }
  }

  /** If the whole is not refused, what has come so far is not. */
  lemma Readies(cfg: Config, p: Parser, before: seq<Byte>, chunks: seq<seq<Byte>>)
    requires !Run(cfg, p, before + Join(chunks)).Refused?
    ensures !Run(cfg, p, before).Refused?
  {
    hide Run;
    if Join(chunks) == [] {
      assert before + Join(chunks) == before;
    } else {
      RunConcat(cfg, p, before, Join(chunks));
    }
  }

  /** However an accepted stream is cut into non-empty chunks, whatever lies behind the buffers: the outcome
      is that of the frames in the stream. */
  lemma ChunkingInvariance(cfg: Config, p: Parser, chunks: seq<seq<Byte>>, behind: seq<Beyond>)
    requires Chunked(chunks, behind) && p.frag == None && Clean(cfg, p, [], chunks)
    requires !Run(cfg, p, Join(chunks)).Refused?
    ensures FeedAll(cfg, p, chunks, behind) == Settled(cfg, Run(cfg, p, Join(chunks)))
  {
    hide Run, Clean;
    assert [] + Join(chunks) == Join(chunks);
    RunShort(cfg, p, []);
    ChunksRun(cfg, p, [], chunks, behind);
  }

  // ---- and only then ----

  /** After every chunk the parser is where the bytes received so far put it. */
  predicate InStep(cfg: Config, p: Parser, chunks: seq<seq<Byte>>, behind: seq<Beyond>)
    requires Chunked(chunks, behind) && !Run(cfg, p, Join(chunks)).Refused?
  {
    forall k :: 0 <= k <= |chunks| ==>
      && !Run(cfg, p, Join(chunks[..k])).Refused?
      && FeedAll(cfg, p, chunks[..k], behind[..k]) == Settled(cfg, Run(cfg, p, Join(chunks[..k])))
  }

  lemma {:induction false} CleanPrefix(cfg: Config, p: Parser, before: seq<Byte>, chunks: seq<seq<Byte>>, k: nat)
    requires k <= |chunks| && Clean(cfg, p, before, chunks)
    ensures Clean(cfg, p, before, chunks[..k])
    decreases |chunks|
  {
    hide IdleAfter;
    if k > 0 {
      assert chunks[..k][1..] == chunks[1..][..k - 1];
      CleanPrefix(cfg, p, before + chunks[0], chunks[1..], k - 1);
    }
  }

  lemma {:induction false} JoinSplit(chunks: seq<seq<Byte>>, k: nat)
    requires k <= |chunks|
    ensures Join(chunks) == Join(chunks[..k]) + Join(chunks[k..])
    decreases |chunks|
  {
    if k == 0 {
      assert chunks[0..] == chunks;
    } else {
      JoinSplit(chunks[1..], k - 1);
      assert chunks[..k][1..] == chunks[1..][..k - 1] && chunks[1..][k - 1..] == chunks[k..];
      Assoc(chunks[0], Join(chunks[..k][1..]), Join(chunks[k..]));
    }
  }

  /** Clean chunks keep the parser in step. */
  lemma CleanInStep(cfg: Config, p: Parser, chunks: seq<seq<Byte>>, behind: seq<Beyond>)
    requires Chunked(chunks, behind) && p.frag == None && Clean(cfg, p, [], chunks)
    requires !Run(cfg, p, Join(chunks)).Refused?
    ensures InStep(cfg, p, chunks, behind)
  {
    hide Run, Clean, Settled, Join;
    forall k | 0 <= k <= |chunks|
      ensures !Run(cfg, p, Join(chunks[..k])).Refused?
      ensures FeedAll(cfg, p, chunks[..k], behind[..k]) == Settled(cfg, Run(cfg, p, Join(chunks[..k])))
    {
      JoinSplit(chunks, k);
      Readies(cfg, p, Join(chunks[..k]), chunks[k..]);
      CleanPrefix(cfg, p, [], chunks, k);
      ChunkingInvariance(cfg, p, chunks[..k], behind[..k]);
    }
  }

  /** The first lone byte that is not clean */
  lemma {:induction false} FirstLone(cfg: Config, p: Parser, before: seq<Byte>, chunks: seq<seq<Byte>>)
    returns (k: nat)
    requires !Clean(cfg, p, before, chunks)
    ensures k < |chunks| && |chunks[k]| == 1 && chunks[k][0] % 16 != 10
    ensures IdleAfter(cfg, p, before + Join(chunks[..k])) && Clean(cfg, p, before, chunks[..k])
    decreases |chunks|
  {
    hide IdleAfter;
    var c, cs := chunks[0], chunks[1..];
    if |c| == 1 && IdleAfter(cfg, p, before) && c[0] % 16 != 10 {
      k := 0;
      assert chunks[..0] == [] && before + [] == before;
    } else {
      var j := FirstLone(cfg, p, before + c, cs);
      k := j + 1;
      assert chunks[..k][1..] == cs[..j];
      Assoc(before, c, Join(cs[..j]));
    }
  }

  function Masked(n: nat): (b: seq<Beyond>)
    ensures |b| == n
  {
    seq(n, _ => Const(128))
  }

  /** Next to a byte with the mask bit, a lone first byte is taken for a protocol error. */
  lemma LoneByteMisread(cfg: Config, p: Parser, b0: Byte)
    requires p.stack == [] && p.frag == None && b0 % 16 != 10
    ensures Feed(cfg, p, [b0], Const(128)) == Leave(cfg, p, 1002)
  {
    hide Leave, Apply;
    LoneByteParse(cfg, b0, 128);
  }

  lemma {:induction false} FeedAllSplit(cfg: Config, p: Parser, chunks: seq<seq<Byte>>, behind: seq<Beyond>, k: nat)
    requires Chunked(chunks, behind) && k <= |chunks|
    ensures FeedAll(cfg, p, chunks, behind)
         == FeedAll(cfg, FeedAll(cfg, p, chunks[..k], behind[..k]), chunks[k..], behind[k..])
    decreases |chunks|
  {
    hide Feed;
    if k == 0 {
      assert chunks[0..] == chunks && behind[0..] == behind;
    } else {
      FeedAllSplit(cfg, Feed(cfg, p, chunks[0], behind[0]), chunks[1..], behind[1..], k - 1);
      assert chunks[..k][1..] == chunks[1..][..k - 1] && behind[..k][1..] == behind[1..][..k - 1];
      assert chunks[1..][k - 1..] == chunks[k..] && behind[1..][k - 1..] == behind[k..];
    }
  }

  lemma Single<T>(x: T)
    ensures [x][1..] == []
  {
  }

  lemma OneChunk(cfg: Config, p: Parser, chunks: seq<seq<Byte>>, behind: seq<Beyond>, k: nat)
    requires Chunked(chunks, behind) && k < |chunks|
    ensures FeedAll(cfg, p, chunks[..k + 1], behind[..k + 1])
         == Feed(cfg, FeedAll(cfg, p, chunks[..k], behind[..k]), chunks[k], behind[k])
  {
    hide Feed;
    FeedAllSplit(cfg, p, chunks[..k + 1], behind[..k + 1], k);
    assert chunks[..k + 1][..k] == chunks[..k] && behind[..k + 1][..k] == behind[..k];
    assert chunks[..k + 1][k..] == [chunks[k]] && behind[..k + 1][k..] == [behind[k]];
    Single<seq<Byte>>(chunks[k]);
    Single<Beyond>(behind[k]);
  }

  /** What becomes of the first lone byte when a mask bit follows it in memory */
  lemma LoneByteLeaves(cfg: Config, p: Parser, chunks: seq<seq<Byte>>, k: nat)
    requires Chunked(chunks, Masked(|chunks|)) && p.frag == None && k < |chunks|
    requires !Run(cfg, p, Join(chunks)).Refused?
    requires |chunks[k]| == 1 && chunks[k][0] % 16 != 10 && Clean(cfg, p, [], chunks[..k])
    requires IdleAfter(cfg, p, Join(chunks[..k]))
    ensures FeedAll(cfg, p, chunks[..k + 1], Masked(|chunks|)[..k + 1])
         == Leave(cfg, Run(cfg, p, Join(chunks[..k])).p, 1002)
  {
    hide Run, Clean, Leave, Feed, Join;
    var behind := Masked(|chunks|);
    ChunkingInvariance(cfg, p, chunks[..k], behind[..k]);
    RunFrag(cfg, p, Join(chunks[..k]));
    OneChunk(cfg, p, chunks, behind, k);
    assert chunks[k] == [chunks[k][0]];
    LoneByteMisread(cfg, Run(cfg, p, Join(chunks[..k])).p, chunks[k][0]);
  }

  lemma LoneByteIsRest(cfg: Config, p: Parser, before: seq<Byte>, c: seq<Byte>)
    requires |c| == 1 && IdleAfter(cfg, p, before) && !Run(cfg, p, before + c).Refused?
    ensures Run(cfg, p, before + c) == Ran(Run(cfg, p, before).p, c)
  {
    hide Run;
    RunConcat(cfg, p, before, c);
    assert [] + c == c;
    RunShort(cfg, Run(cfg, p, before).p, c);
  }

  lemma JoinOneMore(chunks: seq<seq<Byte>>, k: nat)
    requires k < |chunks|
    ensures Join(chunks[..k + 1]) == Join(chunks[..k]) + chunks[k]
  {
    JoinSplit(chunks[..k + 1], k);
    assert chunks[..k + 1][..k] == chunks[..k] && chunks[..k + 1][k..] == [chunks[k]];
    Single<seq<Byte>>(chunks[k]);
    assert chunks[k] + Join([]) == chunks[k];
  }

  /** A lone byte that is not clean puts the parser out of step next to some memory. */
  lemma LoneByteOutOfStep(cfg: Config, p: Parser, chunks: seq<seq<Byte>>)
    requires Chunked(chunks, Masked(|chunks|)) && p.frag == None && !Clean(cfg, p, [], chunks)
    requires !Run(cfg, p, Join(chunks)).Refused?
    ensures !InStep(cfg, p, chunks, Masked(|chunks|))
  {
    hide Run, Clean, Join;
    var k := FirstLone(cfg, p, [], chunks);
    assert [] + Join(chunks[..k]) == Join(chunks[..k]);
    LoneByteLeaves(cfg, p, chunks, k);
    JoinOneMore(chunks, k);
    JoinSplit(chunks, k + 1);
    Readies(cfg, p, Join(chunks[..k + 1]), chunks[k + 1..]);
    LoneByteIsRest(cfg, p, Join(chunks[..k]), chunks[k]);
    assert Leave(cfg, Run(cfg, p, Join(chunks[..k])).p, 1002).events != Run(cfg, p, Join(chunks[..k])).p.events;
  }

  /** However an accepted stream is cut: the parser is in step after every chunk, whatever lies behind the
      buffers, if and only if no chunk is a lone byte that starts a frame while no message is open. */
  lemma ChunkingExactly(cfg: Config, p: Parser, chunks: seq<seq<Byte>>)
    requires p.frag == None && !Run(cfg, p, Join(chunks)).Refused? && forall k :: 0 <= k < |chunks| ==> chunks[k] != []
    ensures Clean(cfg, p, [], chunks)
       <==> forall behind: seq<Beyond> :: Chunked(chunks, behind) ==> InStep(cfg, p, chunks, behind)
  {
    hide Run, Clean, InStep, Join;
    if Clean(cfg, p, [], chunks) {
      forall behind: seq<Beyond> | Chunked(chunks, behind)
        ensures InStep(cfg, p, chunks, behind)
      {
        CleanInStep(cfg, p, chunks, behind);
      }
    } else {
      assert Chunked(chunks, Masked(|chunks|));
      LoneByteOutOfStep(cfg, p, chunks);
    }
  }

  // ---- events are only added ----

  lemma FinishGrows(cfg: Config, p: Parser)
    requires p.stack != []
    ensures p.events <= Finish(cfg, p).events
  {
  }

  lemma ApplyGrows(cfg: Config, p: Parser, fin: bool, op: nat, payload: seq<Byte>)
    ensures p.events <= Apply(cfg, p, fin, op, payload).p.events
  {
    hide Finish;
    if op != 9 && op != 10 {
      if p.stack == [] {
        FinishGrows(cfg, p.(stack := [Response(op, fin, 0, 1, payload)]));
      } else {
        var r := p.stack[|p.stack| - 1];
        var r' := r.(isFin := fin, bytesLeft := 0, frameCount := r.frameCount + 1, buffer := r.buffer + payload);
        FinishGrows(cfg, p.(stack := p.stack[|p.stack| - 1 := r']));
      }
    }
  }

  lemma NextGrows(cfg: Config, p: Parser, buf: seq<Byte>, b: Beyond)
    ensures p.events <= Next(cfg, p, buf, b).0.events
  {
    hide ReadFrame, Apply;
    if buf != [] && ReadFrame(cfg, buf, b).Whole? {
      var f := ReadFrame(cfg, buf, b);
      ApplyGrows(cfg, p, f.fin, f.op, f.payload);
    }
  }

  lemma {:induction false} DrainGrows(cfg: Config, p: Parser, buf: seq<Byte>, b: Beyond)
    requires buf != []
    ensures p.events <= Drain(cfg, p, buf, b).events
    decreases |buf|
  {
    hide Next;
    NextGrows(cfg, p, buf, b);
    var (p', rest) := Next(cfg, p, buf, b);
    if |rest| >= 2 { DrainGrows(cfg, p', rest, b); }
  }

  lemma {:induction false} RunGrows(cfg: Config, p: Parser, s: seq<Byte>)
    ensures Run(cfg, p, s).Ran? ==> p.events <= Run(cfg, p, s).p.events
    decreases |s|
  {
    hide ReadFrame, Apply, Run, WholeClose;
    if |s| < 2 {
      RunShort(cfg, p, s);
    } else {
      RunStep(cfg, p, s, Zeros());
      var f := ReadFrame(cfg, s, Zeros());
      if f.Whole? {
        ApplyGrows(cfg, p, f.fin, f.op, f.payload);
        RunGrows(cfg, Apply(cfg, p, f.fin, f.op, f.payload).p, s[f.size..]);
      }
    }
  }

  // ---- the one input on which the parser stops the program ----

  predicate ZeroFrom(buf: seq<Byte>, i: nat, j: nat)
    requires i <= j <= |buf|
  {
    forall k :: i <= k < j ==> buf[k] == 0
  }

  lemma {:induction false} OneIsLast(buf: seq<Byte>, off: nat, n: nat, b: Beyond)
    requires off + n <= |buf|
    ensures BigEndian(buf, off, n, b) == 0 <==> ZeroFrom(buf, off, off + n)
    ensures n > 0 ==> (BigEndian(buf, off, n, b) == 1 <==> buf[off + n - 1] == 1 && ZeroFrom(buf, off, off + n - 1))
  {
    if n > 0 { OneIsLast(buf, off, n - 1, b); }
  }

  /** A final close frame whose length, in one of the extended forms, says one byte. */
  predicate OneByteClose(buf: seq<Byte>)
  {
    && |buf| >= 2 && buf[0] == 0x88
    && if buf[1] == 126 then |buf| >= 5 && buf[2] == 0 && buf[3] == 1
       else buf[1] == 127 && |buf| >= 11 && buf[9] == 1 && ZeroFrom(buf, 2, 9)
  }

  /** Subtracting the two code bytes from the length goes below zero exactly for such a frame. */
  lemma TrapExactly(cfg: Config, buf: seq<Byte>, b: Beyond)
    requires |buf| >= 2
    ensures ReadFrame(cfg, buf, b).Trap? <==> OneByteClose(buf)
  {
    hide BigEndian, CloseCode;
    ReadFrameStep(cfg, buf, b);
    if |buf| >= 4 { OneIsLast(buf, 2, 2, b); }
    if |buf| >= 10 { OneIsLast(buf, 2, 8, b); }
  }

  /** The shortest such frame stops the program, whatever its one byte is. */
  lemma OneByteCloseTraps(cfg: Config, p: Parser, x: Byte, b: Beyond)
    ensures Drain(cfg, p, [0x88, 126, 0, 1, x], b) == p.(trapped := true)
  {
    hide ReadFrame;
    TrapExactly(cfg, [0x88, 126, 0, 1, x], b);
  }
}
