/** Whole sessions: what the client reports in the end, from the HTTP answer on and after reconnecting. */
module WebSocketSessions {
  import opened Common
  import opened WebSocketFrames
  import opened WebSocketChunks
  import opened WebSocketStreams
  import opened WebSocketHandshake

  // ---- events are only added ----

  lemma ReceiveGrows(cfg: Config, validate: Validator, p: Parser, chunk: seq<Byte>, b: Beyond)
    requires chunk != []
    ensures p.events <= Receive(cfg, validate, p, chunk, b).events
  {
    hide Drain, Scan;
    var p0, work := p.(frag := None), Pending(p) + chunk;
    assert [] + chunk == chunk;
    if p.connected {
      DrainGrows(cfg, p0, work, b);
    } else {
      var n := Scan(work, 0, 0);
      if 0 < n < |work| { DrainGrows(cfg, Accepted(cfg, p0), work[n..], b); }
    }
  }

  lemma {:induction false} ReceiveAllGrows(cfg: Config, validate: Validator, p: Parser, chunks: seq<seq<Byte>>,
                                           behind: seq<Beyond>)
    requires Chunked(chunks, behind)
    ensures p.events <= ReceiveAll(cfg, validate, p, chunks, behind).events
    decreases |chunks|
  {
    hide Receive;
    if chunks != [] {
      ReceiveGrows(cfg, validate, p, chunks[0], behind[0]);
      ReceiveAllGrows(cfg, validate, Receive(cfg, validate, p, chunks[0], behind[0]), chunks[1..], behind[1..]);
    }
  }

  lemma {:induction false} ReceiveAllSplit(cfg: Config, validate: Validator, p: Parser, chunks: seq<seq<Byte>>,
                                           behind: seq<Beyond>, k: nat)
    requires Chunked(chunks, behind) && k <= |chunks|
    ensures ReceiveAll(cfg, validate, p, chunks, behind)
         == ReceiveAll(cfg, validate, ReceiveAll(cfg, validate, p, chunks[..k], behind[..k]), chunks[k..], behind[k..])
    decreases |chunks|
  {
    hide Receive;
    if k == 0 {
      assert chunks[0..] == chunks && behind[0..] == behind;
    } else {
      ReceiveAllSplit(cfg, validate, Receive(cfg, validate, p, chunks[0], behind[0]), chunks[1..], behind[1..], k - 1);
      assert chunks[..k][1..] == chunks[1..][..k - 1] && behind[..k][1..] == behind[1..][..k - 1];
      assert chunks[1..][k - 1..] == chunks[k..] && behind[1..][k - 1..] == behind[k..];
    }
  }

  lemma OneReceive(cfg: Config, validate: Validator, p: Parser, chunks: seq<seq<Byte>>, behind: seq<Beyond>, k: nat)
    requires Chunked(chunks, behind) && k < |chunks|
    ensures ReceiveAll(cfg, validate, p, chunks[..k + 1], behind[..k + 1])
         == Receive(cfg, validate, ReceiveAll(cfg, validate, p, chunks[..k], behind[..k]), chunks[k], behind[k])
  {
    hide Receive;
    ReceiveAllSplit(cfg, validate, p, chunks[..k + 1], behind[..k + 1], k);
    assert chunks[..k + 1][..k] == chunks[..k] && behind[..k + 1][..k] == behind[..k];
    assert chunks[..k + 1][k..] == [chunks[k]] && behind[..k + 1][k..] == [behind[k]];
    Single<seq<Byte>>(chunks[k]);
    Single<Beyond>(behind[k]);
  }

  // ---- the outcome alone ----

  /** The stream itself makes the client report a protocol error. */
  predicate EndsInError(cfg: Config, p: Parser, s: seq<Byte>)
    requires !Run(cfg, p, s).Refused?
  {
    var q := Settled(cfg, Run(cfg, p, s));
    |p.events| <= |q.events| && CloseSent(1002) in q.events[|p.events|..]
  }

  /** A chunking that is not clean makes the client report an error that is not in the stream. */
  lemma LoneByteReported(cfg: Config, validate: Validator, p: Parser, chunks: seq<seq<Byte>>)
    requires Chunked(chunks, Masked(|chunks|)) && p.connected && p.frag == None && !Clean(cfg, p, [], chunks)
    requires !Run(cfg, p, Join(chunks)).Refused?
    ensures var q := ReceiveAll(cfg, validate, p, chunks, Masked(|chunks|));
            |p.events| <= |q.events| && CloseSent(1002) in q.events[|p.events|..]
  {
    hide Run, Clean, Join, Receive, ReceiveAll, Leave;
    var behind := Masked(|chunks|);
    var k := FirstLone(cfg, p, [], chunks);
    assert [] + Join(chunks[..k]) == Join(chunks[..k]);
    LoneByteDisconnects(cfg, validate, p, chunks, k);
    RunGrows(cfg, p, Join(chunks[..k]));
    var r := Run(cfg, p, Join(chunks[..k])).p;
    ReceiveAllSplit(cfg, validate, p, chunks, behind, k + 1);
    ReceiveAllGrows(cfg, validate, Leave(cfg, r, 1002), chunks[k + 1..], behind[k + 1..]);
    Reported(cfg, p, r, ReceiveAll(cfg, validate, p, chunks, behind));
  }

  /** Up to the first lone byte the session is in step; there it is closed, if a mask bit follows in memory. */
  lemma LoneByteDisconnects(cfg: Config, validate: Validator, p: Parser, chunks: seq<seq<Byte>>, k: nat)
    requires Chunked(chunks, Masked(|chunks|)) && p.connected && p.frag == None && k < |chunks|
    requires !Run(cfg, p, Join(chunks)).Refused?
    requires |chunks[k]| == 1 && chunks[k][0] % 16 != 10 && Clean(cfg, p, [], chunks[..k])
    requires IdleAfter(cfg, p, Join(chunks[..k]))
    ensures ReceiveAll(cfg, validate, p, chunks[..k + 1], Masked(|chunks|)[..k + 1])
         == Leave(cfg, Run(cfg, p, Join(chunks[..k])).p, 1002)
  {
    hide Run, Clean, Leave, Feed, Join, Settled, Handshake;
    var behind := Masked(|chunks|);
    SessionRuns(cfg, validate, p, chunks[..k], behind[..k]);
    var r := Run(cfg, p, Join(chunks[..k]));
    RunFrag(cfg, p, Join(chunks[..k]));
    RunConnected(cfg, p, Join(chunks[..k]));
    SettledConnected(cfg, r);
    SettledEmpty(cfg, r);
    OneReceive(cfg, validate, p, chunks, behind, k);
    assert chunks[k] == [chunks[k][0]];
    LoneByteMisread(cfg, r.p, chunks[k][0]);
  }

  lemma SettledEmpty(cfg: Config, r: Ran)
    requires r.Ran? && r.rest == [] && r.p.frag == None
    ensures Settled(cfg, r) == r.p
  {
  }

  /** A session of clean chunks has the outcome of its frames. */
  lemma SessionRuns(cfg: Config, validate: Validator, p: Parser, chunks: seq<seq<Byte>>, behind: seq<Beyond>)
    requires Chunked(chunks, behind) && p.connected && p.frag == None && Clean(cfg, p, [], chunks)
    requires !Run(cfg, p, Join(chunks)).Refused?
    ensures ReceiveAll(cfg, validate, p, chunks, behind) == Settled(cfg, Run(cfg, p, Join(chunks)))
  {
    hide Run, Clean, ReceiveAll;
    RunShort(cfg, p, []);
    assert [] + Join(chunks) == Join(chunks);
    ReceiveRuns(cfg, validate, p, [], chunks, behind);
  }

  lemma Reported(cfg: Config, p: Parser, r: Parser, q: Parser)
    requires p.events <= r.events && Leave(cfg, r, 1002).events <= q.events
    ensures |p.events| <= |q.events| && CloseSent(1002) in q.events[|p.events|..]
  {
    var l := Leave(cfg, r, 1002).events;
    assert l[|l| - 1] == CloseSent(1002) && q.events[|l| - 1] == l[|l| - 1];
    assert q.events[|p.events|..][|l| - 1 - |p.events|] == CloseSent(1002);
  }

  /** What the client reports in the end is what the stream calls for, whatever lies behind the buffers, iff the
      split is clean, unless the stream itself ends in a protocol error. */
  lemma OutcomeExactly(cfg: Config, validate: Validator, p: Parser, chunks: seq<seq<Byte>>)
    requires p.connected && p.frag == None && forall k :: 0 <= k < |chunks| ==> chunks[k] != []
    requires !Run(cfg, p, Join(chunks)).Refused? && !EndsInError(cfg, p, Join(chunks))
    ensures Clean(cfg, p, [], chunks)
       <==> forall behind: seq<Beyond> :: Chunked(chunks, behind) ==>
              ReceiveAll(cfg, validate, p, chunks, behind).events == Settled(cfg, Run(cfg, p, Join(chunks))).events
  {
    hide Run, Clean, Join, ReceiveAll, Settled;
    if Clean(cfg, p, [], chunks) {
      forall behind: seq<Beyond> | Chunked(chunks, behind)
        ensures ReceiveAll(cfg, validate, p, chunks, behind) == Settled(cfg, Run(cfg, p, Join(chunks)))
      {
        SessionRuns(cfg, validate, p, chunks, behind);
      }
    } else {
      assert Chunked(chunks, Masked(|chunks|));
      LoneByteReported(cfg, validate, p, chunks);
    }
  }


  /** What the client reports in the end is what the stream says, whatever lies behind the buffers, iff the
      split is safe; except that a stream whose own close frame calls for code 1002 can hide the error. */
  lemma SafeSplitsDeliver(cfg: Config, validate: Validator, p: Parser, fs: seq<WireFrame>, close: Option<seq<Byte>>,
                          chunks: seq<seq<Byte>>)
    requires p.stack == [] && p.frag == None && p.connected && !p.didDisconnect && ValidFrames(cfg, fs, close)
    requires Join(chunks) == Bytes(cfg, fs, close) && forall k :: 0 <= k < |chunks| ==> chunks[k] != []
    ensures SafeSplit(fs, 0, chunks) ==> DeliversAlways(cfg, validate, p, fs, close, chunks)
    ensures (close.Some? && CloseReply(cfg, close.value) == 1002)
            || (DeliversAlways(cfg, validate, p, fs, close, chunks) ==> SafeSplit(fs, 0, chunks))
  {
    hide Run, Clean, Join, Bytes, SafeSplit, Settled, ReceiveAll, YieldAll, Ended, Reached, Farewell, CloseReply;
    var q := RunStream(cfg, p, fs, close);
    EndedEvents(cfg, p, q, YieldAll(cfg, Idle, fs), AfterAll(Idle, fs), close);
    assert [] + Join(chunks) == Join(chunks);
    SafeIsClean(cfg, p, fs, close, [], chunks);
    if SafeSplit(fs, 0, chunks) {
      forall behind: seq<Beyond> | Chunked(chunks, behind)
        ensures ReceiveAll(cfg, validate, p, chunks, behind) == Settled(cfg, Run(cfg, p, Join(chunks)))
      {
        SessionRuns(cfg, validate, p, chunks, behind);
      }
    } else if !(close.Some? && CloseReply(cfg, close.value) == 1002) {
      NoClosesYielded(cfg, Idle, fs, 1002);
      NoErrorInFarewell(cfg, close);
      assert Chunked(chunks, Masked(|chunks|));
      LoneByteReported(cfg, validate, p, chunks);
    }
  }

  ghost predicate DeliversAlways(cfg: Config, validate: Validator, p: Parser, fs: seq<WireFrame>,
                                 close: Option<seq<Byte>>, chunks: seq<seq<Byte>>)
    requires ValidFrames(cfg, fs, close) && forall k :: 0 <= k < |chunks| ==> chunks[k] != []
  {
    forall behind: seq<Beyond> :: Chunked(chunks, behind) ==>
      ReceiveAll(cfg, validate, p, chunks, behind).events == p.events + (YieldAll(cfg, Idle, fs) + Farewell(cfg, close))
  }

  lemma NoErrorInFarewell(cfg: Config, close: Option<seq<Byte>>)
    requires close.Some? ==> ValidClose(close.value) && CloseReply(cfg, close.value) != 1002
    ensures CloseSent(1002) !in Farewell(cfg, close)
  {
    hide CloseReply;
  }

  lemma {:induction false} NoClosesYielded(cfg: Config, o: Open, fs: seq<WireFrame>, code: nat)
    ensures CloseSent(code) !in YieldAll(cfg, o, fs)
    decreases |fs|
  {
    if fs != [] {
      NoClosesYielded(cfg, After(o, fs[0]), fs[1..], code);
      hide After, YieldAll;
      assert CloseSent(code) !in Yield(cfg, o, fs[0]);
    }
  }

  // ---- the exception in SafeSplitsDeliver ----

  const UNFINISHED: WireFrame := WireFrame(false, 1, [104, 105])
  const REST: seq<Byte> := [2, 104, 105, 0x88, 2, 3, 234]

  lemma UnfinishedIsValid(cfg: Config)
    ensures ValidFrames(cfg, [UNFINISHED], Some([3, 234])) && Bytes(cfg, [UNFINISHED], Some([3, 234])) == [1] + REST
    ensures YieldAll(cfg, Idle, [UNFINISHED]) == [] && CloseReply(cfg, [3, 234]) == 1002
  {
    assert [UNFINISHED][1..] == [];
    assert LegalAll(cfg, Idle, [UNFINISHED]);
    assert EncAll(cfg, Idle, [UNFINISHED]) == [1, 2, 104, 105];
    assert EncFrame(true, 8, [3, 234]) == [0x88, 2, 3, 234];
  }

  /** Taken for an error, the first byte ends the connection; the other bytes wait for the end of a header. */
  lemma MisreadUnfinished(cfg: Config, validate: Validator, p: Parser, b: Beyond, c: Beyond)
    requires p.stack == [] && p.frag == None && p.connected && !p.didDisconnect && b(1) >= 128
    ensures Receive(cfg, validate, Receive(cfg, validate, p, [1], b), REST, c).events == Leave(cfg, p, 1002).events
  {
    hide Leave, BigEndian, Apply, Scan;
    LoneByteOf(cfg, 1, b);
    LeaveKeeps(cfg, p, 1002);
    assert Receive(cfg, validate, p, [1], b) == Leave(cfg, p, 1002);
    NoHeaderInRest();
    assert [] + REST == REST;
  }

  lemma NoHeaderInRest()
    ensures Scan(REST, 0, 0) == 0
  {
    assert Scan(REST, 4, 0) == Scan(REST, 5, 0) == Scan(REST, 6, 0) == Scan(REST, 7, 0) == 0;
    assert Scan(REST, 0, 0) == Scan(REST, 1, 0) == Scan(REST, 2, 0) == Scan(REST, 3, 0) == Scan(REST, 4, 0);
  }

  lemma LoneByteOf(cfg: Config, b0: Byte, b: Beyond)
    requires b0 % 16 != 10
    ensures b(1) >= 128 ==> ReadFrame(cfg, [b0], b) == Closing(1002)
    ensures b(1) < 128 && Judge(b0, b(1)).Fine? ==> ReadFrame(cfg, [b0], b) == More
  {
    hide BigEndian;
  }

  lemma LeaveKeeps(cfg: Config, p: Parser, code: nat)
    ensures Leave(cfg, p, code).frag == p.frag && Leave(cfg, p, code).stack == p.stack
    ensures !p.didDisconnect ==> !Leave(cfg, p, code).connected
  {
  }

  lemma WaitUnfinished(cfg: Config, validate: Validator, p: Parser, b: Beyond, c: Beyond)
    requires p.stack == [] && p.frag == None && p.connected && b(1) < 128
    requires !Run(cfg, p, [1] + REST).Refused?
    ensures Receive(cfg, validate, Receive(cfg, validate, p, [1], b), REST, c)
         == Settled(cfg, Run(cfg, p, [1] + REST))
  {
    hide Run, BigEndian, Apply, Settled, ReadFrame;
    LoneByteOf(cfg, 1, b);
    assert Receive(cfg, validate, p, [1], b) == p.(frag := Some([1]));
    FeedIsRun(cfg, p.(frag := Some([1])), REST, c);
  }

  /** A text that is never finished and a close with code 1002, cut behind the first byte: misread or not,
      one protocol error is reported. */
  lemma HiddenError(cfg: Config, validate: Validator, p: Parser, behind: seq<Beyond>)
    requires p.stack == [] && p.frag == None && p.connected && !p.didDisconnect && |behind| == 2
    ensures var chunks := [[1], REST];
            && !SafeSplit([UNFINISHED], 0, chunks) && ValidFrames(cfg, [UNFINISHED], Some([3, 234]))
            && Join(chunks) == Bytes(cfg, [UNFINISHED], Some([3, 234]))
            && ReceiveAll(cfg, validate, p, chunks, behind).events == p.events + Farewell(cfg, Some([3, 234]))
  {
    hide Run, Receive, Settled, CloseReply, LegalAll, EncAll, YieldAll, EncFrame, ReadFrame;
    UnfinishedIsValid(cfg);
    TwoChunks(cfg, validate, p, behind);
    var q := RunStream(cfg, p, [UNFINISHED], Some([3, 234]));
    EndedEvents(cfg, p, q, [], AfterAll(Idle, [UNFINISHED]), Some([3, 234]));
    EndedEvents(cfg, p, p, [], Idle, Some([3, 234]));
    if behind[0](1) >= 128 {
      MisreadUnfinished(cfg, validate, p, behind[0], behind[1]);
    } else {
      WaitUnfinished(cfg, validate, p, behind[0], behind[1]);
    }
  }

  lemma TwoChunks(cfg: Config, validate: Validator, p: Parser, behind: seq<Beyond>)
    requires |behind| == 2
    ensures Join([[1], REST]) == [1] + REST && !SafeSplit([UNFINISHED], 0, [[1], REST])
    ensures ReceiveAll(cfg, validate, p, [[1], REST], behind)
         == Receive(cfg, validate, Receive(cfg, validate, p, [1], behind[0]), REST, behind[1])
  {
    hide Receive;
    var chunks: seq<seq<Byte>> := [[1], REST];
    assert chunks[1..] == [REST];
    Single<seq<Byte>>(REST);
    assert Join([REST]) == REST + Join([]);
    OneReceive(cfg, validate, p, chunks, behind, 1);
    OneReceive(cfg, validate, p, chunks, behind, 0);
    assert chunks[..2] == chunks && behind[..2] == behind && chunks[..0] == [] && behind[..0] == [];
  }

  // ---- connecting again with a message half received ----

  predicate IsControl(f: WireFrame) { f.op in {9, 10} }

  predicate OnlyControls(fs: seq<WireFrame>)
  {
    fs != [] ==> IsControl(fs[0]) && OnlyControls(fs[1..])
  }

  /** The control frames before the first data frame */
  function LeadingControls(fs: seq<WireFrame>): (cs: seq<WireFrame>)
    ensures |cs| <= |fs|
  {
    if fs == [] || !IsControl(fs[0]) then [] else [fs[0]] + LeadingControls(fs[1..])
  }

  /** Control frames mean the same whatever is open. */
  lemma {:induction false} ControlsAnywhere(cfg: Config, o: Open, fs: seq<WireFrame>)
    requires OnlyControls(fs) && LegalAll(cfg, Idle, fs)
    ensures LegalAll(cfg, o, fs) && EncAll(cfg, o, fs) == EncAll(cfg, Idle, fs)
    ensures YieldAll(cfg, o, fs) == YieldAll(cfg, Idle, fs) && AfterAll(o, fs) == o
    decreases |fs|
  {
    if fs != [] {
      assert After(o, fs[0]) == o && After(Idle, fs[0]) == Idle;
      ControlsAnywhere(cfg, o, fs[1..]);
    }
  }

  /** A stream with data is its leading control frames, the first data frame, and the rest. */
  lemma {:induction false} DataSplits(cfg: Config, fs: seq<WireFrame>) returns (f: WireFrame, t: seq<Byte>)
    requires LegalAll(cfg, Idle, fs) && !OnlyControls(fs)
    ensures Legal(cfg, Idle, f) && Known(f) && !IsControl(f)
    ensures OnlyControls(LeadingControls(fs)) && LegalAll(cfg, Idle, LeadingControls(fs))
    ensures EncAll(cfg, Idle, fs) == EncAll(cfg, Idle, LeadingControls(fs)) + (Enc(f) + t)
    decreases |fs|
  {
    if IsControl(fs[0]) {
      f, t := DataSplits(cfg, fs[1..]);
      var cs := LeadingControls(fs[1..]);
      assert ([fs[0]] + cs)[1..] == cs;
      Assoc(Enc(fs[0]), EncAll(cfg, Idle, cs), Enc(f) + t);
    } else {
      f, t := fs[0], EncAll(cfg, After(Idle, fs[0]), fs[1..]);
      assert [] + (Enc(f) + t) == Enc(f) + t;
    }
  }

  /** With a message open, the first frame of another one is refused. */
  lemma RefusesData(cfg: Config, p: Parser, f: WireFrame)
    requires p.stack != [] && Legal(cfg, Idle, f) && !IsControl(f)
    ensures Apply(cfg, p, f.fin, f.op, f.payload) == Halt(Leave(cfg, p, 1002))
  {
    hide Leave;
  }

  lemma AcceptsControl(cfg: Config, p: Parser, f: WireFrame)
    requires IsControl(f)
    ensures Apply(cfg, p, f.fin, f.op, f.payload) == Continue(WithEvents(p, Yield(cfg, Idle, f)))
  {
  }

  /** Reading the next frame of a buffer */
  lemma NextFrame(cfg: Config, p: Parser, f: WireFrame, t: seq<Byte>, b: Beyond)
    requires Known(f)
    ensures Next(cfg, p, Enc(f) + t, b)
         == match Apply(cfg, p, f.fin, f.op, f.payload) case Continue(q) => (q, t) case Halt(q) => (q, [])
  {
    hide ReadFrame, Apply, EncFrame;
    ReadsFrame(cfg, f.fin, f.op, f.payload, t, b);
    assert (Enc(f) + t)[|Enc(f)|..] == t;
  }

  lemma MoreEvents(p: Parser, a: seq<Event>, b: seq<Event>)
    ensures WithEvents(WithEvents(p, a), b) == WithEvents(p, a + b)
    ensures WithEvents(p, a).stack == p.stack && WithEvents(p, a).frag == p.frag
    ensures WithEvents(p, a).connected == p.connected && WithEvents(p, []) == p
  {
    Assoc(p.events, a, b);
  }

  /** A buffer that reaches the data frame: the control frames are answered, then the connection is closed. */
  lemma {:induction false} DrainToData(cfg: Config, p: Parser, cs: seq<WireFrame>, f: WireFrame, t: seq<Byte>,
                                       b: Beyond)
    requires p.stack != [] && OnlyControls(cs) && LegalAll(cfg, Idle, cs)
    requires Legal(cfg, Idle, f) && Known(f) && !IsControl(f)
    ensures EncAll(cfg, Idle, cs) + (Enc(f) + t) != []
    ensures Drain(cfg, p, EncAll(cfg, Idle, cs) + (Enc(f) + t), b)
         == Leave(cfg, WithEvents(p, YieldAll(cfg, Idle, cs)), 1002)
    decreases |cs|
  {
    hide Next, Apply, EncFrame, Yield, Leave, Known, Legal;
    MoreEvents(p, [], []);
    if cs == [] {
      assert EncAll(cfg, Idle, cs) + (Enc(f) + t) == Enc(f) + t;
      NextFrame(cfg, p, f, t, b);
      RefusesData(cfg, p, f);
    } else {
      var rest := cs[1..];
      LegalKnown(cfg, cs[0]);
      Assoc(Enc(cs[0]), EncAll(cfg, Idle, rest), Enc(f) + t);
      AcceptsControl(cfg, p, cs[0]);
      NextFrame(cfg, p, cs[0], EncAll(cfg, Idle, rest) + (Enc(f) + t), b);
      MoreEvents(p, Yield(cfg, Idle, cs[0]), YieldAll(cfg, Idle, rest));
      DrainToData(cfg, WithEvents(p, Yield(cfg, Idle, cs[0])), rest, f, t, b);
    }
  }

  lemma LegalKnown(cfg: Config, f: WireFrame)
    requires Legal(cfg, Idle, f)
    ensures Known(f)
  {
  }

  lemma {:induction false} RunToData(cfg: Config, p: Parser, cs: seq<WireFrame>, f: WireFrame, t: seq<Byte>)
    requires p.stack != [] && OnlyControls(cs) && LegalAll(cfg, Idle, cs)
    requires Legal(cfg, Idle, f) && Known(f) && !IsControl(f)
    ensures Run(cfg, p, EncAll(cfg, Idle, cs) + (Enc(f) + t)).Refused?
    decreases |cs|
  {
    hide Run, Apply, EncFrame, Yield, Leave, Known, Legal, ReadFrame;
    MoreEvents(p, [], []);
    if cs == [] {
      assert EncAll(cfg, Idle, cs) + (Enc(f) + t) == Enc(f) + t;
      RefusesData(cfg, p, f);
      RunRefused(cfg, p, f, t);
    } else {
      var rest := cs[1..];
      LegalKnown(cfg, cs[0]);
      Assoc(Enc(cs[0]), EncAll(cfg, Idle, rest), Enc(f) + t);
      AcceptsControl(cfg, p, cs[0]);
      RunKnown(cfg, p, cs[0], EncAll(cfg, Idle, rest) + (Enc(f) + t));
      MoreEvents(p, Yield(cfg, Idle, cs[0]), []);
      RunToData(cfg, WithEvents(p, Yield(cfg, Idle, cs[0])), rest, f, t);
    }
  }

  lemma RunRefused(cfg: Config, p: Parser, f: WireFrame, t: seq<Byte>)
    requires Known(f) && Apply(cfg, p, f.fin, f.op, f.payload).Halt?
    ensures Run(cfg, p, Enc(f) + t).Refused?
  {
    hide Run, Apply, EncFrame, ReadFrame;
    ReadsFrame(cfg, f.fin, f.op, f.payload, t, Zeros());
    RunStep(cfg, p, Enc(f) + t, Zeros());
  }

  /** Bytes that end before the first data frame is complete */
  predicate Short(cfg: Config, cs: seq<WireFrame>, f: WireFrame, before: seq<Byte>)
    requires LegalAll(cfg, Idle, cs) && Known(f)
  {
    |before| < |EncAll(cfg, Idle, cs)| + |Enc(f)|
  }

  /** They are read to their end and leave the open message alone. */
  lemma {:induction false} ShortRuns(cfg: Config, p: Parser, cs: seq<WireFrame>, f: WireFrame, t: seq<Byte>,
                                     before: seq<Byte>, c: seq<Byte>)
    requires p.frag == None && p.stack != [] && OnlyControls(cs) && LegalAll(cfg, Idle, cs) && Known(f)
    requires before + c == EncAll(cfg, Idle, cs) + (Enc(f) + t) && Short(cfg, cs, f, before)
    ensures var r := Run(cfg, p, before);
            r.Ran? && r.p.stack == p.stack && r.p.connected == p.connected && r.p.frag == None
    decreases |cs|
  {
    hide Run, Apply, EncFrame, Yield, Known, Legal;
    if before == [] {
      RunShort(cfg, p, []);
    } else if cs == [] {
      assert before + c == Enc(f) + t;
      assert before == (Enc(f) + t)[..|before|];
      PartOfFrame(cfg, p, f, t, |before|);
    } else {
      var rest := cs[1..];
      var later := EncAll(cfg, Idle, rest) + (Enc(f) + t);
      LegalKnown(cfg, cs[0]);
      Assoc(Enc(cs[0]), EncAll(cfg, Idle, rest), Enc(f) + t);
      if |before| < |Enc(cs[0])| {
        assert before == (Enc(cs[0]) + later)[..|before|];
        PartOfFrame(cfg, p, cs[0], later, |before|);
      } else {
        SplitFront(before, c, Enc(cs[0]), later);
        AcceptsControl(cfg, p, cs[0]);
        RunKnown(cfg, p, cs[0], before[|Enc(cs[0])|..]);
        MoreEvents(p, Yield(cfg, Idle, cs[0]), []);
        ShortRuns(cfg, WithEvents(p, Yield(cfg, Idle, cs[0])), rest, f, t, before[|Enc(cs[0])|..], c);
      }
    }
  }

  lemma SplitFront(before: seq<Byte>, c: seq<Byte>, e: seq<Byte>, later: seq<Byte>)
    requires before + c == e + later && |e| <= |before|
    ensures before == e + before[|e|..] && before[|e|..] + c == later
  {
    assert before[..|e|] == (before + c)[..|e|] == (e + later)[..|e|] == e;
    assert before[|e|..] + c == (before + c)[|e|..] == (e + later)[|e|..] == later;
  }

  /** The chunk that completes the data frame closes the connection. */
  lemma {:induction false} ChunkToData(cfg: Config, p: Parser, cs: seq<WireFrame>, f: WireFrame, t: seq<Byte>,
                                       before: seq<Byte>, c: seq<Byte>, b: Beyond)
    requires p.frag == None && p.stack != [] && OnlyControls(cs) && LegalAll(cfg, Idle, cs)
    requires Legal(cfg, Idle, f) && Known(f) && !IsControl(f)
    requires before + c == EncAll(cfg, Idle, cs) + (Enc(f) + t) && Short(cfg, cs, f, before)
    ensures c != [] && Run(cfg, p, before).Ran?
    ensures Feed(cfg, Settled(cfg, Run(cfg, p, before)), c, b)
         == Leave(cfg, WithEvents(p, YieldAll(cfg, Idle, cs)), 1002)
    decreases |cs|
  {
    hide Run, Apply, EncFrame, Yield, Known, Legal, Feed, Settled, Leave;
    ShortRuns(cfg, p, cs, f, t, before, c);
    if cs != [] { LegalKnown(cfg, cs[0]); }
    if cs != [] && |before| >= |Enc(cs[0])| {
      var rest := cs[1..];
      var later := EncAll(cfg, Idle, rest) + (Enc(f) + t);
      LegalKnown(cfg, cs[0]);
      Assoc(Enc(cs[0]), EncAll(cfg, Idle, rest), Enc(f) + t);
      SplitFront(before, c, Enc(cs[0]), later);
      AcceptsControl(cfg, p, cs[0]);
      RunKnown(cfg, p, cs[0], before[|Enc(cs[0])|..]);
      MoreEvents(p, Yield(cfg, Idle, cs[0]), YieldAll(cfg, Idle, rest));
      ChunkToData(cfg, WithEvents(p, Yield(cfg, Idle, cs[0])), rest, f, t, before[|Enc(cs[0])|..], c, b);
    } else {
      NothingRead(cfg, p, cs, f, t, before, c);
      DrainToData(cfg, p, cs, f, t, b);
      FeedKept(cfg, p, before, c, b);
    }
  }

  lemma NothingRead(cfg: Config, p: Parser, cs: seq<WireFrame>, f: WireFrame, t: seq<Byte>, before: seq<Byte>,
                    c: seq<Byte>)
    requires LegalAll(cfg, Idle, cs) && Known(f)
    requires before + c == EncAll(cfg, Idle, cs) + (Enc(f) + t) && Short(cfg, cs, f, before)
    requires cs != [] ==> |before| < |Enc(cs[0])|
    ensures Run(cfg, p, before) == Ran(p, before)
  {
    hide Run, EncFrame, Legal;
    if before == [] {
      RunShort(cfg, p, []);
    } else if cs == [] {
      assert before + c == Enc(f) + t;
      assert before == (Enc(f) + t)[..|before|];
      PartOfFrame(cfg, p, f, t, |before|);
    } else {
      LegalKnown(cfg, cs[0]);
      var later := EncAll(cfg, After(Idle, cs[0]), cs[1..]) + (Enc(f) + t);
      Assoc(Enc(cs[0]), EncAll(cfg, After(Idle, cs[0]), cs[1..]), Enc(f) + t);
      assert before == (Enc(cs[0]) + later)[..|before|];
      PartOfFrame(cfg, p, cs[0], later, |before|);
    }
  }

  lemma FeedKept(cfg: Config, p: Parser, before: seq<Byte>, c: seq<Byte>, b: Beyond)
    requires p.frag == None && c != []
    ensures Feed(cfg, Settled(cfg, Ran(p, before)), c, b) == Drain(cfg, p, before + c, b)
  {
    hide Drain;
    assert [] + c == c;
  }

  /** From a connected session on: whatever the chunks, the connection is closed at the data frame. */
  lemma {:induction false} SessionToData(cfg: Config, validate: Validator, p: Parser, cs: seq<WireFrame>, f: WireFrame,
                                         t: seq<Byte>, before: seq<Byte>, chunks: seq<seq<Byte>>, behind: seq<Beyond>)
    requires Chunked(chunks, behind) && p.frag == None && p.connected && p.stack != []
    requires OnlyControls(cs) && LegalAll(cfg, Idle, cs) && Legal(cfg, Idle, f) && Known(f) && !IsControl(f)
    requires before + Join(chunks) == EncAll(cfg, Idle, cs) + (Enc(f) + t) && Short(cfg, cs, f, before)
    ensures Run(cfg, p, before).Ran?
    ensures Leave(cfg, WithEvents(p, YieldAll(cfg, Idle, cs)), 1002).events
         <= ReceiveAll(cfg, validate, Settled(cfg, Run(cfg, p, before)), chunks, behind).events
    decreases |chunks|
  {
    hide Run, Feed, Settled, EncAll, LegalAll, Known, Legal, Leave, Enc, OnlyControls, Handshake, YieldAll;
    ShortRuns(cfg, p, cs, f, t, before, Join(chunks));
    NoChunks(before, chunks);
    if chunks != [] {
      var c, rest := chunks[0], chunks[1..];
      Assoc(before, c, Join(rest));
      SettledConnected(cfg, Run(cfg, p, before));
      if Short(cfg, cs, f, before + c) {
        ShortRuns(cfg, p, cs, f, t, before + c, Join(rest));
        NeverIdle(cfg, p, before);
        ChunkRuns(cfg, p, before, c, behind[0]);
        SessionToData(cfg, validate, p, cs, f, t, before + c, rest, behind[1..]);
      } else {
        var t' := (before + c)[|EncAll(cfg, Idle, cs)| + |Enc(f)|..];
        CutBehind(EncAll(cfg, Idle, cs), Enc(f), t, before + c, Join(rest));
        ChunkToData(cfg, p, cs, f, t', before, c, behind[0]);
        ReceiveAllGrows(cfg, validate, Feed(cfg, Settled(cfg, Run(cfg, p, before)), c, behind[0]), rest, behind[1..]);
      }
    }
  }

  lemma NeverIdle(cfg: Config, p: Parser, before: seq<Byte>)
    requires Run(cfg, p, before).Ran? && Run(cfg, p, before).p.stack != []
    ensures !IdleAfter(cfg, p, before)
  {
  }

  lemma CutBehind(a: seq<Byte>, e: seq<Byte>, t: seq<Byte>, w: seq<Byte>, more: seq<Byte>)
    requires w + more == a + (e + t) && |w| >= |a| + |e|
    ensures w == a + (e + w[|a| + |e|..])
  {
    var n := |a| + |e|;
    assert a + (e + t) == a + e + t;
    assert w[..n] == (w + more)[..n] == (a + e + t)[..n] == a + e;
    assert w == w[..n] + w[n..];
  }

  /** The same from the HTTP answer on. */
  lemma {:induction false} HandshakeToData(cfg: Config, validate: Validator, p: Parser, h: seq<Byte>,
                                           cs: seq<WireFrame>, f: WireFrame, t: seq<Byte>, chunks: seq<seq<Byte>>,
                                           behind: seq<Beyond>)
    requires Chunked(chunks, behind) && !p.connected && p.stack != []
    requires h != [] && Scan(h, 0, 0) == |h| && validate(h) == 0
    requires OnlyControls(cs) && LegalAll(cfg, Idle, cs) && Legal(cfg, Idle, f) && Known(f) && !IsControl(f)
    requires |Pending(p)| < |h| && Pending(p) + Join(chunks) == h + (EncAll(cfg, Idle, cs) + (Enc(f) + t))
    ensures Leave(cfg, WithEvents(Accepted(cfg, p), YieldAll(cfg, Idle, cs)), 1002).events
         <= ReceiveAll(cfg, validate, p, chunks, behind).events
    decreases |chunks|
  {
    hide Run, Scan, Accepted, EncAll, LegalAll, Known, Legal, Leave, Enc, OnlyControls, YieldAll, Drain;
    var s := EncAll(cfg, Idle, cs) + (Enc(f) + t);
    NoChunks(Pending(p), chunks);
    if chunks != [] {
      var c, rest := chunks[0], chunks[1..];
      var p0, work := p.(frag := None), Pending(p) + c;
      Assoc(Pending(p), c, Join(rest));
      SplitWork(work, Join(rest), h, s);
      FragAside(cfg, p, cs);
      if |work| < |h| {
        ScanShort(h, |work|, 0, 0);
        FragAside(cfg, p0.(frag := Some(work)), cs);
        HandshakeToData(cfg, validate, p0.(frag := Some(work)), h, cs, f, t, rest, behind[1..]);
      } else {
        ScanPrefix(h, work[|h|..], 0, 0);
        AfterHeaderToData(cfg, validate, p0, h, cs, f, t, work[|h|..], rest, behind[0], behind[1..]);
      }
    }
  }

  lemma FragAside(cfg: Config, p: Parser, cs: seq<WireFrame>)
    ensures Leave(cfg, WithEvents(Accepted(cfg, p), YieldAll(cfg, Idle, cs)), 1002).events
         == Leave(cfg, WithEvents(Accepted(cfg, p.(frag := None)), YieldAll(cfg, Idle, cs)), 1002).events
  {
    hide YieldAll;
  }

  lemma AfterHeaderToData(cfg: Config, validate: Validator, p: Parser, h: seq<Byte>, cs: seq<WireFrame>, f: WireFrame,
                          t: seq<Byte>, s1: seq<Byte>, rest: seq<seq<Byte>>, b: Beyond, behind: seq<Beyond>)
    requires Chunked(rest, behind) && p.frag == None && p.stack != []
    requires h != [] && Scan(h, 0, 0) == |h| && validate(h) == 0
    requires OnlyControls(cs) && LegalAll(cfg, Idle, cs) && Legal(cfg, Idle, f) && Known(f) && !IsControl(f)
    requires s1 + Join(rest) == EncAll(cfg, Idle, cs) + (Enc(f) + t)
    ensures Leave(cfg, WithEvents(Accepted(cfg, p), YieldAll(cfg, Idle, cs)), 1002).events
         <= ReceiveAll(cfg, validate, Handshake(cfg, validate, p, h + s1, b), rest, behind).events
  {
    hide Run, Scan, EncAll, LegalAll, Known, Legal, Leave, Enc, OnlyControls, YieldAll, Drain, ReceiveAll, Settled;
    var q := Accepted(cfg, p);
    if Short(cfg, cs, f, s1) {
      ShortRuns(cfg, q, cs, f, t, s1, Join(rest));
      HeaderEnds(cfg, validate, p, h, s1, b);
      SessionToData(cfg, validate, q, cs, f, t, s1, rest, behind);
    } else {
      var t' := s1[|EncAll(cfg, Idle, cs)| + |Enc(f)|..];
      CutBehind(EncAll(cfg, Idle, cs), Enc(f), t, s1, Join(rest));
      DrainToData(cfg, q, cs, f, t', b);
      ScanPrefix(h, s1, 0, 0);
      assert (h + s1)[..|h|] == h && (h + s1)[|h|..] == s1;
      ReceiveAllGrows(cfg, validate, Handshake(cfg, validate, p, h + s1, b), rest, behind);
    }
  }

  // ---- a stream of control frames while a message is open ----

  /** What the stack of a parser says is open */
  function OpenOf(stack: seq<Response>): Open
  {
    if stack == [] then Idle else Inside(stack[0].code == 1, stack[0].buffer)
  }

  lemma HoldsOpen(p: Parser)
    requires StackInv(p.stack)
    ensures Holds(p, OpenOf(p.stack))
  {
    if p.stack != [] { assert p.stack[0].code in {1, 2}; }
  }

  /** What a stream may find: nothing open, or no data of its own. */
  predicate Welcome(stack: seq<Response>, fs: seq<WireFrame>) { stack == [] || OnlyControls(fs) }

  lemma FramesFrom(cfg: Config, stack: seq<Response>, fs: seq<WireFrame>)
    requires LegalAll(cfg, Idle, fs) && Welcome(stack, fs)
    ensures LegalAll(cfg, OpenOf(stack), fs) && EncAll(cfg, OpenOf(stack), fs) == EncAll(cfg, Idle, fs)
    ensures YieldAll(cfg, OpenOf(stack), fs) == YieldAll(cfg, Idle, fs)
    ensures AfterAll(OpenOf(stack), fs) == if stack == [] then AfterAll(Idle, fs) else OpenOf(stack)
  {
    hide LegalAll, EncAll, YieldAll, AfterAll;
    if stack != [] { ControlsAnywhere(cfg, OpenOf(stack), fs); }
  }

  lemma {:induction false} NoIdleStart(cfg: Config, o: Open, fs: seq<WireFrame>, q: nat)
    requires o.Inside? && OnlyControls(fs) && LegalAll(cfg, o, fs)
    ensures !IdleStart(fs, o, q)
    decreases |fs|
  {
    hide EncFrame, Legal;
    if fs != [] && Known(fs[0]) && |Enc(fs[0])| <= q {
      NoIdleStart(cfg, o, fs[1..], q - |Enc(fs[0])|);
    }
  }

  /** Such a stream is clean, split safely or with a message open. */
  lemma {:induction false} WelcomeIsClean(cfg: Config, p: Parser, fs: seq<WireFrame>, close: Option<seq<Byte>>,
                                          before: seq<Byte>, chunks: seq<seq<Byte>>)
    requires StackInv(p.stack) && ValidFrames(cfg, fs, close) && Welcome(p.stack, fs)
    requires p.stack == [] ==> SafeSplit(fs, |before|, chunks)
    requires before + Join(chunks) == Bytes(cfg, fs, close) && forall k :: 0 <= k < |chunks| ==> chunks[k] != []
    ensures Clean(cfg, p, before, chunks)
    decreases |chunks|
  {
    hide IdleAfter, IdleStart, LegalAll, EncAll, OnlyControls, StackInv, Holds, AfterAll, YieldAll;
    if chunks != [] {
      var o := OpenOf(p.stack);
      FramesFrom(cfg, p.stack, fs);
      HoldsOpen(p);
      Assoc(before, chunks[0], Join(chunks[1..]));
      assert Bytes(cfg, fs, close)[..|before|] == before;
      IdleExactly(cfg, p, o, fs, close, |before|);
      if p.stack != [] { NoIdleStart(cfg, o, fs, |before|); }
      WelcomeIsClean(cfg, p, fs, close, before + chunks[0], chunks[1..]);
    }
  }

  /** A welcome stream is acted on to its end. */
  lemma WelcomeRuns(cfg: Config, p: Parser, fs: seq<WireFrame>, close: Option<seq<Byte>>) returns (q: Parser)
    requires StackInv(p.stack) && p.frag == None && ValidFrames(cfg, fs, close) && Welcome(p.stack, fs)
    ensures Reached(p, q, YieldAll(cfg, Idle, fs), if p.stack == [] then AfterAll(Idle, fs) else OpenOf(p.stack))
    ensures var r := Run(cfg, p, Bytes(cfg, fs, close));
            !r.Refused? && Settled(cfg, r) == Ended(cfg, q, close)
  {
    hide Run, LegalAll, EncAll, YieldAll, AfterAll, EncFrame, ReadFrame, WholeClose, CloseReply, Welcome, StackInv,
         OpenOf;
    FramesFrom(cfg, p.stack, fs);
    HoldsOpen(p);
    q := RunFrames(cfg, p, OpenOf(p.stack), fs, CloseBytes(close));
    if close.None? {
      RunShort(cfg, q, []);
    } else {
      var e := EncFrame(true, 8, close.value);
      ReadsClose(cfg, close.value, Zeros());
      CloseIsLong(close.value);
      RunStep(cfg, q, e, Zeros());
    }
  }

  /** The frames of a valid stream are accepted exactly when nothing is open or there is no data among them. */
  lemma WelcomeExactly(cfg: Config, p: Parser, fs: seq<WireFrame>, close: Option<seq<Byte>>)
    requires StackInv(p.stack) && p.frag == None && ValidFrames(cfg, fs, close)
    ensures !Run(cfg, p, Bytes(cfg, fs, close)).Refused? <==> p.stack == [] || OnlyControls(fs)
  {
    hide Run, EncAll, EncFrame, StackInv, CloseBytes;
    if Welcome(p.stack, fs) {
      var _ := WelcomeRuns(cfg, p, fs, close);
    } else {
      var f, t := DataSplits(cfg, fs);
      var cs := LeadingControls(fs);
      SplitBehind(EncAll(cfg, Idle, cs), Enc(f), t, CloseBytes(close));
      RunToData(cfg, p, cs, f, t + CloseBytes(close));
    }
  }

  lemma SplitBehind(a: seq<Byte>, e: seq<Byte>, t: seq<Byte>, u: seq<Byte>)
    ensures a + (e + t) + u == a + (e + (t + u))
  {
  }

  // ---- from the HTTP answer to the end ----

  /** What the client has reported of a stream that it is welcome to read to its end */
  predicate ReportedAll(cfg: Config, p: Parser, q: Parser, st: Stream)
    requires Valid(cfg, st)
  {
    && q.events == p.events + Delivered(cfg, st) && q.frag == None && q.connected == st.close.None?
    && Holds(q, if p.stack == [] then LeftOpen(st) else OpenOf(p.stack))
  }

  /** ... and of one whose data finds another message open: the answers to the control frames before it, and
      a protocol error */
  predicate ReportedError(cfg: Config, p: Parser, q: Parser, fs: seq<WireFrame>)
  {
    Leave(cfg, WithEvents(p, YieldAll(cfg, Idle, LeadingControls(fs))), 1002).events <= q.events
  }

  /** An accepted HTTP answer, its first blank line at its end and not behind an odd run of carriage returns,
      followed by a valid stream, cut into chunks anywhere (also across the end of the header), but safely
      behind it. On a parser without an open message, or with no data in the stream, the connection is
      reported, then every message and pong in order, then the end, if any. On a parser that still has a
      message open from the connection before, the first data frame is answered with a protocol error. */
  lemma HandshakeThenStream(cfg: Config, validate: Validator, p: Parser, h: seq<Byte>, st: Stream,
                            chunks: seq<seq<Byte>>, behind: seq<Beyond>)
    requires Chunked(chunks, behind) && !p.connected && p.frag == None && StackInv(p.stack)
    requires FirstEnd(h, |h|) && ReturnsBefore(h, |h| - 4) % 2 == 0 && validate(h) == 0 && Valid(cfg, st)
    requires Join(chunks) == h + Wire(cfg, st)
    requires p.stack == [] ==> SafeSplit(FramesOf(st), 0, Past(chunks, |h|))
    ensures var q := ReceiveAll(cfg, validate, p, chunks, behind);
            if p.stack == [] || OnlyControls(FramesOf(st)) then ReportedAll(cfg, Accepted(cfg, p), q, st)
            else ReportedError(cfg, Accepted(cfg, p), q, FramesOf(st))
  {
    hide Run, Scan, ReceiveAll, Past, Wire, Delivered, Valid, Join, FramesOf, LeftOpen, SafeSplit, Clean, Settled,
         ReturnsBefore, FirstEnd, StackInv, OnlyControls, ReportedAll, Accepted;
    HeaderFoundExactly(h, |h|);
    EndIsInside(h, |h|);
    AcceptedState(cfg, p);
    assert [] + Join(chunks) == Join(chunks);
    PastJoin(chunks, |h|);
    assert (h + Wire(cfg, st))[|h|..] == Wire(cfg, st);
    if p.stack == [] || OnlyControls(FramesOf(st)) {
      WelcomeStream(cfg, Accepted(cfg, p), st, Past(chunks, |h|));
      ThroughHandshake(cfg, validate, p, h, Wire(cfg, st), chunks, behind);
    } else {
      UnwelcomeStream(cfg, validate, p, h, st, chunks, behind);
    }
  }

  lemma AcceptedState(cfg: Config, p: Parser)
    ensures var q := Accepted(cfg, p);
            && q.connected && !q.didDisconnect && q.stack == p.stack && q.frag == p.frag
            && q.events == p.events + if cfg.canDispatch then [Connected] else []
  {
  }

  lemma UnwelcomeStream(cfg: Config, validate: Validator, p: Parser, h: seq<Byte>, st: Stream,
                        chunks: seq<seq<Byte>>, behind: seq<Beyond>)
    requires Chunked(chunks, behind) && !p.connected && p.frag == None && p.stack != []
    requires h != [] && Scan(h, 0, 0) == |h| && validate(h) == 0 && Valid(cfg, st) && !OnlyControls(FramesOf(st))
    requires Join(chunks) == h + Wire(cfg, st)
    ensures ReportedError(cfg, Accepted(cfg, p), ReceiveAll(cfg, validate, p, chunks, behind), FramesOf(st))
  {
    hide Scan, ReceiveAll, Valid, Join, FramesOf, Accepted, Leave, EncAll, EncFrame, CloseBytes, OnlyControls, YieldAll,
         Delivered, LeftOpen, Farewell;
    MessagesAreFrames(cfg, st);
    var f, t := DataSplits(cfg, FramesOf(st));
    var cs := LeadingControls(FramesOf(st));
    SplitBehind(EncAll(cfg, Idle, cs), Enc(f), t, CloseBytes(st.close));
    assert [] + Join(chunks) == Join(chunks);
    HandshakeToData(cfg, validate, p, h, cs, f, t + CloseBytes(st.close), chunks, behind);
  }

  /** What running a welcome stream comes to, and that safe splits of it are clean */
  lemma WelcomeStream(cfg: Config, p: Parser, st: Stream, chunks: seq<seq<Byte>>)
    requires StackInv(p.stack) && p.frag == None && p.connected && !p.didDisconnect && Valid(cfg, st)
    requires p.stack == [] || OnlyControls(FramesOf(st))
    requires Join(chunks) == Wire(cfg, st) && (p.stack == [] ==> SafeSplit(FramesOf(st), 0, chunks))
    requires forall k :: 0 <= k < |chunks| ==> chunks[k] != []
    ensures Clean(cfg, p, [], chunks) && !Run(cfg, p, Wire(cfg, st)).Refused?
    ensures ReportedAll(cfg, p, Settled(cfg, Run(cfg, p, Wire(cfg, st))), st)
  {
    hide Run, Clean, Join, Bytes, SafeSplit, YieldAll, AfterAll, Farewell, CloseReply, Delivered, Valid, FramesOf,
         LeftOpen, ValidFrames, Settled, OpenOf, StackInv, OnlyControls;
    MessagesAreFrames(cfg, st);
    var fs := FramesOf(st);
    var q := WelcomeRuns(cfg, p, fs, st.close);
    var o := if p.stack == [] then LeftOpen(st) else OpenOf(p.stack);
    CloseIsValid(cfg, fs, st.close);
    EndedEvents(cfg, p, q, YieldAll(cfg, Idle, fs), o, st.close);
    EndedHolds(cfg, p, q, YieldAll(cfg, Idle, fs), o, st.close);
    EndedConnected(cfg, p, q, YieldAll(cfg, Idle, fs), o, st.close);
    assert [] + Join(chunks) == Join(chunks);
    WelcomeIsClean(cfg, p, fs, st.close, [], chunks);
  }

  lemma EndedConnected(cfg: Config, p: Parser, q: Parser, e: seq<Event>, o: Open, close: Option<seq<Byte>>)
    requires Reached(p, q, e, o) && (close.Some? ==> ValidClose(close.value)) && p.connected && !p.didDisconnect
    ensures Ended(cfg, q, close).connected == close.None?
  {
    hide CloseReply, Holds;
  }

  // ---- an input ----

  const HALF: seq<Byte> := [1, 1, 104, 0x88, 0] // the first letter of a text, and a close frame
  const WHOLE: seq<Byte> := [0x81, 1, 65] // a text of one letter

  lemma HalfReceived(cfg: Config, p: Parser, b: Beyond)
    requires p.stack == [] && p.frag == None && !p.didDisconnect
    ensures Feed(cfg, p, HALF, b) == Leave(cfg, p.(stack := [Response(1, false, 0, 1, [104])]), 1000)
  {
    hide Leave, BigEndian;
    var q := p.(stack := [Response(1, false, 0, 1, [104])]);
    assert ReadFrame(cfg, HALF, b) == Whole(false, 1, [104], 3);
    assert HALF[3..] == [0x88, 0];
    assert ReadFrame(cfg, [0x88, 0], b) == Closing(1000);
    assert Next(cfg, p, HALF, b) == (q, [0x88, 0]);
    assert Next(cfg, q, [0x88, 0], b) == (Leave(cfg, q, 1000), []);
  }

  /** A server closes in the middle of a text; the client connects again, and the one-letter text that it is
      sent then is not delivered but answered with a protocol error. */
  lemma MessageLostAfterReconnect(cfg: Config, validate: Validator, p: Parser, h: seq<Byte>, behind: seq<Beyond>)
    requires p.connected && p.stack == [] && p.frag == None && !p.didDisconnect && |behind| == 2
    requires FirstEnd(h, |h|) && ReturnsBefore(h, |h| - 4) % 2 == 0 && validate(h) == 0
    ensures var p1 := Receive(cfg, validate, p, HALF, behind[0]);
            && p1 == Leave(cfg, p.(stack := [Response(1, false, 0, 1, [104])]), 1000)
            && Receive(cfg, validate, p1, h + WHOLE, behind[1]) == Leave(cfg, Accepted(cfg, p1), 1002)
  {
    hide Leave, BigEndian, Scan, Accepted, Drain, ReturnsBefore, FirstEnd;
    HalfReceived(cfg, p, behind[0]);
    HeaderFoundExactly(h, |h|);
    EndIsInside(h, |h|);
    var q := p.(stack := [Response(1, false, 0, 1, [104])]);
    LeaveKeeps(cfg, q, 1000);
    var p1 := Leave(cfg, q, 1000);
    ScanPrefix(h, WHOLE, 0, 0);
    assert [] + (h + WHOLE) == h + WHOLE && (h + WHOLE)[..|h|] == h && (h + WHOLE)[|h|..] == WHOLE;
    AcceptedState(cfg, p1);
    WholeRefused(cfg, Accepted(cfg, p1), behind[1]);
  }

  lemma WholeRefused(cfg: Config, p: Parser, b: Beyond)
    requires p.stack != []
    ensures Drain(cfg, p, WHOLE, b) == Leave(cfg, p, 1002)
  {
    hide Leave, BigEndian;
    assert ReadFrame(cfg, WHOLE, b) == Whole(true, 1, [65], 3);
  }
}
