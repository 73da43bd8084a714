/** From the first byte of the HTTP answer to the last message: processHTTP and dequeueInput. */
module WebSocketHandshake {
  import opened Common
  import opened WebSocketFrames
  import opened WebSocketChunks
  import opened WebSocketStreams

  const CRLF2: seq<Byte> := [13, 10, 13, 10]

  /** The search of processHTTP from position i with k bytes of the terminator matched: the size of
      the header, or 0. A mismatch starts over behind the mismatching byte. */
  function Scan(buf: seq<Byte>, i: nat, k: nat): (n: nat)
    requires k < 4 && i <= |buf|
    ensures n <= |buf| && (n > 0 ==> n > i)
    decreases |buf| - i
  {
    if i == |buf| then 0
    else if buf[i] != CRLF2[k] then Scan(buf, i + 1, 0)
    else if k == 3 then i + 1
    else Scan(buf, i + 1, k + 1)
  }

  /** validateResponse: 0, -1 for "not yet or not acceptable", or an HTTP status */
  type Validator = seq<Byte> -> int

  function Accepted(cfg: Config, p: Parser): Parser
  {
    Emit(cfg, p.(connected := true, didDisconnect := false), Connected)
  }

  /** processHTTP and processTCPHandshake on everything received so far */
  function Handshake(cfg: Config, validate: Validator, p: Parser, work: seq<Byte>, beyond: Beyond): Parser
  {
    var n := Scan(work, 0, 0);
    var code := if n > 0 then validate(work[..n]) else -1;
    if code == 0 then if n < |work| then Drain(cfg, Accepted(cfg, p), work[n..], beyond) else Accepted(cfg, p)
    else if code == -1 then p.(frag := Some(work))
    else Disconnect(cfg, p, code)
  }

  /** dequeueInput for one chunk */
  function Receive(cfg: Config, validate: Validator, p: Parser, chunk: seq<Byte>, beyond: Beyond): Parser
    requires chunk != []
  {
    if p.connected then Feed(cfg, p, chunk, beyond)
    else Handshake(cfg, validate, p.(frag := None), Pending(p) + chunk, beyond)
  }

  function ReceiveAll(cfg: Config, validate: Validator, p: Parser, chunks: seq<seq<Byte>>, behind: seq<Beyond>): Parser
    requires Chunked(chunks, behind)
    decreases |chunks|
  {
    if chunks == [] then p
    else ReceiveAll(cfg, validate, Receive(cfg, validate, p, chunks[0], behind[0]), chunks[1..], behind[1..])
  }

  // ---- the header's end ----

  /** Seeing more bytes does not move the end of the header, and before it there is none. */
  lemma {:induction false} ScanPrefix(h: seq<Byte>, t: seq<Byte>, i: nat, k: nat)
    requires k < 4 && i <= |h| && Scan(h, i, k) > 0
    ensures Scan(h + t, i, k) == Scan(h, i, k)
    decreases |h| - i
  {
    if h[i] != CRLF2[k] {
      ScanPrefix(h, t, i + 1, 0);
    } else if k < 3 {
      ScanPrefix(h, t, i + 1, k + 1);
    }
  }

  lemma {:induction false} ScanShort(h: seq<Byte>, m: nat, i: nat, k: nat)
    requires k < 4 && i <= m < |h| && Scan(h, i, k) == |h|
    ensures Scan(h[..m], i, k) == 0
    decreases m - i
  {
    if i < m {
      if h[i] != CRLF2[k] {
        ScanShort(h, m, i + 1, 0);
      } else if k < 3 {
        ScanShort(h, m, i + 1, k + 1);
      }
    }
  }

  // ---- when the search finds the blank line ----

  predicate EndsAt(buf: seq<Byte>, e: nat)
  {
    4 <= e <= |buf| && buf[e - 4] == 13 && buf[e - 3] == 10 && buf[e - 2] == 13 && buf[e - 1] == 10
  }

  /** The first CR LF CR LF in buf ends at e. */
  predicate FirstEnd(buf: seq<Byte>, e: nat)
  {
    EndsAt(buf, e) && forall j: nat :: j < e ==> !EndsAt(buf, j)
  }

  /** Carriage returns directly before position i */
  function ReturnsBefore(buf: seq<Byte>, i: nat): nat
    requires i <= |buf|
  {
    if i == 0 || buf[i - 1] != 13 then 0 else 1 + ReturnsBefore(buf, i - 1)
  }

  /** k bytes of the terminator are matched before position i; k is odd after an odd run of returns. */
  predicate Matched(buf: seq<Byte>, i: nat, k: nat)
  {
    && k < 4 && k <= i <= |buf| && k % 2 == ReturnsBefore(buf, i) % 2
    && forall j :: 0 <= j < k ==> buf[i - k + j] == CRLF2[j]
  }

  lemma MatchedStep(buf: seq<Byte>, i: nat, k: nat)
    requires Matched(buf, i, k) && i < |buf| && !(k == 3 && buf[i] == 10)
    ensures Matched(buf, i + 1, if buf[i] == CRLF2[k] then k + 1 else 0)
  {
  }

  lemma MatchedBytes(buf: seq<Byte>, i: nat, k: nat)
    requires Matched(buf, i, k)
    ensures k == 2 ==> buf[i - 2] == 13 && buf[i - 1] == 10
    ensures k == 3 ==> buf[i - 3] == 13 && buf[i - 2] == 10 && buf[i - 1] == 13
  {
    if k >= 2 { assert buf[i - k + 0] == CRLF2[0] && buf[i - k + 1] == CRLF2[1]; }
    if k == 3 { assert buf[i - k + 2] == CRLF2[2]; }
  }

  lemma ScanFromBlankLine(buf: seq<Byte>, e: nat, k: nat)
    requires EndsAt(buf, e) && k < 4 && k != 2
    ensures Scan(buf, e - 4, k) == e <==> k == 0
  {
    if k == 0 {
      assert Scan(buf, e - 4, 0) == Scan(buf, e - 3, 1) == Scan(buf, e - 2, 2) == Scan(buf, e - 1, 3);
    } else {
      assert Scan(buf, e - 4, k) == Scan(buf, e - 3, 0) == Scan(buf, e - 2, 0) == Scan(buf, e - 1, 1)
          == Scan(buf, e, 2);
    }
  }

  lemma {:induction false} ScanToBlankLine(buf: seq<Byte>, e: nat, i: nat, k: nat)
    requires FirstEnd(buf, e) && i <= e - 4 && Matched(buf, i, k)
    ensures Scan(buf, i, k) == e <==> ReturnsBefore(buf, e - 4) % 2 == 0
    decreases e - i
  {
    MatchedBytes(buf, i, k);
    if i == e - 4 {
      assert !EndsAt(buf, e - 2);
      ScanFromBlankLine(buf, e, k);
    } else {
      assert !EndsAt(buf, i + 1);
      MatchedStep(buf, i, k);
      ScanToBlankLine(buf, e, i + 1, if buf[i] == CRLF2[k] then k + 1 else 0);
    }
  }

  /** The search stops at the first blank line exactly when an even number of carriage returns (usually
      none) stands directly before it: after a mismatch it does not look at the byte again. */
  lemma HeaderFoundExactly(buf: seq<Byte>, e: nat)
    requires FirstEnd(buf, e)
    ensures Scan(buf, 0, 0) == e <==> ReturnsBefore(buf, e - 4) % 2 == 0
  {
    hide Scan;
    ScanToBlankLine(buf, e, 0, 0);
  }

  lemma EndIsInside(buf: seq<Byte>, e: nat)
    requires FirstEnd(buf, e)
    ensures 4 <= e <= |buf|
  {
  }

  // ---- once connected ----

  lemma ApplyConnected(cfg: Config, p: Parser, fin: bool, op: nat, payload: seq<Byte>)
    ensures Apply(cfg, p, fin, op, payload).Continue? ==> Apply(cfg, p, fin, op, payload).p.connected == p.connected
  {
  }

  lemma {:induction false} RunConnected(cfg: Config, p: Parser, s: seq<Byte>)
    requires Run(cfg, p, s).Ran?
    ensures Run(cfg, p, s).p.connected == p.connected
    decreases |s|
  {
    hide ReadFrame, Apply, Run;
    if |s| < 2 {
      RunShort(cfg, p, s);
    } else {
      RunStep(cfg, p, s, Zeros());
      var f := ReadFrame(cfg, s, Zeros());
      if f.Whole? {
        ApplyConnected(cfg, p, f.fin, f.op, f.payload);
        RunConnected(cfg, Apply(cfg, p, f.fin, f.op, f.payload).p, s[f.size..]);
      }
    }
  }

  /** As long as no close frame has come, chunks go to the frame parser. */
  lemma {:induction false} ReceiveRuns(cfg: Config, validate: Validator, p: Parser, before: seq<Byte>,
                                       chunks: seq<seq<Byte>>, behind: seq<Beyond>)
    requires Chunked(chunks, behind) && p.connected && p.frag == None && Clean(cfg, p, before, chunks)
    requires !Run(cfg, p, before + Join(chunks)).Refused?
    ensures !Run(cfg, p, before).Refused?
    ensures ReceiveAll(cfg, validate, Settled(cfg, Run(cfg, p, before)), chunks, behind)
         == Settled(cfg, Run(cfg, p, before + Join(chunks)))
    decreases |chunks|
  {
    hide Run, Feed, Handshake, Settled, Scan, IdleAfter;
    if chunks == [] {
      assert before + Join(chunks) == before;
    } else {
      var c, cs := chunks[0], chunks[1..];
      Assoc(before, c, Join(cs));
      Readies(cfg, p, before + c, cs);
      ChunkRuns(cfg, p, before, c, behind[0]);
      RunConnected(cfg, p, before);
      SettledConnected(cfg, Run(cfg, p, before));
      ReceiveRuns(cfg, validate, p, before + c, cs, behind[1..]);
    }
  }

  lemma SettledConnected(cfg: Config, r: Ran)
    requires r.Ran?
    ensures Settled(cfg, r).connected == r.p.connected
  {
  }

  // ---- header and frames in any chunks ----

  lemma SplitWork(work: seq<Byte>, more: seq<Byte>, h: seq<Byte>, s: seq<Byte>)
    requires work + more == h + s
    ensures |work| < |h| ==> work == h[..|work|]
    ensures |work| >= |h| ==> work == h + work[|h|..] && work[..|h|] == h && s == work[|h|..] + more
  {
    if |work| < |h| {
      assert work == (work + more)[..|work|] == (h + s)[..|work|] == h[..|work|];
    } else {
      assert work[..|h|] == (work + more)[..|h|] == (h + s)[..|h|] == h;
      assert s == (h + s)[|h|..] == (work + more)[|h|..] == work[|h|..] + more;
    }
  }

  /** The chunk that completes the header: what follows it in the buffer is parsed at once. */
  lemma HeaderEnds(cfg: Config, validate: Validator, p: Parser, h: seq<Byte>, s: seq<Byte>, b: Beyond)
    requires p.frag == None && h != [] && Scan(h, 0, 0) == |h| && validate(h) == 0
    requires s != [] ==> Readable(Accepted(cfg, p), s)
    requires !Run(cfg, Accepted(cfg, p), s).Refused?
    ensures Handshake(cfg, validate, p, h + s, b) == Settled(cfg, Run(cfg, Accepted(cfg, p), s))
  {
    hide Run, Scan, Drain;
    ScanPrefix(h, s, 0, 0);
    assert (h + s)[..|h|] == h && (h + s)[|h|..] == s;
    if s == [] {
      RunShort(cfg, Accepted(cfg, p), s);
    } else {
      DrainIsRun(cfg, Accepted(cfg, p), s, b);
    }
  }

  /** The chunks that remain of a stream when its first n bytes are taken off */
  function Past(chunks: seq<seq<Byte>>, n: nat): seq<seq<Byte>>
  {
    if n == 0 || chunks == [] then chunks
    else if |chunks[0]| <= n then Past(chunks[1..], n - |chunks[0]|)
    else [chunks[0][n..]] + chunks[1..]
  }

  /** What comes behind the header in the buffer that completes it, and the chunks after it */
  lemma AfterHeader(cfg: Config, validate: Validator, p: Parser, h: seq<Byte>, s1: seq<Byte>, cs: seq<seq<Byte>>,
                    b: Beyond, behind: seq<Beyond>)
    requires Chunked(cs, behind) && p.frag == None && h != [] && Scan(h, 0, 0) == |h| && validate(h) == 0
    requires Clean(cfg, Accepted(cfg, p), [], if s1 == [] then cs else [s1] + cs)
    requires !Run(cfg, Accepted(cfg, p), s1 + Join(cs)).Refused?
    ensures ReceiveAll(cfg, validate, Handshake(cfg, validate, p, h + s1, b), cs, behind)
         == Settled(cfg, Run(cfg, Accepted(cfg, p), s1 + Join(cs)))
  {
    hide Run, Scan, Handshake, ReceiveAll, Settled;
    var q := Accepted(cfg, p);
    Readies(cfg, q, s1, cs);
    RunShort(cfg, q, []);
    assert s1 != [] ==> ([s1] + cs)[1..] == cs && [] + s1 == s1;
    HeaderEnds(cfg, validate, p, h, s1, b);
    ReceiveRuns(cfg, validate, q, s1, cs, behind);
  }

  lemma {:induction false} ThroughHandshake(cfg: Config, validate: Validator, p: Parser, h: seq<Byte>, s: seq<Byte>,
                                            chunks: seq<seq<Byte>>, behind: seq<Beyond>)
    requires Chunked(chunks, behind) && !p.connected && h != [] && Scan(h, 0, 0) == |h| && validate(h) == 0
    requires |Pending(p)| < |h| && Pending(p) + Join(chunks) == h + s
    requires Clean(cfg, Accepted(cfg, p.(frag := None)), [], Past(chunks, |h| - |Pending(p)|))
    requires !Run(cfg, Accepted(cfg, p.(frag := None)), s).Refused?
    ensures ReceiveAll(cfg, validate, p, chunks, behind) == Settled(cfg, Run(cfg, Accepted(cfg, p.(frag := None)), s))
    decreases |chunks|
  {
    hide Run, Scan, Accepted, Clean, Settled;
    NoChunks(Pending(p), chunks);
    if chunks != [] {
      var c, cs := chunks[0], chunks[1..];
      var p0, work := p.(frag := None), Pending(p) + c;
      Assoc(Pending(p), c, Join(cs));
      SplitWork(work, Join(cs), h, s);
      if |work| < |h| {
        ScanShort(h, |work|, 0, 0);
        ThroughHandshake(cfg, validate, p0.(frag := Some(work)), h, s, cs, behind[1..]);
      } else {
        assert work[|h|..] == c[|h| - |Pending(p)|..];
        PastNothing(cs);
        AfterHeader(cfg, validate, p0, h, work[|h|..], cs, behind[0], behind[1..]);
      }
    }
  }

  lemma PastNothing(chunks: seq<seq<Byte>>)
    ensures Past(chunks, 0) == chunks
  {
  }

  lemma NoChunks(a: seq<Byte>, chunks: seq<seq<Byte>>)
    ensures chunks == [] ==> |a + Join(chunks)| == |a|
  {
  }

  lemma {:induction false} PastJoin(chunks: seq<seq<Byte>>, n: nat)
    requires n <= |Join(chunks)|
    ensures Join(Past(chunks, n)) == Join(chunks)[n..]
    ensures (forall k :: 0 <= k < |chunks| ==> chunks[k] != []) ==>
              forall k :: 0 <= k < |Past(chunks, n)| ==> Past(chunks, n)[k] != []
    decreases |chunks|
  {
    if n > 0 && chunks != [] {
      var c, cs := chunks[0], chunks[1..];
      if |c| <= n {
        PastJoin(cs, n - |c|);
      } else {
        assert ([c[n..]] + cs)[1..] == cs;
      }
    }
  }

  const BROKEN: seq<Byte> := [72, 13, 13, 10, 13, 10]

  lemma BrokenScan()
    ensures Scan(BROKEN, 0, 0) == 0
  {
    assert Scan(BROKEN, 3, 0) == Scan(BROKEN, 4, 0) == Scan(BROKEN, 5, 1) == Scan(BROKEN, 6, 2) == 0;
    assert Scan(BROKEN, 0, 0) == Scan(BROKEN, 1, 0) == Scan(BROKEN, 2, 1) == Scan(BROKEN, 3, 0);
  }

  /** A line that ends in an extra carriage return hides the blank line behind it: nothing is accepted. */
  lemma ExtraReturnHidesHeader(cfg: Config, validate: Validator, p: Parser, b: Beyond)
    requires !p.connected && p.frag == None
    ensures FirstEnd(BROKEN, |BROKEN|) && Receive(cfg, validate, p, BROKEN, b) == p.(frag := Some(BROKEN))
  {
    hide Scan;
    BrokenScan();
    assert [] + BROKEN == BROKEN;
  }

  // ---- disconnection is reported once ----

  /** A disconnection has been reported since the connection was last reported. */
  predicate Down(events: seq<Event>)
  {
    events != [] &&
    var last := events[|events| - 1];
    last.Disconnected? || (!last.Connected? && Down(events[..|events| - 1]))
  }

  /** Between two disconnections there is a connection. */
  predicate Once(events: seq<Event>)
  {
    forall i, j :: 0 <= i < j < |events| && events[i].Disconnected? && events[j].Disconnected? ==>
      exists k :: i < k < j && events[k].Connected?
  }

  /** A disconnection that has been reported is remembered until the next connection. */
  predicate Remembered(cfg: Config, p: Parser)
  {
    Once(p.events) && (Down(p.events) ==> p.didDisconnect && cfg.canDispatch)
  }

  lemma {:induction false} NotDown(events: seq<Event>, i: nat)
    requires i < |events| && events[i].Disconnected? && !Down(events)
    ensures exists k :: i < k < |events| && events[k].Connected?
    decreases |events|
  {
    var n := |events| - 1;
    if events[n].Connected? {
      assert i < n;
    } else {
      NotDown(events[..n], i);
      var k :| i < k < n && events[..n][k].Connected?;
      assert events[k].Connected?;
    }
  }

  lemma OnceMore(events: seq<Event>, e: Event)
    requires Once(events) && (e.Disconnected? ==> !Down(events))
    ensures Once(events + [e])
    ensures Down(events + [e]) <==> e.Disconnected? || (!e.Connected? && Down(events))
  {
    var es := events + [e];
    assert es[..|events|] == events;
    forall i, j | 0 <= i < j < |es| && es[i].Disconnected? && es[j].Disconnected?
      ensures exists k :: i < k < j && es[k].Connected?
    {
      if j < |events| {
        var k :| i < k < j && events[k].Connected?;
        assert es[k].Connected?;
      } else {
        NotDown(events, i);
        var k :| i < k < |events| && events[k].Connected?;
        assert es[k].Connected?;
      }
    }
  }

  /** The parser's own events, other than these two, do not matter. */
  predicate Harmless(e: Event) { !e.Disconnected? && !e.Connected? }

  lemma EventRemembered(cfg: Config, p: Parser, q: Parser, e: Event)
    requires Remembered(cfg, p) && Harmless(e) && q.didDisconnect == p.didDisconnect
    requires q.events == p.events || q.events == p.events + [e]
    ensures Remembered(cfg, q)
  {
    hide Once, Down;
    OnceMore(p.events, e);
  }

  lemma LeaveRemembered(cfg: Config, p: Parser, code: int)
    requires Remembered(cfg, p)
    ensures Remembered(cfg, Disconnect(cfg, p, code))
  {
    hide Once, Down;
    if !p.didDisconnect { OnceMore(p.events, Disconnected(code)); }
  }

  lemma SendRemembered(cfg: Config, p: Parser, code: nat)
    requires Remembered(cfg, p)
    ensures Remembered(cfg, SendClose(p, code)) && Remembered(cfg, Leave(cfg, p, code))
  {
    hide Once, Down, Remembered, Disconnect;
    EventRemembered(cfg, p, SendClose(p, code), CloseSent(code));
    LeaveRemembered(cfg, p, code);
    EventRemembered(cfg, Disconnect(cfg, p, code), Leave(cfg, p, code), CloseSent(code));
  }

  lemma FinishRemembered(cfg: Config, p: Parser)
    requires p.stack != [] && Remembered(cfg, p)
    ensures Remembered(cfg, Finish(cfg, p))
  {
    hide Remembered;
    var r := p.stack[|p.stack| - 1];
    var e := if r.code == 9 then PongSent(r.buffer) else if r.code == 2 then Binary(r.buffer)
             else if cfg.utf8(r.buffer) then Text(r.buffer) else CloseSent(1007);
    EventRemembered(cfg, p, Finish(cfg, p), e);
  }

  /** The stack plays no part. */
  lemma StackForgotten(cfg: Config, p: Parser, stack: seq<Response>)
    requires Remembered(cfg, p)
    ensures Remembered(cfg, p.(stack := stack))
  {
    hide Once, Down;
  }

  lemma ApplyRemembered(cfg: Config, p: Parser, fin: bool, op: nat, payload: seq<Byte>)
    requires Remembered(cfg, p)
    ensures Remembered(cfg, Apply(cfg, p, fin, op, payload).p)
  {
    hide Finish, Remembered, Leave;
    SendRemembered(cfg, p, 1002);
    if op == 10 || op == 9 {
      EventRemembered(cfg, p, Apply(cfg, p, fin, op, payload).p,
                      if op == 10 then PongReceived(payload) else PongSent(payload));
    } else if p.stack == [] {
      var stack := [Response(op, fin, 0, 1, payload)];
      StackForgotten(cfg, p, stack);
      FinishRemembered(cfg, p.(stack := stack));
    } else {
      var r := p.stack[|p.stack| - 1];
      var r' := r.(isFin := fin, bytesLeft := 0, frameCount := r.frameCount + 1, buffer := r.buffer + payload);
      StackForgotten(cfg, p, p.stack[|p.stack| - 1 := r']);
      FinishRemembered(cfg, p.(stack := p.stack[|p.stack| - 1 := r']));
    }
  }

  /** Neither does what is kept for later. */
  lemma FragForgotten(cfg: Config, p: Parser, q: Parser)
    requires Remembered(cfg, p) && q.events == p.events && q.didDisconnect == p.didDisconnect
    ensures Remembered(cfg, q)
  {
    hide Once, Down;
  }

  lemma NextRemembered(cfg: Config, p: Parser, buf: seq<Byte>, b: Beyond)
    requires Remembered(cfg, p)
    ensures Remembered(cfg, Next(cfg, p, buf, b).0)
  {
    hide ReadFrame, Apply, Remembered, Leave, SendClose;
    FragForgotten(cfg, p, p.(frag := Some(buf)));
    FragForgotten(cfg, p, p.(trapped := true));
    if buf != [] {
      var f := ReadFrame(cfg, buf, b);
      if f.Whole? {
        ApplyRemembered(cfg, p, f.fin, f.op, f.payload);
      } else {
        SendRemembered(cfg, p, if f.Closing? then f.code else 1002);
      }
    }
  }

  lemma {:induction false} DrainRemembered(cfg: Config, p: Parser, buf: seq<Byte>, b: Beyond)
    requires Remembered(cfg, p) && buf != []
    ensures Remembered(cfg, Drain(cfg, p, buf, b))
    decreases |buf|
  {
    hide Next, Remembered;
    NextRemembered(cfg, p, buf, b);
    var (p', rest) := Next(cfg, p, buf, b);
    FragForgotten(cfg, p', p'.(frag := Some(rest)));
    if |rest| >= 2 { DrainRemembered(cfg, p', rest, b); }
  }

  lemma AcceptedRemembered(cfg: Config, p: Parser)
    requires Remembered(cfg, p)
    ensures Remembered(cfg, Accepted(cfg, p))
  {
    hide Once, Down;
    OnceMore(p.events, Connected);
  }

  lemma ReceiveRemembered(cfg: Config, validate: Validator, p: Parser, chunk: seq<Byte>, b: Beyond)
    requires Remembered(cfg, p) && chunk != []
    ensures Remembered(cfg, Receive(cfg, validate, p, chunk, b))
  {
    hide Drain, Remembered, Accepted, Disconnect, Scan;
    var p0, work := p.(frag := None), Pending(p) + chunk;
    FragForgotten(cfg, p, p0);
    assert [] + chunk == chunk;
    if p.connected {
      DrainRemembered(cfg, p0, work, b);
    } else {
      var n := Scan(work, 0, 0);
      AcceptedRemembered(cfg, p0);
      FragForgotten(cfg, p0, p0.(frag := Some(work)));
      if n > 0 { LeaveRemembered(cfg, p0, validate(work[..n])); }
      if 0 < n < |work| { DrainRemembered(cfg, Accepted(cfg, p0), work[n..], b); }
    }
  }

  /** Whatever the server sends, in whatever chunks: two disconnections are never reported without a
      connection between them. A parser that has reported nothing yet has nothing to remember. */
  lemma {:induction false} DisconnectedOnce(cfg: Config, validate: Validator, p: Parser, chunks: seq<seq<Byte>>,
                                            behind: seq<Beyond>)
    requires Chunked(chunks, behind) && Remembered(cfg, p)
    ensures Once(ReceiveAll(cfg, validate, p, chunks, behind).events)
    decreases |chunks|
  {
    hide Receive, Once, Down;
    if chunks != [] {
      ReceiveRemembered(cfg, validate, p, chunks[0], behind[0]);
      DisconnectedOnce(cfg, validate, Receive(cfg, validate, p, chunks[0], behind[0]), chunks[1..], behind[1..]);
    }
  }
}
