/** What the client does with a server that does not keep to the protocol, and with the examples of RFC 6455. */
module WebSocketErrors {
  import opened Common
  import opened WebSocketFrames
  import opened WebSocketChunks
  import opened WebSocketStreams
  import opened WebSocketHandshake
  import opened WebSocketSessions

  // ---- refused and unfinished upgrades ----

  /** q is p with nothing pending, disconnected for this reason, and the program told so if it listens. */
  predicate GaveUp(cfg: Config, p: Parser, q: Parser, code: int)
  {
    && q.events == p.events + (if cfg.canDispatch then [Disconnected(code)] else [])
    && q.frag == None && q.didDisconnect && !q.connected && q.stack == p.stack && q.trapped == p.trapped
  }

  /** The chunk that completes a refused answer ends the attempt, whatever follows the header in it. */
  lemma RefusedAtOnce(cfg: Config, validate: Validator, p: Parser, h: seq<Byte>, s: seq<Byte>, b: Beyond)
    requires p.frag == None && !p.didDisconnect && h != [] && Scan(h, 0, 0) == |h| && validate(h) !in {0, -1}
    ensures GaveUp(cfg, p, Handshake(cfg, validate, p, h + s, b), validate(h))
  {
    hide Scan, Drain;
    ScanPrefix(h, s, 0, 0);
    assert (h + s)[..|h|] == h;
  }

  /** The first k chunks are the ones that bring the header. */
  lemma {:induction false} RefusedAfter(cfg: Config, validate: Validator, p: Parser, h: seq<Byte>, s: seq<Byte>,
                                        chunks: seq<seq<Byte>>, behind: seq<Beyond>) returns (k: nat)
    requires Chunked(chunks, behind) && !p.connected && !p.didDisconnect
    requires h != [] && Scan(h, 0, 0) == |h| && validate(h) !in {0, -1}
    requires |Pending(p)| < |h| && Pending(p) + Join(chunks) == h + s
    ensures k <= |chunks| && (s == [] ==> k == |chunks|)
    ensures GaveUp(cfg, p, ReceiveAll(cfg, validate, p, chunks[..k], behind[..k]), validate(h))
    decreases |chunks|
  {
    hide Scan, GaveUp, Drain;
    NoChunks(Pending(p), chunks);
    if chunks != [] {
      var c, cs := chunks[0], chunks[1..];
      var p0, work := p.(frag := None), Pending(p) + c;
      Assoc(Pending(p), c, Join(cs));
      SplitWork(work, Join(cs), h, s);
      if |work| < |h| {
        ScanShort(h, |work|, 0, 0);
        var p1 := p0.(frag := Some(work));
        assert Receive(cfg, validate, p, c, behind[0]) == p1;
        k := RefusedAfter(cfg, validate, p1, h, s, cs, behind[1..]);
        FirstReceive(cfg, validate, p, chunks, behind, k + 1);
        k := k + 1;
        FragRegardless(cfg, p, p1, ReceiveAll(cfg, validate, p, chunks[..k], behind[..k]), validate(h));
      } else {
        k := 1;
        RefusedAtOnce(cfg, validate, p0, h, work[|h|..], behind[0]);
        FirstReceive(cfg, validate, p, chunks, behind, 1);
        FragRegardless(cfg, p, p0, ReceiveAll(cfg, validate, p, chunks[..1], behind[..1]), validate(h));
        if s == [] { NothingJoined(cs); }
      }
    }
  }

  lemma FirstReceive(cfg: Config, validate: Validator, p: Parser, chunks: seq<seq<Byte>>, behind: seq<Beyond>, k: nat)
    requires Chunked(chunks, behind) && 1 <= k <= |chunks|
    ensures ReceiveAll(cfg, validate, p, chunks[..k], behind[..k])
         == ReceiveAll(cfg, validate, Receive(cfg, validate, p, chunks[0], behind[0]), chunks[1..][..k - 1],
                       behind[1..][..k - 1])
  {
    hide Receive;
    assert chunks[..k][1..] == chunks[1..][..k - 1] && behind[..k][1..] == behind[1..][..k - 1];
  }

  lemma FragRegardless(cfg: Config, p: Parser, p1: Parser, q: Parser, code: int)
    requires GaveUp(cfg, p1, q, code) && p1 == p.(frag := p1.frag)
    ensures GaveUp(cfg, p, q, code)
  {
  }

  lemma NothingJoined(chunks: seq<seq<Byte>>)
    requires Join(chunks) == [] && forall k :: 0 <= k < |chunks| ==> chunks[k] != []
    ensures chunks == []
  {
  }

  /** A complete HTTP answer that is not acceptable (any status but 101, say), in whatever chunks: the client
      reports one disconnection with that status, keeps nothing of the answer, and is not connected. */
  lemma RejectedUpgrade(cfg: Config, validate: Validator, p: Parser, h: seq<Byte>, chunks: seq<seq<Byte>>,
                        behind: seq<Beyond>)
    requires Chunked(chunks, behind) && !p.connected && !p.didDisconnect && p.frag == None
    requires FirstEnd(h, |h|) && ReturnsBefore(h, |h| - 4) % 2 == 0 && validate(h) !in {0, -1}
    requires Join(chunks) == h
    ensures GaveUp(cfg, p, ReceiveAll(cfg, validate, p, chunks, behind), validate(h))
  {
    hide Scan, GaveUp, ReceiveAll, Join, ReturnsBefore, FirstEnd;
    HeaderFoundExactly(h, |h|);
    EndIsInside(h, |h|);
    assert [] + Join(chunks) == h + [];
    var k := RefusedAfter(cfg, validate, p, h, [], chunks, behind);
    assert chunks[..k] == chunks && behind[..k] == behind;
  }

  /** The answer is all there is to report: what comes behind the header adds nothing as long as none of it
      is an acceptable answer itself. */
  lemma RejectedWithBody(cfg: Config, validate: Validator, p: Parser, h: seq<Byte>, body: seq<Byte>,
                         chunks: seq<seq<Byte>>, behind: seq<Beyond>)
    requires Chunked(chunks, behind) && !p.connected && !p.didDisconnect && p.frag == None
    requires FirstEnd(h, |h|) && ReturnsBefore(h, |h| - 4) % 2 == 0 && validate(h) !in {0, -1}
    requires Join(chunks) == h + body && forall w :: validate(w) != 0
    ensures var q := ReceiveAll(cfg, validate, p, chunks, behind);
            && q.events == p.events + (if cfg.canDispatch then [Disconnected(validate(h))] else [])
            && q.didDisconnect && !q.connected
  {
    hide Scan, ReceiveAll, Join, ReturnsBefore, FirstEnd;
    HeaderFoundExactly(h, |h|);
    EndIsInside(h, |h|);
    assert [] + Join(chunks) == h + body;
    var k := RefusedAfter(cfg, validate, p, h, body, chunks, behind);
    ReceiveAllSplit(cfg, validate, p, chunks, behind, k);
    StaysDown(cfg, validate, ReceiveAll(cfg, validate, p, chunks[..k], behind[..k]), chunks[k..], behind[k..]);
  }

  lemma {:induction false} StaysDown(cfg: Config, validate: Validator, p: Parser, chunks: seq<seq<Byte>>,
                                     behind: seq<Beyond>)
    requires Chunked(chunks, behind) && !p.connected && p.didDisconnect && forall w :: validate(w) != 0
    ensures var q := ReceiveAll(cfg, validate, p, chunks, behind);
            q.events == p.events && q.didDisconnect && !q.connected
    decreases |chunks|
  {
    if chunks != [] {
      hide Scan, Drain;
      StaysDown(cfg, validate, Receive(cfg, validate, p, chunks[0], behind[0]), chunks[1..], behind[1..]);
    }
  }

  /** An answer that the validator cannot make out yet, or one with the wrong accept key, is kept and reported
      to nobody. */
  lemma {:induction false} UndecidedUpgrade(cfg: Config, validate: Validator, p: Parser, h: seq<Byte>,
                                            chunks: seq<seq<Byte>>, behind: seq<Beyond>)
    requires Chunked(chunks, behind) && !p.connected && h != [] && Scan(h, 0, 0) == |h| && validate(h) == -1
    requires |Pending(p)| < |h| && Pending(p) + Join(chunks) == h
    ensures ReceiveAll(cfg, validate, p, chunks, behind) == p.(frag := Some(h))
    decreases |chunks|
  {
    hide Scan, Drain;
    NoChunks(Pending(p), chunks);
    if chunks != [] {
      var c, cs := chunks[0], chunks[1..];
      var work := Pending(p) + c;
      Assoc(Pending(p), c, Join(cs));
      assert h + [] == h;
      SplitWork(work, Join(cs), h, []);
      if |work| < |h| {
        ScanShort(h, |work|, 0, 0);
        UndecidedUpgrade(cfg, validate, p.(frag := Some(work)), h, cs, behind[1..]);
      } else {
        NothingJoined(cs);
        assert work == h && h[..|h|] == h;
      }
    }
  }

  // ---- what may be reported ----

  /** Text is UTF-8; pongs are sent only where that is wanted; and a program that does not listen is told nothing,
      so that only answers to the server remain. */
  predicate MayHappen(cfg: Config, e: Event)
  {
    && (e.Text? ==> cfg.utf8(e.data))
    && (e.PongSent? ==> cfg.pongReplies)
    && (!cfg.canDispatch ==> e.PongSent? || e.CloseSent?)
  }

  predicate AllMayHappen(cfg: Config, events: seq<Event>)
  {
    forall k :: 0 <= k < |events| ==> MayHappen(cfg, events[k])
  }

  lemma FinishMay(cfg: Config, p: Parser)
    requires p.stack != [] && AllMayHappen(cfg, p.events)
    ensures AllMayHappen(cfg, Finish(cfg, p).events)
  {
  }

  lemma ApplyMay(cfg: Config, p: Parser, fin: bool, op: nat, payload: seq<Byte>)
    requires AllMayHappen(cfg, p.events)
    ensures AllMayHappen(cfg, Apply(cfg, p, fin, op, payload).p.events)
  {
    hide Finish;
    if op != 9 && op != 10 {
      if p.stack == [] {
        FinishMay(cfg, p.(stack := [Response(op, fin, 0, 1, payload)]));
      } else {
        var r := p.stack[|p.stack| - 1];
        var r' := r.(isFin := fin, bytesLeft := 0, frameCount := r.frameCount + 1, buffer := r.buffer + payload);
        FinishMay(cfg, p.(stack := p.stack[|p.stack| - 1 := r']));
      }
    }
  }

  lemma {:induction false} DrainMay(cfg: Config, p: Parser, buf: seq<Byte>, b: Beyond)
    requires buf != [] && AllMayHappen(cfg, p.events)
    ensures AllMayHappen(cfg, Drain(cfg, p, buf, b).events)
    decreases |buf|
  {
    hide ReadFrame, Apply;
    if ReadFrame(cfg, buf, b).Whole? {
      var f := ReadFrame(cfg, buf, b);
      ApplyMay(cfg, p, f.fin, f.op, f.payload);
    }
    var (p', rest) := Next(cfg, p, buf, b);
    if |rest| >= 2 {
      DrainMay(cfg, p', rest, b);
    }
  }

  lemma ReceiveMay(cfg: Config, validate: Validator, p: Parser, chunk: seq<Byte>, b: Beyond)
    requires chunk != [] && AllMayHappen(cfg, p.events)
    ensures AllMayHappen(cfg, Receive(cfg, validate, p, chunk, b).events)
  {
    hide Scan, Drain;
    var work := Pending(p) + chunk;
    assert [] + chunk == chunk;
    if p.connected {
      DrainMay(cfg, p.(frag := None), work, b);
    } else {
      var n := Scan(work, 0, 0);
      if 0 < n < |work| { DrainMay(cfg, Accepted(cfg, p.(frag := None)), work[n..], b); }
    }
  }

  /** Whatever the server sends, in whatever chunks, before and after the handshake: no text is reported that
      is not UTF-8, no pong is sent against the program's wish, and nothing is reported to a program that does
      not listen. */
  lemma {:induction false} OnlyAllowedEvents(cfg: Config, validate: Validator, p: Parser, chunks: seq<seq<Byte>>,
                                            behind: seq<Beyond>)
    requires Chunked(chunks, behind) && AllMayHappen(cfg, p.events)
    ensures AllMayHappen(cfg, ReceiveAll(cfg, validate, p, chunks, behind).events)
    decreases |chunks|
  {
    if chunks != [] {
      hide Receive;
      ReceiveMay(cfg, validate, p, chunks[0], behind[0]);
      OnlyAllowedEvents(cfg, validate, Receive(cfg, validate, p, chunks[0], behind[0]), chunks[1..], behind[1..]);
    }
  }

  /** The frame that finishes a text which is not UTF-8 is answered with close code 1007 and nothing else: the
      client stays connected, reports nothing, and keeps the message open. */
  lemma BadTextIsAnswered(cfg: Config, p: Parser, o: Open, f: WireFrame, t: seq<Byte>, b: Beyond)
    requires Holds(p, o) && f.fin && |f.payload| < 0x8000_0000_0000_0000
    requires if o.Idle? then f.op == 1 else o.text && f.op == 0
    requires !cfg.utf8(Gathered(o, f))
    ensures var (q, rest) := Next(cfg, p, EncFrame(f.fin, f.op, f.payload) + t, b);
            && rest == t && q.events == p.events + [CloseSent(1007)]
            && Holds(q, Inside(true, Gathered(o, f))) && q == p.(events := q.events, stack := q.stack)
  {
    hide ReadFrame, EncFrame, EncLength;
    ReadsFrame(cfg, f.fin, f.op, f.payload, t, b);
    var e := EncFrame(f.fin, f.op, f.payload);
    assert (e + t)[|e|..] == t;
  }

  /** A fragment that does not finish its message is counted and kept, and nothing is reported. */
  lemma FragmentIsKept(cfg: Config, p: Parser, o: Open, f: WireFrame, t: seq<Byte>, b: Beyond)
    requires Holds(p, o) && !f.fin && |f.payload| < 0x8000_0000_0000_0000
    requires if o.Idle? then f.op in {1, 2} else f.op == 0
    ensures var (q, rest) := Next(cfg, p, EncFrame(f.fin, f.op, f.payload) + t, b);
            && rest == t && q == p.(stack := q.stack) && Holds(q, Inside(IsText(o, f), Gathered(o, f)))
            && !q.stack[0].isFin && q.stack[0].frameCount == if o.Idle? then 1 else p.stack[0].frameCount + 1
  {
    hide ReadFrame, EncFrame, EncLength;
    ReadsFrame(cfg, f.fin, f.op, f.payload, t, b);
    var e := EncFrame(f.fin, f.op, f.payload);
    assert (e + t)[|e|..] == t;
  }

  // ---- frames that are refused ----

  /** q is p after a close with this code: reported at the first disconnection only, and sent every time. */
  predicate Closed(cfg: Config, p: Parser, q: Parser, code: nat)
  {
    && q.events == p.events + (if cfg.canDispatch && !p.didDisconnect then [Disconnected(code)] else [])
       + [CloseSent(code)]
    && q == p.(events := q.events, didDisconnect := true, connected := p.connected && p.didDisconnect)
  }

  /** A frame is refused by its first two bytes when it is masked, has a reserved bit, has an unknown opcode,
      or is a close or ping in fragments, or a close of one byte; pongs are never looked at. */
  predicate Refusable(b0: Byte, b1: Byte)
  {
    var op := b0 % 16;
    op != 10 && (b1 >= 128 || (16 <= b0 < 128) || b0 >= 144 || (3 <= op <= 7) || op >= 11
                 || (op in {8, 9} && b0 < 128) || (op == 8 && b1 == 1))
  }

  /** Refused frames close with 1002, an empty close frame with 1000, and a ping that is too long is answered
      with 1002 while the connection stays; the rest of the buffer is dropped in each case. */
  lemma RefusedFrames(cfg: Config, p: Parser, buf: seq<Byte>, b: Beyond)
    requires |buf| >= 2
    ensures Refusable(buf[0], buf[1]) ==> Closed(cfg, p, Drain(cfg, p, buf, b), 1002)
    ensures buf[0] == 0x88 && buf[1] == 0 ==> Closed(cfg, p, Drain(cfg, p, buf, b), 1000)
    ensures buf[0] == 0x89 && 126 <= buf[1] < 128 ==>
              Drain(cfg, p, buf, b) == p.(events := p.events + [CloseSent(1002)])
  {
    hide BigEndian, Contents, Apply, DataLength;
    var b0, b1 := buf[0], buf[1];
    Reserved(b0);
    if Refusable(b0, b1) {
      assert Judge(b0, b1) == Quit(1002);
      assert ReadFrame(cfg, buf, b) == Closing(1002);
    }
    if b0 == 0x88 && b1 == 0 { assert ReadFrame(cfg, buf, b) == Closing(1000); }
    if b0 == 0x89 && 126 <= b1 < 128 { assert ReadFrame(cfg, buf, b) == Dropped; }
  }

  lemma Reserved(b0: Byte)
    ensures b0 / 16 % 8 == 0 <==> b0 < 16 || 128 <= b0 < 144
  {
  }

  /** No other first two bytes refuse a frame: it is waited for or acted on. */
  lemma RefusedOnlyThen(b0: Byte, b1: Byte)
    ensures Judge(b0, b1) == Fine
       <==> !Refusable(b0, b1) && !(b0 == 0x88 && b1 == 0) && !(b0 == 0x89 && 126 <= b1 < 128)
  {
    Reserved(b0);
  }

  /** Whole frames out of order: a continuation when no message is open, and any other data frame when one is,
      close with 1002 and drop the rest of the buffer. */
  lemma OutOfOrder(cfg: Config, p: Parser, o: Open, f: WireFrame, t: seq<Byte>, b: Beyond)
    requires Holds(p, o) && |f.payload| < 0x8000_0000_0000_0000
    requires if o.Idle? then f.op == 0 else f.op in {1, 2}
    ensures var (q, rest) := Next(cfg, p, EncFrame(f.fin, f.op, f.payload) + t, b);
            rest == [] && Closed(cfg, p, q, 1002)
  {
    hide ReadFrame, EncFrame, Finish;
    ReadsFrame(cfg, f.fin, f.op, f.payload, t, b);
  }

  /** Pongs are taken however they come: final or not, with reserved bits or a mask bit or without; what is
      reported is the payload as it stands. */
  lemma AnyPong(cfg: Config, p: Parser, b0: Byte, b1: Byte, payload: seq<Byte>, t: seq<Byte>, b: Beyond)
    requires b0 % 16 == 10 && |payload| <= 125 && b1 % 128 == |payload|
    ensures Next(cfg, p, [b0, b1] + payload + t, b)
         == (p.(events := p.events + if cfg.canDispatch then [PongReceived(payload)] else []), t)
  {
    hide BigEndian;
    var buf := [b0, b1] + payload + t;
    assert buf[0] == b0 && buf[1] == b1;
    assert buf[2..2 + |payload|] == payload && buf[2 + |payload|..] == t;
    assert ReadFrame(cfg, buf, b) == Whole(b0 >= 128, 10, payload, 2 + |payload|) by { hide Apply; }
    assert p.(events := p.events + []) == p;
  }

  /** The codes of section 7.4 that may appear in a close frame, and those for applications */
  predicate AllowedCode(c: nat)
  {
    1000 <= c <= 1003 || 1007 <= c <= 1013 || c >= 3000
  }

  /** A close frame with a code and a reason: the code is reported and sent back if it is allowed and the reason
      is UTF-8; otherwise it is taken for a protocol error. */
  lemma CloseIsAnswered(cfg: Config, p: Parser, hi: Byte, lo: Byte, reason: seq<Byte>, b: Beyond)
    requires |reason| <= 123
    ensures var e := [0x88, 2 + |reason|, hi, lo] + reason;
            Closed(cfg, p, Drain(cfg, p, e, b),
                   if AllowedCode(Word(hi, lo)) && cfg.utf8(reason) then Word(hi, lo) else 1002)
  {
    hide ReadFrame, EncFrame;
    var body, e := [hi, lo] + reason, [0x88, 2 + |reason|, hi, lo] + reason;
    CloseBytesAre(body);
    var e' := EncFrame(true, 8, body);
    assert e' == [e'[0], e'[1]] + e'[2..] == e;
    assert body[2..] == reason;
    ReadsClose(cfg, body, b);
  }

  // ---- the examples of section 5.7 ----

  const HELLO: seq<Byte> := [0x48, 0x65, 0x6c, 0x6c, 0x6f]

  /** A text in one frame and in two, a ping, and the headers of 256 bytes and of 64 KiB of binary data */
  lemma ExampleFrames()
    ensures EncFrame(true, 1, HELLO) == [0x81, 0x05, 0x48, 0x65, 0x6c, 0x6c, 0x6f]
    ensures EncFrame(false, 1, HELLO[..3]) == [0x01, 0x03, 0x48, 0x65, 0x6c]
    ensures EncFrame(true, 0, HELLO[3..]) == [0x80, 0x02, 0x6c, 0x6f]
    ensures EncFrame(true, 2, HELLO) == [0x82, 0x05, 0x48, 0x65, 0x6c, 0x6c, 0x6f]
    ensures EncFrame(true, 9, HELLO) == [0x89, 0x05, 0x48, 0x65, 0x6c, 0x6c, 0x6f]
    ensures EncFrame(true, 10, HELLO) == [0x8a, 0x05, 0x48, 0x65, 0x6c, 0x6c, 0x6f]
    ensures [FirstByte(true, 2)] + EncLength(256) == [0x82, 0x7e, 0x01, 0x00]
    ensures [FirstByte(true, 2)] + EncLength(65536) == [0x82, 0x7f, 0, 0, 0, 0, 0, 0x01, 0, 0]
  {
    hide *;
    ShortExamples();
    LongExamples();
  }

  lemma ShortExamples()
    ensures EncFrame(true, 1, HELLO) == [0x81, 0x05, 0x48, 0x65, 0x6c, 0x6c, 0x6f]
    ensures EncFrame(false, 1, HELLO[..3]) == [0x01, 0x03, 0x48, 0x65, 0x6c]
    ensures EncFrame(true, 0, HELLO[3..]) == [0x80, 0x02, 0x6c, 0x6f]
    ensures EncFrame(true, 2, HELLO) == [0x82, 0x05, 0x48, 0x65, 0x6c, 0x6c, 0x6f]
    ensures EncFrame(true, 9, HELLO) == [0x89, 0x05, 0x48, 0x65, 0x6c, 0x6c, 0x6f]
    ensures EncFrame(true, 10, HELLO) == [0x8a, 0x05, 0x48, 0x65, 0x6c, 0x6c, 0x6f]
  {
    hide BE;
  }

  lemma LongExamples()
    ensures [FirstByte(true, 2)] + EncLength(256) == [0x82, 0x7e, 0x01, 0x00]
    ensures [FirstByte(true, 2)] + EncLength(65536) == [0x82, 0x7f, 0, 0, 0, 0, 0, 0x01, 0, 0]
  {
    assert BE(256, 2) == [1, 0] by { assert BE(1, 1) == [1]; }
    EightZeros();
  }

  lemma EightZeros()
    ensures BE(65536, 8) == [0, 0, 0, 0, 0, 1, 0, 0]
  {
    assert BE(0, 2) == [0, 0];
    assert BE(0, 4) == BE(0, 3) + [0] == [0, 0, 0, 0];
    assert BE(1, 6) == BE(0, 5) + [1] == [0, 0, 0, 0, 0, 1];
    assert BE(256, 7) == BE(1, 6) + [0];
    assert BE(65536, 8) == BE(256, 7) + [0];
  }

  /** Received on an open connection: the text once in each form, the same bytes as binary data, a pong for the
      ping, and the pong. */
  lemma ExamplesReceived(cfg: Config, p: Parser, b: Beyond)
    requires p.stack == [] && p.frag == None && cfg == Config(true, true, cfg.utf8) && cfg.utf8(HELLO)
    ensures Drain(cfg, p, [0x81, 0x05, 0x48, 0x65, 0x6c, 0x6c, 0x6f], b) == p.(events := p.events + [Text(HELLO)])
    ensures Drain(cfg, p, [0x01, 0x03, 0x48, 0x65, 0x6c] + [0x80, 0x02, 0x6c, 0x6f], b)
         == p.(events := p.events + [Text(HELLO)])
    ensures Drain(cfg, p, [0x82, 0x05, 0x48, 0x65, 0x6c, 0x6c, 0x6f], b) == p.(events := p.events + [Binary(HELLO)])
    ensures Drain(cfg, p, [0x89, 0x05, 0x48, 0x65, 0x6c, 0x6c, 0x6f], b) == p.(events := p.events + [PongSent(HELLO)])
    ensures Drain(cfg, p, [0x8a, 0x05, 0x48, 0x65, 0x6c, 0x6c, 0x6f], b)
         == p.(events := p.events + [PongReceived(HELLO)])
  {
    hide ReadFrame, EncFrame;
    ExampleFrames();
    WholeExample(cfg, p, true, 1, HELLO, b);
    WholeExample(cfg, p, true, 2, HELLO, b);
    WholeExample(cfg, p, true, 9, HELLO, b);
    WholeExample(cfg, p, true, 10, HELLO, b);
    TwoExample(cfg, p, b);
  }

  lemma WholeExample(cfg: Config, p: Parser, fin: bool, op: nat, d: seq<Byte>, b: Beyond)
    requires op in {0, 1, 2, 9, 10} && |d| <= 125 && (op == 9 ==> fin)
    ensures Drain(cfg, p, EncFrame(fin, op, d), b) == Apply(cfg, p, fin, op, d).p
  {
    hide ReadFrame, EncFrame, Apply;
    var e := EncFrame(fin, op, d);
    ReadsFrame(cfg, fin, op, d, [], b);
    assert e + [] == e && e[|e|..] == [];
  }

  lemma TwoExample(cfg: Config, p: Parser, b: Beyond)
    requires p.stack == [] && p.frag == None && cfg == Config(true, true, cfg.utf8) && cfg.utf8(HELLO)
    ensures Drain(cfg, p, EncFrame(false, 1, HELLO[..3]) + EncFrame(true, 0, HELLO[3..]), b)
         == p.(events := p.events + [Text(HELLO)])
  {
    hide ReadFrame, EncFrame, Apply;
    var e, d := EncFrame(false, 1, HELLO[..3]), EncFrame(true, 0, HELLO[3..]);
    ReadsFrame(cfg, false, 1, HELLO[..3], d, b);
    ReadsFrame(cfg, true, 0, HELLO[3..], [], b);
    assert (e + d)[|e|..] == d && d + [] == d;
    var q := p.(stack := [Response(1, false, 0, 1, HELLO[..3])]);
    assert Apply(cfg, p, false, 1, HELLO[..3]) == Continue(q) by { ApplyFirst(cfg, p); }
    assert Apply(cfg, q, true, 0, HELLO[3..]) == Continue(p.(events := p.events + [Text(HELLO)])) by {
      ApplySecond(cfg, p);
    }
    WholeExample(cfg, q, true, 0, HELLO[3..], b);
  }

  lemma ApplyFirst(cfg: Config, p: Parser)
    requires p.stack == []
    ensures Apply(cfg, p, false, 1, HELLO[..3]) == Continue(p.(stack := [Response(1, false, 0, 1, HELLO[..3])]))
  {
  }

  lemma ApplySecond(cfg: Config, p: Parser)
    requires p.stack == [] && cfg.canDispatch && cfg.utf8(HELLO)
    ensures Apply(cfg, p.(stack := [Response(1, false, 0, 1, HELLO[..3])]), true, 0, HELLO[3..])
         == Continue(p.(events := p.events + [Text(HELLO)]))
  {
    assert HELLO[..3] + HELLO[3..] == HELLO;
  }
}
