/** Streams a server may send (RFC 6455, sections 5.2, 5.4 and 5.5) and what a client must get from them. */
module WebSocketStreams {
  import opened Common
  import opened WebSocketFrames
  import opened WebSocketChunks

  // ---- frames on the wire ----

  /** n in k big-endian bytes */
  function BE(n: nat, k: nat): (b: seq<Byte>)
    ensures |b| == k
  {
    if k == 0 then [] else BE(n / 256, k - 1) + [n % 256]
  }

  /** The shortest of the three length forms of section 5.2, without a mask */
  function EncLength(n: nat): (b: seq<Byte>)
    ensures 1 <= |b| <= 9
  {
    if n < 126 then [n] else if n < 0x1_0000 then [126] + BE(n, 2) else [127] + BE(n, 8)
  }

  /** The first byte carries the FIN bit and the opcode. */
  function FirstByte(fin: bool, op: nat): (b: Byte)
    requires op < 16
  {
    (if fin then 128 else 0) + op
  }

  function EncFrame(fin: bool, op: nat, payload: seq<Byte>): (b: seq<Byte>)
    requires op < 16
  {
    [FirstByte(fin, op)] + EncLength(|payload|) + payload
  }

  /** Any frame but a close */
  datatype WireFrame = WireFrame(fin: bool, op: nat, payload: seq<Byte>)

  predicate Known(f: WireFrame)
  {
    f.op in {0, 1, 2, 9, 10} && |f.payload| < 0x8000_0000_0000_0000 && (f.op == 9 ==> f.fin && |f.payload| <= 125)
  }

  function Enc(f: WireFrame): (b: seq<Byte>)
    requires Known(f)
    ensures |b| >= 2
  {
    EncFrame(f.fin, f.op, f.payload)
  }

  /** The body of a close frame (section 5.5.1): nothing, or a code and a reason */
  predicate ValidClose(body: seq<Byte>)
  {
    |body| != 1 && |body| <= 125
  }

  // ---- fragmentation ----

  /** Whether a message is open (section 5.4), and what has come of it */
  datatype Open = Idle | Inside(text: bool, sofar: seq<Byte>)

  function IsText(o: Open, f: WireFrame): bool { if o.Idle? then f.op == 1 else o.text }

  function Gathered(o: Open, f: WireFrame): seq<Byte> { if o.Idle? then f.payload else o.sofar + f.payload }

  /** A control frame is final and short and may come anywhere; a data frame starts a message when none is
      open and continues the one that is; a finished text is UTF-8. */
  predicate Legal(cfg: Config, o: Open, f: WireFrame)
  {
    && |f.payload| < 0x8000_0000_0000_0000
    && if f.op in {9, 10} then f.fin && |f.payload| <= 125
       else
         && (if o.Idle? then f.op in {1, 2} else f.op == 0)
         && (f.fin && IsText(o, f) ==> cfg.utf8(Gathered(o, f)))
  }

  function After(o: Open, f: WireFrame): Open
  {
    if f.op in {9, 10} then o else if f.fin then Idle else Inside(IsText(o, f), Gathered(o, f))
  }

  function Delivery(cfg: Config, text: bool, data: seq<Byte>): seq<Event>
  {
    if !cfg.canDispatch then [] else if text then [Text(data)] else [Binary(data)]
  }

  /** What the client gets from, or answers to, one frame */
  function Yield(cfg: Config, o: Open, f: WireFrame): seq<Event>
  {
    if f.op == 9 then if cfg.pongReplies then [PongSent(f.payload)] else []
    else if f.op == 10 then if cfg.canDispatch then [PongReceived(f.payload)] else []
    else if f.fin then Delivery(cfg, IsText(o, f), Gathered(o, f))
    else []
  }

  predicate LegalAll(cfg: Config, o: Open, fs: seq<WireFrame>)
    decreases |fs|
  {
    fs != [] ==> Legal(cfg, o, fs[0]) && LegalAll(cfg, After(o, fs[0]), fs[1..])
  }

  function YieldAll(cfg: Config, o: Open, fs: seq<WireFrame>): seq<Event>
    decreases |fs|
  {
    if fs == [] then [] else Yield(cfg, o, fs[0]) + YieldAll(cfg, After(o, fs[0]), fs[1..])
  }

  function AfterAll(o: Open, fs: seq<WireFrame>): Open
    decreases |fs|
  {
    if fs == [] then o else AfterAll(After(o, fs[0]), fs[1..])
  }

  function EncAll(cfg: Config, o: Open, fs: seq<WireFrame>): seq<Byte>
    requires LegalAll(cfg, o, fs)
    decreases |fs|
  {
    if fs == [] then [] else Enc(fs[0]) + EncAll(cfg, After(o, fs[0]), fs[1..])
  }

  lemma {:induction false} Sequel(cfg: Config, o: Open, a: seq<WireFrame>, b: seq<WireFrame>)
    ensures LegalAll(cfg, o, a + b) <==> LegalAll(cfg, o, a) && LegalAll(cfg, AfterAll(o, a), b)
    ensures YieldAll(cfg, o, a + b) == YieldAll(cfg, o, a) + YieldAll(cfg, AfterAll(o, a), b)
    ensures AfterAll(o, a + b) == AfterAll(AfterAll(o, a), b)
    decreases |a|
  {
    hide Legal, Yield, After;
    if a == [] {
      assert a + b == b;
    } else {
      assert (a + b)[0] == a[0] && (a + b)[1..] == a[1..] + b;
      Sequel(cfg, After(o, a[0]), a[1..], b);
    }
  }

  // ---- one frame ----

  lemma {:induction false} BigEndianOfBE(buf: seq<Byte>, off: nat, n: nat, k: nat, b: Beyond)
    requires off + k <= |buf| && buf[off..off + k] == BE(n, k) && n < Pow(256, k)
    ensures BigEndian(buf, off, k, b) == n
  {
    if k > 0 {
      var s := buf[off..off + k];
      assert s[..k - 1] == buf[off..off + (k - 1)];
      assert BE(n, k)[..k - 1] == BE(n / 256, k - 1);
      assert buf[off + k - 1] == s[k - 1] == n % 256;
      BigEndianOfBE(buf, off, n / 256, k - 1, b);
    }
  }

  lemma WideEnough()
    ensures Pow(256, 2) == 0x1_0000 && Pow(256, 8) > 0x8000_0000_0000_0000
  {
    PowAdd(256, 4, 4);
    assert Pow(256, 4) == 0x1_0000_0000;
  }

  lemma ReadsLength(n: nat, first: Byte, t: seq<Byte>, b: Beyond)
    requires n < 0x8000_0000_0000_0000
    ensures var buf := [first] + EncLength(n) + t;
            buf[1] == EncLength(n)[0] < 128 && Offset(buf[1]) == 1 + |EncLength(n)| && DataLength(buf, b) == n
  {
    hide BigEndian, BE, Pow;
    var buf := [first] + EncLength(n) + t;
    WideEnough();
    if n >= 0x1_0000 {
      assert buf[2..10] == BE(n, 8);
      BigEndianOfBE(buf, 2, n, 8, b);
    } else if n >= 126 {
      assert buf[2..4] == BE(n, 2);
      BigEndianOfBE(buf, 2, n, 2, b);
    }
  }

  lemma FineStart(fin: bool, op: nat, l: Byte)
    requires op in {0, 1, 2, 9, 10} && l < 128 && (op == 9 ==> fin && l <= 125)
    ensures Judge(FirstByte(fin, op), l) == Fine
    ensures FirstByte(fin, op) % 16 == op && (FirstByte(fin, op) >= 128 <==> fin)
  {
  }

  lemma Spliced(first: Byte, l: seq<Byte>, payload: seq<Byte>, t: seq<Byte>)
    ensures [first] + l + payload + t == [first] + l + (payload + t)
    ensures ([first] + l + payload + t)[1 + |l|..1 + |l| + |payload|] == payload
  {
  }

  /** Every well-formed frame is read back, whatever follows it. */
  lemma ReadsFrame(cfg: Config, fin: bool, op: nat, payload: seq<Byte>, t: seq<Byte>, b: Beyond)
    requires op in {0, 1, 2, 9, 10} && |payload| < 0x8000_0000_0000_0000
    requires op == 9 ==> fin && |payload| <= 125
    ensures ReadFrame(cfg, EncFrame(fin, op, payload) + t, b) == Whole(fin, op, payload, |EncFrame(fin, op, payload)|)
    ensures |EncFrame(fin, op, payload)| >= 2
  {
    hide BigEndian, DataLength, EncLength, Judge, FirstByte, ReadFrame;
    var e := EncFrame(fin, op, payload);
    var l := EncLength(|payload|);
    Spliced(FirstByte(fin, op), l, payload, t);
    ReadsLength(|payload|, FirstByte(fin, op), payload + t, b);
    LengthByte(|payload|);
    FineStart(fin, op, l[0]);
    ReadFrameStep(cfg, e + t, b);
  }

  lemma LengthByte(n: nat)
    ensures n <= 125 ==> EncLength(n)[0] == n
  {
  }

  /** One frame is acted on, and the stream goes on behind it. */
  lemma RunFrame(cfg: Config, p: Parser, fin: bool, op: nat, payload: seq<Byte>, t: seq<Byte>)
    requires op in {0, 1, 2, 9, 10} && |payload| < 0x8000_0000_0000_0000
    requires op == 9 ==> fin && |payload| <= 125
    requires Apply(cfg, p, fin, op, payload).Continue?
    ensures Run(cfg, p, EncFrame(fin, op, payload) + t) == Run(cfg, Apply(cfg, p, fin, op, payload).p, t)
  {
    hide Run, ReadFrame, Apply, EncFrame;
    var e := EncFrame(fin, op, payload);
    ReadsFrame(cfg, fin, op, payload, t, Zeros());
    RunStep(cfg, p, e + t, Zeros());
    assert (e + t)[|e|..] == t;
  }

  function Word(hi: nat, lo: nat): nat { 256 * hi + lo }

  /** The code in a close frame's body, if there is one and the reason is UTF-8 */
  function CloseReply(cfg: Config, body: seq<Byte>): nat
    requires |body| != 1
  {
    if body == [] then 1000 else if cfg.utf8(body[2..]) then CloseCode(Word(body[0], body[1])) else 1002
  }

  lemma CloseStart(n: Byte)
    requires n <= 125 && n != 1
    ensures Judge(0x88, n) == (if n == 0 then Quit(1000) else Fine) && 0x88 % 16 == 8
    ensures Offset(n) == 2
  {
  }

  lemma CloseBytesAre(body: seq<Byte>)
    requires ValidClose(body)
    ensures var e := EncFrame(true, 8, body);
            && |e| == 2 + |body| && e[0] == 0x88 && e[1] == |body| && e[2..] == body && WholeClose(e)
  {
    LengthByte(|body|);
    assert EncFrame(true, 8, body) == [0x88, |body|] + body;
  }

  lemma CloseLength(e: seq<Byte>, b: Beyond)
    requires |e| >= 2 && e[1] <= 125
    ensures DataLength(e, b) == e[1]
  {
    hide BigEndian;
  }

  lemma CloseContents(cfg: Config, e: seq<Byte>, body: seq<Byte>)
    requires |e| == 2 + |body| && e[0] == 0x88 && e[2..] == body && |body| >= 2
    ensures Contents(cfg, e, 2, |body|, Word(e[2], e[3])) == Closing(CloseReply(cfg, body))
  {
    hide CloseCode;
    assert e[2] == body[0] && e[3] == body[1] && e[4..2 + |body|] == body[2..];
    assert e[0] % 16 == 8;
  }

  /** ... and so is the close frame, which ends the reading. */
  lemma ReadsClose(cfg: Config, body: seq<Byte>, b: Beyond)
    requires ValidClose(body)
    ensures ReadFrame(cfg, EncFrame(true, 8, body), b) == Closing(CloseReply(cfg, body))
    ensures WholeClose(EncFrame(true, 8, body))
  {
    hide CloseCode, EncFrame, Judge, Offset, BigEndian, WholeClose, ReadFrame, Contents, DataLength, Word;
    var e := EncFrame(true, 8, body);
    CloseBytesAre(body);
    CloseStart(|body|);
    ReadFrameStep(cfg, e, b);
    CloseLength(e, b);
    if |body| >= 2 {
      CloseContents(cfg, e, body);
      TwoBytes(e, b);
    }
  }

  lemma TwoBytes(buf: seq<Byte>, b: Beyond)
    requires |buf| >= 4
    ensures BigEndian(buf, 2, 2, b) == Word(buf[2], buf[3])
  {
    assert BigEndian(buf, 2, 1, b) == buf[2];
  }

  // ---- frames in a row ----

  function WithEvents(p: Parser, e: seq<Event>): Parser { p.(events := p.events + e) }

  function OpCode(text: bool): nat { if text then 1 else 2 }

  /** The parser's stack holds what is open. */
  predicate Holds(p: Parser, o: Open)
  {
    if o.Idle? then p.stack == []
    else
      && |p.stack| == 1 && p.stack[0].code == OpCode(o.text) && p.stack[0].bytesLeft == 0
      && p.stack[0].buffer == o.sofar
  }

  /** q is p after these events, with what is open on the stack. */
  predicate Reached(p: Parser, q: Parser, e: seq<Event>, o: Open)
  {
    Holds(q, o) && q == WithEvents(p, e).(stack := q.stack)
  }

  lemma ApplyLegal(cfg: Config, p: Parser, o: Open, f: WireFrame)
    requires Holds(p, o) && Legal(cfg, o, f)
    ensures Known(f)
    ensures var r := Apply(cfg, p, f.fin, f.op, f.payload);
            r.Continue? && Reached(p, r.p, Yield(cfg, o, f), After(o, f))
  {
  }

  lemma ReachedTwice(p: Parser, q: Parser, r: Parser, a: seq<Event>, o: Open, b: seq<Event>, o': Open)
    requires Reached(p, q, a, o) && Reached(q, r, b, o')
    ensures Reached(p, r, a + b, o')
  {
    hide Holds;
    Assoc(p.events, a, b);
  }

  /** Legal frames are acted on to the last one, in order. */
  lemma {:induction false} RunFrames(cfg: Config, p: Parser, o: Open, fs: seq<WireFrame>, t: seq<Byte>)
    returns (q: Parser)
    requires Holds(p, o) && LegalAll(cfg, o, fs)
    ensures Run(cfg, p, EncAll(cfg, o, fs) + t) == Run(cfg, q, t)
    ensures Reached(p, q, YieldAll(cfg, o, fs), AfterAll(o, fs))
    decreases |fs|
  {
    hide Run, Apply, EncFrame, Legal, Yield, After, Holds, Known;
    if fs == [] {
      q := p;
      assert EncAll(cfg, o, fs) + t == t && WithEvents(p, []) == p;
    } else {
      var f, rest := fs[0], fs[1..];
      ApplyLegal(cfg, p, o, f);
      var p1 := Apply(cfg, p, f.fin, f.op, f.payload).p;
      var later := EncAll(cfg, After(o, f), rest);
      Assoc(Enc(f), later, t);
      RunKnown(cfg, p, f, later + t);
      q := RunFrames(cfg, p1, After(o, f), rest, t);
      ReachedTwice(p, p1, q, Yield(cfg, o, f), After(o, f), YieldAll(cfg, After(o, f), rest), AfterAll(o, fs));
    }
  }

  lemma RunKnown(cfg: Config, p: Parser, f: WireFrame, t: seq<Byte>)
    requires Known(f) && Apply(cfg, p, f.fin, f.op, f.payload).Continue?
    ensures Run(cfg, p, Enc(f) + t) == Run(cfg, Apply(cfg, p, f.fin, f.op, f.payload).p, t)
  {
    hide Run, Apply, EncFrame;
    RunFrame(cfg, p, f.fin, f.op, f.payload, t);
  }

  // ---- the end of the stream ----

  function CloseBytes(close: Option<seq<Byte>>): seq<Byte>
  {
    if close.None? then [] else EncFrame(true, 8, close.value)
  }

  /** Legal frames, and perhaps a close frame behind them */
  predicate ValidFrames(cfg: Config, fs: seq<WireFrame>, close: Option<seq<Byte>>)
  {
    LegalAll(cfg, Idle, fs) && (close.Some? ==> ValidClose(close.value))
  }

  function Bytes(cfg: Config, fs: seq<WireFrame>, close: Option<seq<Byte>>): seq<Byte>
    requires ValidFrames(cfg, fs, close)
  {
    EncAll(cfg, Idle, fs) + CloseBytes(close)
  }

  /** The peer's close frame is reported once and answered with the same code. */
  function Farewell(cfg: Config, close: Option<seq<Byte>>): seq<Event>
    requires close.Some? ==> ValidClose(close.value)
  {
    if close.None? then []
    else
      var code := CloseReply(cfg, close.value);
      (if cfg.canDispatch then [Disconnected(code)] else []) + [CloseSent(code)]
  }

  function Ended(cfg: Config, q: Parser, close: Option<seq<Byte>>): Parser
    requires close.Some? ==> ValidClose(close.value)
  {
    if close.None? then q else Leave(cfg, q, CloseReply(cfg, close.value))
  }

  /** A valid stream is acted on to the end, and leaves nothing behind but the open message. */
  lemma RunStream(cfg: Config, p: Parser, fs: seq<WireFrame>, close: Option<seq<Byte>>) returns (q: Parser)
    requires p.stack == [] && p.frag == None && ValidFrames(cfg, fs, close)
    ensures Reached(p, q, YieldAll(cfg, Idle, fs), AfterAll(Idle, fs))
    ensures var r := Run(cfg, p, Bytes(cfg, fs, close));
            !r.Refused? && Settled(cfg, r) == Ended(cfg, q, close)
  {
    hide Run, LegalAll, EncAll, YieldAll, AfterAll, EncFrame, ReadFrame, WholeClose, CloseReply;
    q := RunFrames(cfg, p, Idle, fs, CloseBytes(close));
    if close.None? {
      RunShort(cfg, q, []);
    } else {
      var e := EncFrame(true, 8, close.value);
      ReadsClose(cfg, close.value, Zeros());
      CloseIsLong(close.value);
      RunStep(cfg, q, e, Zeros());
    }
  }

  lemma CloseIsLong(body: seq<Byte>)
    ensures |EncFrame(true, 8, body)| >= 2
  {
  }

  lemma EndedEvents(cfg: Config, p: Parser, q: Parser, e: seq<Event>, o: Open, close: Option<seq<Byte>>)
    requires Reached(p, q, e, o) && (close.Some? ==> ValidClose(close.value)) && !p.didDisconnect
    ensures Ended(cfg, q, close).events == p.events + (e + Farewell(cfg, close))
    ensures Ended(cfg, q, close).didDisconnect == close.Some?
  {
    hide Holds, CloseReply;
    Assoc(p.events, e, Farewell(cfg, close));
  }

  // ---- which splits are safe ----

  /** A frame starts at position q of the encoded frames, or behind them, and no message is open there. */
  predicate IdleStart(fs: seq<WireFrame>, o: Open, q: nat)
  {
    if q == 0 then o.Idle?
    else
      && fs != [] && Known(fs[0]) && |Enc(fs[0])| <= q
      && IdleStart(fs[1..], After(o, fs[0]), q - |Enc(fs[0])|)
  }

  /** No chunk, the first of which starts at position `at`, is a lone byte that starts a frame while no
      message is open, unless it starts a pong. */
  predicate SafeSplit(fs: seq<WireFrame>, at: nat, chunks: seq<seq<Byte>>)
    decreases |chunks|
  {
    chunks != [] ==>
      && (|chunks[0]| == 1 && IdleStart(fs, Idle, at) ==> chunks[0][0] % 16 == 10)
      && SafeSplit(fs, at + |chunks[0]|, chunks[1..])
  }

  /** Before its last byte a frame is not complete. */
  lemma PartOfFrame(cfg: Config, p: Parser, f: WireFrame, t: seq<Byte>, q: nat)
    requires Known(f) && 0 < q < |Enc(f)|
    ensures Run(cfg, p, (Enc(f) + t)[..q]) == Ran(p, (Enc(f) + t)[..q])
  {
    hide Run, ReadFrame, EncFrame, Apply, WholeClose;
    var a := (Enc(f) + t)[..q];
    assert a + (Enc(f) + t)[q..] == Enc(f) + t;
    if q == 1 {
      RunShort(cfg, p, a);
    } else {
      ReadsFrame(cfg, f.fin, f.op, f.payload, t, Zeros());
      CompleteStays(cfg, a, (Enc(f) + t)[q..], Zeros(), Zeros());
      RunStep(cfg, p, a, Zeros());
    }
  }

  lemma PartOfClose(cfg: Config, p: Parser, body: seq<Byte>, q: nat)
    requires ValidClose(body) && 0 < q < |EncFrame(true, 8, body)|
    ensures Run(cfg, p, EncFrame(true, 8, body)[..q]) == Ran(p, EncFrame(true, 8, body)[..q])
  {
    hide Run, ReadFrame, EncFrame, Apply, WholeClose;
    var e := EncFrame(true, 8, body);
    assert e[..q] + e[q..] == e;
    if q == 1 {
      RunShort(cfg, p, e[..q]);
    } else {
      ReadsClose(cfg, body, Zeros());
      CloseWaits(cfg, e[..q], e[q..], Zeros());
      RunStep(cfg, p, e[..q], Zeros());
    }
  }

  /** Where a frame starts with no message open can be read off the frames. */
  lemma {:induction false} IdleExactly(cfg: Config, p: Parser, o: Open, fs: seq<WireFrame>, close: Option<seq<Byte>>,
                                       q: nat)
    requires Holds(p, o) && LegalAll(cfg, o, fs) && (close.Some? ==> ValidClose(close.value))
    requires q < |EncAll(cfg, o, fs) + CloseBytes(close)|
    ensures IdleAfter(cfg, p, (EncAll(cfg, o, fs) + CloseBytes(close))[..q]) <==> IdleStart(fs, o, q)
    decreases |fs|
  {
    hide Run, Apply, EncFrame, Legal, Yield, After, Holds, Known;
    var s := EncAll(cfg, o, fs) + CloseBytes(close);
    if q == 0 {
      RunShort(cfg, p, []);
      HoldsIdle(p, o);
    } else if fs == [] {
      assert s == CloseBytes(close);
      PartOfClose(cfg, p, close.value, q);
    } else {
      var f, rest := fs[0], fs[1..];
      ApplyLegal(cfg, p, o, f);
      var later := EncAll(cfg, After(o, f), rest) + CloseBytes(close);
      Assoc(Enc(f), EncAll(cfg, After(o, f), rest), CloseBytes(close));
      if q < |Enc(f)| {
        PartOfFrame(cfg, p, f, later, q);
      } else {
        assert s[..q] == Enc(f) + later[..q - |Enc(f)|];
        RunKnown(cfg, p, f, later[..q - |Enc(f)|]);
        IdleExactly(cfg, Apply(cfg, p, f.fin, f.op, f.payload).p, After(o, f), rest, close, q - |Enc(f)|);
      }
    }
  }

  lemma HoldsIdle(p: Parser, o: Open)
    requires Holds(p, o)
    ensures p.stack == [] <==> o.Idle?
  {
  }

  lemma {:induction false} SafeIsClean(cfg: Config, p: Parser, fs: seq<WireFrame>, close: Option<seq<Byte>>,
                                       before: seq<Byte>, chunks: seq<seq<Byte>>)
    requires p.stack == [] && ValidFrames(cfg, fs, close) && forall k :: 0 <= k < |chunks| ==> chunks[k] != []
    requires before + Join(chunks) == Bytes(cfg, fs, close)
    ensures SafeSplit(fs, |before|, chunks) <==> Clean(cfg, p, before, chunks)
    decreases |chunks|
  {
    hide IdleAfter, IdleStart, LegalAll, EncAll;
    if chunks != [] {
      Assoc(before, chunks[0], Join(chunks[1..]));
      assert Bytes(cfg, fs, close)[..|before|] == before;
      IdleExactly(cfg, p, Idle, fs, close, |before|);
      SafeIsClean(cfg, p, fs, close, before + chunks[0], chunks[1..]);
    }
  }

  /** Every valid stream, with or without a close frame at its end and with whatever is left open: the
      parser keeps in step with the chunks, whatever lies behind the buffers, iff the split is safe. */
  lemma SafeSplitsExactly(cfg: Config, p: Parser, fs: seq<WireFrame>, close: Option<seq<Byte>>, chunks: seq<seq<Byte>>)
    requires p.stack == [] && p.frag == None && ValidFrames(cfg, fs, close)
    requires Join(chunks) == Bytes(cfg, fs, close) && forall k :: 0 <= k < |chunks| ==> chunks[k] != []
    ensures !Run(cfg, p, Join(chunks)).Refused?
    ensures SafeSplit(fs, 0, chunks)
       <==> forall behind: seq<Beyond> :: Chunked(chunks, behind) ==> InStep(cfg, p, chunks, behind)
  {
    hide Run, Clean, InStep, Join, Bytes, SafeSplit, Settled;
    var _ := RunStream(cfg, p, fs, close);
    assert [] + Join(chunks) == Join(chunks);
    SafeIsClean(cfg, p, fs, close, [], chunks);
    ChunkingExactly(cfg, p, chunks);
  }

  // ---- messages ----

  datatype Control = Ping(data: seq<Byte>) | Pong(data: seq<Byte>)

  /** One fragment, and the control frames sent just before it */
  datatype Fragment = Fragment(before: seq<Control>, payload: seq<Byte>)

  datatype Message = Message(text: bool, parts: seq<Fragment>)

  /** Whole messages; perhaps the first fragments of another one; control frames; perhaps a close frame */
  datatype Stream = Stream(ms: seq<Message>, cut: Option<Message>, last: seq<Control>, close: Option<seq<Byte>>)

  function ControlFrames(cs: seq<Control>): (r: seq<WireFrame>)
    ensures |r| == |cs|
  {
    if cs == [] then [] else [WireFrame(true, if cs[0].Ping? then 9 else 10, cs[0].data)] + ControlFrames(cs[1..])
  }

  /** The first fragment carries the message's opcode, the others opcode 0, and the last one of a whole
      message the FIN bit. */
  function PartFrames(op: nat, parts: seq<Fragment>, whole: bool): seq<WireFrame>
  {
    if parts == [] then []
    else
      ControlFrames(parts[0].before)
      + ([WireFrame(whole && |parts| == 1, op, parts[0].payload)] + PartFrames(0, parts[1..], whole))
  }

  function MessageFrames(ms: seq<Message>): seq<WireFrame>
  {
    if ms == [] then [] else PartFrames(OpCode(ms[0].text), ms[0].parts, true) + MessageFrames(ms[1..])
  }

  function CutFrames(cut: Option<Message>): seq<WireFrame>
  {
    if cut.None? then [] else PartFrames(OpCode(cut.value.text), cut.value.parts, false)
  }

  function FramesOf(st: Stream): seq<WireFrame>
  {
    MessageFrames(st.ms) + (CutFrames(st.cut) + ControlFrames(st.last))
  }

  // ---- what is to be delivered ----

  function ControlEvents(cfg: Config, cs: seq<Control>): seq<Event>
  {
    if cs == [] then []
    else
      (match cs[0]
       case Ping(data) => if cfg.pongReplies then [PongSent(data)] else []
       case Pong(data) => if cfg.canDispatch then [PongReceived(data)] else [])
      + ControlEvents(cfg, cs[1..])
  }

  function PartEvents(cfg: Config, parts: seq<Fragment>): seq<Event>
  {
    if parts == [] then [] else ControlEvents(cfg, parts[0].before) + PartEvents(cfg, parts[1..])
  }

  /** The message is the concatenation of its fragments. */
  function Body(parts: seq<Fragment>): seq<Byte>
  {
    if parts == [] then [] else parts[0].payload + Body(parts[1..])
  }

  function MessageEvents(cfg: Config, ms: seq<Message>): seq<Event>
  {
    if ms == [] then []
    else PartEvents(cfg, ms[0].parts) + Delivery(cfg, ms[0].text, Body(ms[0].parts)) + MessageEvents(cfg, ms[1..])
  }

  /** Every message, one pong per ping, in order; of an unfinished message nothing; the end, once. */
  function Delivered(cfg: Config, st: Stream): seq<Event>
    requires st.close.Some? ==> ValidClose(st.close.value)
  {
    MessageEvents(cfg, st.ms)
    + ((if st.cut.Some? then PartEvents(cfg, st.cut.value.parts) else []) + ControlEvents(cfg, st.last))
    + Farewell(cfg, st.close)
  }

  // ---- validity ----

  predicate ValidControls(cs: seq<Control>)
  {
    cs != [] ==> |cs[0].data| <= 125 && ValidControls(cs[1..])
  }

  predicate ValidParts(parts: seq<Fragment>)
  {
    parts != [] ==>
      ValidControls(parts[0].before) && |parts[0].payload| < 0x8000_0000_0000_0000 && ValidParts(parts[1..])
  }

  predicate ValidMessages(cfg: Config, ms: seq<Message>)
  {
    ms != [] ==>
      && ms[0].parts != [] && ValidParts(ms[0].parts) && (ms[0].text ==> cfg.utf8(Body(ms[0].parts)))
      && ValidMessages(cfg, ms[1..])
  }

  predicate Valid(cfg: Config, st: Stream)
  {
    && ValidMessages(cfg, st.ms) && (st.cut.Some? ==> ValidParts(st.cut.value.parts)) && ValidControls(st.last)
    && (st.close.Some? ==> ValidClose(st.close.value))
  }

  // ---- messages are legal frames ----

  /** fs may come after o, and gives these events and leaves o' open. */
  predicate Makes(cfg: Config, o: Open, fs: seq<WireFrame>, e: seq<Event>, o': Open)
  {
    LegalAll(cfg, o, fs) && YieldAll(cfg, o, fs) == e && AfterAll(o, fs) == o'
  }

  lemma Nothing(cfg: Config, o: Open)
    ensures Makes(cfg, o, [], [], o)
  {
  }

  lemma MakesTwo(cfg: Config, o: Open, a: seq<WireFrame>, e: seq<Event>, o': Open, b: seq<WireFrame>, e': seq<Event>,
                 o'': Open)
    requires Makes(cfg, o, a, e, o') && Makes(cfg, o', b, e', o'')
    ensures Makes(cfg, o, a + b, e + e', o'')
  {
    hide LegalAll, YieldAll, AfterAll;
    Sequel(cfg, o, a, b);
  }

  lemma MakesOne(cfg: Config, o: Open, f: WireFrame)
    requires Legal(cfg, o, f)
    ensures Makes(cfg, o, [f], Yield(cfg, o, f), After(o, f))
  {
    hide Legal, Yield, After;
    assert [f][1..] == [];
    Nothing(cfg, After(o, f));
    assert Yield(cfg, o, f) + [] == Yield(cfg, o, f);
  }

  lemma {:induction false} ControlsMake(cfg: Config, o: Open, cs: seq<Control>)
    requires ValidControls(cs)
    ensures Makes(cfg, o, ControlFrames(cs), ControlEvents(cfg, cs), o)
    decreases |cs|
  {
    if cs != [] {
      var f := WireFrame(true, if cs[0].Ping? then 9 else 10, cs[0].data);
      MakesOne(cfg, o, f);
      ControlsMake(cfg, o, cs[1..]);
      MakesTwo(cfg, o, [f], Yield(cfg, o, f), o, ControlFrames(cs[1..]), ControlEvents(cfg, cs[1..]), o);
    }
  }

  /** Before a fragment with this opcode: nothing is open, or this much of this kind of message. */
  predicate Due(o: Open, op: nat, text: bool, sofar: seq<Byte>)
  {
    (o == Idle && op == OpCode(text) && sofar == []) || (o == Inside(text, sofar) && op == 0)
  }

  lemma FragmentMakes(cfg: Config, o: Open, op: nat, text: bool, sofar: seq<Byte>, fin: bool, payload: seq<Byte>)
    requires Due(o, op, text, sofar) && |payload| < 0x8000_0000_0000_0000
    requires fin && text ==> cfg.utf8(sofar + payload)
    ensures Makes(cfg, o, [WireFrame(fin, op, payload)], if fin then Delivery(cfg, text, sofar + payload) else [],
                  if fin then Idle else Inside(text, sofar + payload))
  {
    hide Makes;
    assert [] + payload == payload;
    MakesOne(cfg, o, WireFrame(fin, op, payload));
  }

  /** Fragments with control frames between them: the end of a message, or a part of one */
  lemma {:induction false} PartsMake(cfg: Config, o: Open, op: nat, text: bool, sofar: seq<Byte>, parts: seq<Fragment>,
                                     whole: bool)
    requires Due(o, op, text, sofar) && ValidParts(parts) && (whole ==> parts != [])
    requires whole && text ==> cfg.utf8(sofar + Body(parts))
    ensures Makes(cfg, o, PartFrames(op, parts, whole),
                  PartEvents(cfg, parts) + if whole then Delivery(cfg, text, sofar + Body(parts)) else [],
                  if whole then Idle else if parts == [] then o else Inside(text, sofar + Body(parts)))
    decreases |parts|
  {
    hide Makes, ControlFrames, ControlEvents, ValidControls, Delivery;
    if parts == [] {
      Nothing(cfg, o);
      assert PartEvents(cfg, parts) + [] == [];
    } else {
      var f, rest, fin := parts[0], parts[1..], whole && |parts| == 1;
      ControlsMake(cfg, o, f.before);
      Assoc(sofar, f.payload, Body(rest));
      assert |parts| == 1 ==> rest == [] && f.payload + Body(rest) == f.payload;
      FragmentMakes(cfg, o, op, text, sofar, fin, f.payload);
      if fin {
        assert PartFrames(0, rest, whole) == [];
        PartsEnd(cfg, o, f, Delivery(cfg, text, sofar + f.payload), op);
      } else {
        var o1 := Inside(text, sofar + f.payload);
        PartsMake(cfg, o1, 0, text, sofar + f.payload, rest, whole);
        PartsGoOn(cfg, o, f, op, o1, PartFrames(0, rest, whole), PartEvents(cfg, rest),
                  if whole then Delivery(cfg, text, sofar + Body(parts)) else [],
                  if whole then Idle else if rest == [] then o1 else Inside(text, sofar + f.payload + Body(rest)));
      }
    }
  }

  lemma PartsEnd(cfg: Config, o: Open, f: Fragment, d: seq<Event>, op: nat)
    requires Makes(cfg, o, ControlFrames(f.before), ControlEvents(cfg, f.before), o)
    requires Makes(cfg, o, [WireFrame(true, op, f.payload)], d, Idle)
    ensures Makes(cfg, o, ControlFrames(f.before) + ([WireFrame(true, op, f.payload)] + []),
                  ControlEvents(cfg, f.before) + [] + d, Idle)
  {
    hide Makes, ControlFrames, ControlEvents;
    var x := WireFrame(true, op, f.payload);
    MakesTwo(cfg, o, ControlFrames(f.before), ControlEvents(cfg, f.before), o, [x], d, Idle);
    assert [x] + [] == [x];
    assert ControlEvents(cfg, f.before) + [] == ControlEvents(cfg, f.before);
  }

  lemma PartsGoOn(cfg: Config, o: Open, f: Fragment, op: nat, o1: Open, later: seq<WireFrame>, e: seq<Event>,
                  d: seq<Event>, o2: Open)
    requires Makes(cfg, o, ControlFrames(f.before), ControlEvents(cfg, f.before), o)
    requires Makes(cfg, o, [WireFrame(false, op, f.payload)], [], o1) && Makes(cfg, o1, later, e + d, o2)
    ensures Makes(cfg, o, ControlFrames(f.before) + ([WireFrame(false, op, f.payload)] + later),
                  ControlEvents(cfg, f.before) + e + d, o2)
  {
    hide Makes, ControlFrames, ControlEvents;
    var x := WireFrame(false, op, f.payload);
    MakesTwo(cfg, o, [x], [], o1, later, e + d, o2);
    assert [] + (e + d) == e + d;
    MakesTwo(cfg, o, ControlFrames(f.before), ControlEvents(cfg, f.before), o, [x] + later, e + d, o2);
    Assoc(ControlEvents(cfg, f.before), e, d);
  }

  lemma {:induction false} MessagesMake(cfg: Config, ms: seq<Message>)
    requires ValidMessages(cfg, ms)
    ensures Makes(cfg, Idle, MessageFrames(ms), MessageEvents(cfg, ms), Idle)
    decreases |ms|
  {
    hide Makes, PartFrames, PartEvents, Delivery, Body, ValidParts;
    if ms == [] {
      Nothing(cfg, Idle);
    } else {
      var m := ms[0];
      assert [] + Body(m.parts) == Body(m.parts);
      PartsMake(cfg, Idle, OpCode(m.text), m.text, [], m.parts, true);
      MessagesMake(cfg, ms[1..]);
      MakesTwo(cfg, Idle, PartFrames(OpCode(m.text), m.parts, true),
               PartEvents(cfg, m.parts) + Delivery(cfg, m.text, Body(m.parts)), Idle,
               MessageFrames(ms[1..]), MessageEvents(cfg, ms[1..]), Idle);
    }
  }

  /** What is open when the stream ends */
  function LeftOpen(st: Stream): Open
  {
    if st.cut.None? || st.cut.value.parts == [] then Idle else Inside(st.cut.value.text, Body(st.cut.value.parts))
  }

  /** A stream of messages is a legal sequence of frames, and what its frames yield is what is to be delivered. */
  lemma MessagesAreFrames(cfg: Config, st: Stream)
    requires Valid(cfg, st)
    ensures ValidFrames(cfg, FramesOf(st), st.close) && AfterAll(Idle, FramesOf(st)) == LeftOpen(st)
    ensures YieldAll(cfg, Idle, FramesOf(st)) + Farewell(cfg, st.close) == Delivered(cfg, st)
  {
    hide ValidMessages, ValidParts, MessageFrames, MessageEvents, PartFrames, PartEvents, ControlFrames, ControlEvents,
         ValidControls, LegalAll, YieldAll, AfterAll, Farewell, Body;
    MessagesMake(cfg, st.ms);
    var e, o: Open := [], Idle;
    if st.cut.Some? {
      var m := st.cut.value;
      assert [] + Body(m.parts) == Body(m.parts);
      PartsMake(cfg, Idle, OpCode(m.text), m.text, [], m.parts, false);
      assert PartEvents(cfg, m.parts) + [] == PartEvents(cfg, m.parts);
      e, o := PartEvents(cfg, m.parts), LeftOpen(st);
    } else {
      Nothing(cfg, Idle);
    }
    ControlsMake(cfg, o, st.last);
    MakesTwo(cfg, Idle, CutFrames(st.cut), e, o, ControlFrames(st.last), ControlEvents(cfg, st.last), o);
    MakesTwo(cfg, Idle, MessageFrames(st.ms), MessageEvents(cfg, st.ms), Idle,
             CutFrames(st.cut) + ControlFrames(st.last), e + ControlEvents(cfg, st.last), o);
  }

  function Wire(cfg: Config, st: Stream): seq<Byte>
    requires Valid(cfg, st)
  {
    MessagesAreFrames(cfg, st);
    Bytes(cfg, FramesOf(st), st.close)
  }

  /** Every safe split of a valid stream delivers exactly its messages, each the concatenation of its
      fragments, and one pong with the same payload per ping, in order; then, if a close frame ends it,
      one disconnection and one answer with its code. Nothing is left behind but the unfinished message. */
  lemma ValidStreamsAreDelivered(cfg: Config, p: Parser, st: Stream, chunks: seq<seq<Byte>>, behind: seq<Beyond>)
    requires p.stack == [] && p.frag == None && !p.didDisconnect && Valid(cfg, st) && Chunked(chunks, behind)
    requires Join(chunks) == Wire(cfg, st) && SafeSplit(FramesOf(st), 0, chunks)
    ensures var q := FeedAll(cfg, p, chunks, behind);
            && q.events == p.events + Delivered(cfg, st)
            && q.frag == None && Holds(q, LeftOpen(st)) && q.didDisconnect == st.close.Some?
  {
    hide Run, Clean, Join, Bytes, SafeSplit, FeedAll, YieldAll, AfterAll, Farewell, CloseReply, Delivered, Valid,
         FramesOf, LeftOpen, ValidFrames;
    MessagesAreFrames(cfg, st);
    var fs := FramesOf(st);
    var q := RunStream(cfg, p, fs, st.close);
    CloseIsValid(cfg, fs, st.close);
    EndedEvents(cfg, p, q, YieldAll(cfg, Idle, fs), LeftOpen(st), st.close);
    assert [] + Join(chunks) == Join(chunks);
    SafeIsClean(cfg, p, fs, st.close, [], chunks);
    ChunkingInvariance(cfg, p, chunks, behind);
    EndedHolds(cfg, p, q, YieldAll(cfg, Idle, fs), LeftOpen(st), st.close);
  }

  lemma CloseIsValid(cfg: Config, fs: seq<WireFrame>, close: Option<seq<Byte>>)
    requires ValidFrames(cfg, fs, close)
    ensures close.Some? ==> ValidClose(close.value)
  {
  }

  lemma EndedHolds(cfg: Config, p: Parser, q: Parser, e: seq<Event>, o: Open, close: Option<seq<Byte>>)
    requires Reached(p, q, e, o) && (close.Some? ==> ValidClose(close.value)) && p.frag == None
    ensures Ended(cfg, q, close).frag == None && Holds(Ended(cfg, q, close), o)
  {
    hide CloseReply;
  }
}
