/** What one turn of Starscream's frame parser does to its state: the functions the parser class is
    proved against. Frames follow section 5.2 of RFC 6455; compression is not negotiated. */
module WebSocketFrames {
  import opened Common

  // ---- state ----

  /** A message being received (WSResponse) */
  datatype Response = Response(code: nat, isFin: bool, bytesLeft: int, frameCount: nat, buffer: seq<Byte>)

  /** What the parser did to the outside world, in order */
  datatype Event =
    | Text(data: seq<Byte>) | Binary(data: seq<Byte>) | PongReceived(data: seq<Byte>)
    | PongSent(data: seq<Byte>) | CloseSent(code: nat) | Connected | Disconnected(reason: int)

  datatype Parser = Parser(
    stack: seq<Response>, frag: Option<seq<Byte>>,
    connected: bool, didDisconnect: bool, trapped: bool, events: seq<Event>)

  /** canDispatch, respondToPingWithPong, and which byte strings are UTF-8 */
  datatype Config = Config(canDispatch: bool, pongReplies: bool, utf8: seq<Byte> -> bool)

  /** Between turns: at most one message is open, nothing of its last frame is outstanding,
      and it is a text or binary message. */
  predicate StackInv(stack: seq<Response>)
  {
    |stack| <= 1 && forall k :: 0 <= k < |stack| ==> stack[k].bytesLeft == 0 && stack[k].code in {1, 2}
  }

  // ---- reading a header ----

  /** Memory behind the buffer, which the parser may touch before it has checked the length */
  type Beyond = nat -> Byte

  function At(buf: seq<Byte>, i: nat, beyond: Beyond): Byte
  {
    if i < |buf| then buf[i] else beyond(i)
  }

  function BigEndian(buf: seq<Byte>, off: nat, n: nat, beyond: Beyond): nat
  {
    if n == 0 then 0 else 256 * BigEndian(buf, off, n - 1, beyond) + At(buf, off + n - 1, beyond)
  }

  /** What the first two bytes alone decide */
  datatype Verdict = Fine | Quit(code: nat) | Oversized

  function Judge(b0: Byte, b1: Byte): Verdict
  {
    var op := b0 % 16;
    if (b1 >= 128 || b0 / 16 % 8 != 0) && op != 10 then Quit(1002)
    else if op !in {0, 1, 2, 8, 9, 10} then Quit(1002)
    else if op in {8, 9} && b0 < 128 then Quit(1002)
    else if op == 8 && b1 % 128 < 2 then Quit(if b1 % 128 == 1 then 1002 else 1000)
    else if op == 9 && b1 % 128 > 125 then Oversized
    else Fine
  }

  function Offset(b1: Byte): nat
  {
    if b1 % 128 == 127 then 10 else if b1 % 128 == 126 then 4 else 2
  }

  function DataLength(buf: seq<Byte>, beyond: Beyond): nat
  {
    var n := At(buf, 1, beyond) % 128;
    if n == 127 then BigEndian(buf, 2, 8, beyond) else if n == 126 then BigEndian(buf, 2, 2, beyond) else n
  }

  /** The close code reported for the two bytes found at the usual place */
  function CloseCode(c: nat): nat
  {
    if c < 1000 || 1003 < c < 1007 || 1013 < c < 3000 then 1002 else c
  }

  /** One frame at the start of a buffer: not all there yet; ends the connection; is dropped with the
      rest of the buffer after a close frame was sent; stops the program; or is complete. */
  datatype Frame = More | Closing(code: nat) | Dropped | Trap | Whole(fin: bool, op: nat, payload: seq<Byte>, size: nat)

  /** A frame of n data bytes at offset off, all of them in the buffer; `code` is what the first two
      bytes after the short header say. */
  function Contents(cfg: Config, buf: seq<Byte>, off: nat, n: nat, code: nat): Frame
    requires buf != [] && off + n <= |buf|
  {
    if buf[0] % 16 != 8 then Whole(buf[0] >= 128, buf[0] % 16, buf[off..off + n], off + n)
    else if n == 1 then Trap // two code bytes are subtracted from a length of one
    else Closing(if cfg.utf8(if n == 0 then [] else buf[off + 2..off + n]) then CloseCode(code) else 1002)
  }

  function ReadFrame(cfg: Config, buf: seq<Byte>, beyond: Beyond): (f: Frame)
    requires buf != []
    ensures f.Whole? ==> 2 <= f.size <= |buf| && f.op in {0, 1, 2, 9, 10}
  {
    var b1 := At(buf, 1, beyond);
    match Judge(buf[0], b1)
    case Quit(code) => Closing(code)
    case Oversized => Dropped
    case Fine =>
      var off, n := Offset(b1), DataLength(buf, beyond);
      if |buf| < off + n then More else Contents(cfg, buf, off, n, BigEndian(buf, 2, 2, beyond))
  }

  // ---- acting on it ----

  function Emit(cfg: Config, p: Parser, e: Event): Parser
  {
    if cfg.canDispatch then p.(events := p.events + [e]) else p
  }

  /** doDisconnect: reported once */
  function Disconnect(cfg: Config, p: Parser, code: int): Parser
  {
    if p.didDisconnect then p
    else Emit(cfg, p.(didDisconnect := true, connected := false), Disconnected(code))
  }

  /** writeError */
  function SendClose(p: Parser, code: nat): Parser
  {
    p.(events := p.events + [CloseSent(code)])
  }

  function Leave(cfg: Config, p: Parser, code: nat): Parser
  {
    SendClose(Disconnect(cfg, p, code), code)
  }

  /** processResponse on the message at the top of the stack. Text that is not UTF-8 is answered
      with close code 1007 and stays there. */
  function Finish(cfg: Config, p: Parser): Parser
    requires p.stack != []
  {
    var r := p.stack[|p.stack| - 1];
    var popped := p.(stack := p.stack[..|p.stack| - 1]);
    if !r.isFin || r.bytesLeft > 0 then p
    else if r.code == 9 then if cfg.pongReplies then popped.(events := p.events + [PongSent(r.buffer)]) else popped
    else if r.code == 1 then if cfg.utf8(r.buffer) then Emit(cfg, popped, Text(r.buffer)) else SendClose(p, 1007)
    else if r.code == 2 then Emit(cfg, popped, Binary(r.buffer))
    else popped
  }

  datatype Outcome = Continue(p: Parser) | Halt(p: Parser)

  /** A complete frame that is not a close */
  function Apply(cfg: Config, p: Parser, fin: bool, op: nat, payload: seq<Byte>): Outcome
  {
    if op == 10 then Continue(Emit(cfg, p, PongReceived(payload)))
    else if op == 9 then Continue(if cfg.pongReplies then p.(events := p.events + [PongSent(payload)]) else p)
    else if p.stack == [] then
      if op == 0 then Halt(Leave(cfg, p, 1002))
      else Continue(Finish(cfg, p.(stack := [Response(op, fin, 0, 1, payload)])))
    else if op != 0 then Halt(Leave(cfg, p, 1002))
    else
      var r := p.stack[|p.stack| - 1];
      var r' := r.(isFin := fin, bytesLeft := 0, frameCount := r.frameCount + 1, buffer := r.buffer + payload);
      Continue(Finish(cfg, p.(stack := p.stack[|p.stack| - 1 := r'])))
  }

  /** processOneRawMessage: the new state and the unprocessed rest of the buffer */
  function Next(cfg: Config, p: Parser, buf: seq<Byte>, beyond: Beyond): (r: (Parser, seq<Byte>))
    ensures buf != [] ==> |r.1| < |buf|
  {
    if buf == [] then (p, [])
    else if p.stack != [] && |buf| < 2 then (p.(frag := Some(buf)), [])
    else
      match ReadFrame(cfg, buf, beyond)
      case More => (p.(frag := Some(buf)), [])
      case Closing(code) => (Leave(cfg, p, code), [])
      case Dropped => (SendClose(p, 1002), [])
      case Trap => (p.(trapped := true), [])
      case Whole(fin, op, payload, size) =>
        match Apply(cfg, p, fin, op, payload)
        case Continue(p') => (p', buf[size..])
        case Halt(p') => (p', [])
  }

  /** processRawMessagesInBuffer */
  function Drain(cfg: Config, p: Parser, buf: seq<Byte>, beyond: Beyond): Parser
    requires buf != []
    decreases |buf|
  {
    var (p', rest) := Next(cfg, p, buf, beyond);
    if |rest| >= 2 then Drain(cfg, p', rest, beyond)
    else if rest != [] then p'.(frag := Some(rest))
    else p'
  }

  /** The connected branch of dequeueInput for one chunk from the socket */
  function Feed(cfg: Config, p: Parser, chunk: seq<Byte>, beyond: Beyond): Parser
    requires chunk != []
  {
    var work := if p.frag.Some? then p.frag.value + chunk else chunk;
    Drain(cfg, p.(frag := None), work, beyond)
  }

  // ---- the stack invariant ----

  lemma FinishKeeps(cfg: Config, p: Parser)
    requires |p.stack| == 1 && StackInv(p.stack)
    ensures StackInv(Finish(cfg, p).stack)
  {
  }

  lemma ApplyKeeps(cfg: Config, p: Parser, fin: bool, op: nat, payload: seq<Byte>)
    requires StackInv(p.stack) && op in {0, 1, 2, 9, 10}
    ensures StackInv(Apply(cfg, p, fin, op, payload).p.stack)
  {
    hide Finish;
    if op in {1, 2} && p.stack == [] {
      FinishKeeps(cfg, p.(stack := [Response(op, fin, 0, 1, payload)]));
    }
    if op == 0 && p.stack != [] {
      var r := p.stack[0];
      var r' := r.(isFin := fin, bytesLeft := 0, frameCount := r.frameCount + 1, buffer := r.buffer + payload);
      FinishKeeps(cfg, p.(stack := [r']));
      assert p.stack[0 := r'] == [r'];
    }
  }

  /** For every input, valid or not. */
  lemma NextKeeps(cfg: Config, p: Parser, buf: seq<Byte>, beyond: Beyond)
    requires StackInv(p.stack)
    ensures StackInv(Next(cfg, p, buf, beyond).0.stack)
  {
    hide ReadFrame, Apply, StackInv;
    if buf != [] && ReadFrame(cfg, buf, beyond).Whole? {
      var f := ReadFrame(cfg, buf, beyond);
      ApplyKeeps(cfg, p, f.fin, f.op, f.payload);
    }
  }

  lemma {:induction false} DrainKeeps(cfg: Config, p: Parser, buf: seq<Byte>, beyond: Beyond)
    requires StackInv(p.stack) && buf != []
    ensures StackInv(Drain(cfg, p, buf, beyond).stack)
    decreases |buf|
  {
    hide Next, StackInv;
    NextKeeps(cfg, p, buf, beyond);
    var (p', rest) := Next(cfg, p, buf, beyond);
    if |rest| >= 2 { DrainKeeps(cfg, p', rest, beyond); }
  }
}
