/** The receiving half of WebSocket.swift: one object whose fields the incoming bytes update. */
module WebSocketParsers {
  import opened Common
  import V = Varint
  import opened WebSocketFrames
  import opened WebSocketChunks
  import opened WebSocketHandshake

  /** value = (value << 8) | b */
  lemma ShiftIn(v: nat, b: Byte)
    ensures V.BitOr(b, V.Shl(v, 8)) == 256 * v + b
  {
    hide V.BitOr;
    V.ShlAdd(1, 1, 7);
    V.ShlSeven(1);
    V.ShlAdd(v, 1, 7);
    V.ShlSeven(v);
    V.OrOfDisjointIsSum(b, v, 8);
  }

  lemma {:induction false} BigEndianBound(buf: seq<Byte>, off: nat, n: nat, beyond: Beyond)
    ensures BigEndian(buf, off, n, beyond) < Pow(256, n)
  {
    if n > 0 { BigEndianBound(buf, off, n - 1, beyond); }
  }

  lemma SevenBytes(i: nat)
    requires i < 8
    ensures Pow(256, i) <= 0x100_0000_0000_0000
  {
    hide Pow;
    PowMonotone(256, i, 7);
    PowSeven();
  }

  lemma PowSeven()
    ensures Pow(256, 7) == 0x100_0000_0000_0000
  {
    assert Pow(256, 3) == 0x100_0000;
    assert Pow(256, 6) == 0x1_0000_0000_0000;
  }

  /** readUint16 (n = 2) and readUint64 (n = 8), with the wrap-around of the shifted word */
  method ReadUint(buf: seq<Byte>, off: nat, n: nat, beyond: Beyond) returns (value: nat)
    requires n <= 8
    ensures value == BigEndian(buf, off, n, beyond)
  {
    hide V.BitOr, V.Shl, Pow;
    value := 0;
    for i := 0 to n
      invariant value == BigEndian(buf, off, i, beyond)
    {
      BigEndianBound(buf, off, i, beyond);
      SevenBytes(i);
      var b := At(buf, off + i, beyond);
      ShiftIn(value, b);
      ShiftIn(value, 0);
      ZeroOr(V.Shl(value, 8));
      assert V.Shl(value, 8) % U64 == V.Shl(value, 8);
      value := V.BitOr(b, V.Shl(value, 8) % U64);
    }
  }

  lemma ZeroOr(x: nat)
    ensures V.BitOr(0, x) == x
  {
  }

  class WebSocket {
    const cfg: Config
    const validate: Validator
    var readStack: seq<Response>
    var fragBuffer: Option<seq<Byte>>
    var connected: bool
    var didDisconnect: bool
    var trapped: bool
    var events: seq<Event>

    ghost function View(): Parser
      reads this
    {
      Parser(readStack, fragBuffer, connected, didDisconnect, trapped, events)
    }

    constructor (cfg: Config, validate: Validator)
      ensures View() == Parser([], None, false, false, false, []) && fresh(this)
      ensures this.cfg == cfg && this.validate == validate
    {
      this.cfg, this.validate := cfg, validate;
      readStack, fragBuffer, events := [], None, [];
      connected, didDisconnect, trapped := false, false, false;
    }

    method Dispatch(e: Event)
      modifies this`events
      ensures View() == Emit(cfg, old(View()), e)
    {
      if cfg.canDispatch {
        events := events + [e];
      }
    }

    /** doDisconnect */
    method DoDisconnect(code: int)
      modifies this`events, this`didDisconnect, this`connected
      ensures View() == Disconnect(cfg, old(View()), code)
    {
      if didDisconnect {
        return;
      }
      didDisconnect := true;
      connected := false;
      Dispatch(Disconnected(code));
    }

    /** writeError */
    method WriteError(code: nat)
      modifies this`events
      ensures View() == SendClose(old(View()), code)
    {
      events := events + [CloseSent(code)];
    }

    method Fail(code: nat)
      modifies this`events, this`didDisconnect, this`connected
      ensures View() == Leave(cfg, old(View()), code)
    {
      DoDisconnect(code);
      WriteError(code);
    }

    /** processResponse, on the message at the top of the stack */
    method ProcessResponse() returns (finished: bool)
      requires readStack != []
      modifies this`events, this`readStack
      ensures View() == Finish(cfg, old(View()))
    {
      var response := readStack[|readStack| - 1];
      if response.isFin && response.bytesLeft <= 0 {
        if response.code == 9 {
          if cfg.pongReplies {
            events := events + [PongSent(response.buffer)];
          }
        } else if response.code == 1 {
          if !cfg.utf8(response.buffer) {
            WriteError(1007);
            return false;
          }
          Dispatch(Text(response.buffer));
        } else if response.code == 2 {
          Dispatch(Binary(response.buffer));
        }
        readStack := readStack[..|readStack| - 1];
        return true;
      }
      return false;
    }

    /** The end of processOneRawMessage: a complete frame that is neither a close nor a pong */
    method HandleData(isFin: bool, op: nat, data: seq<Byte>) returns (ok: bool)
      requires StackInv(readStack) && op in {0, 1, 2, 9} && (op == 9 ==> isFin)
      modifies this`events, this`readStack, this`didDisconnect, this`connected
      ensures View() == Apply(cfg, old(View()), isFin, op, data).p
      ensures ok == Apply(cfg, old(View()), isFin, op, data).Continue?
    {
      hide Finish;
      var isControlFrame := op == 9;
      var isOpen := !isControlFrame && readStack != []; // a ping never joins the open message
      if !isFin && op == 0 && !isOpen {
        Fail(1002);
        return false;
      }
      if !isOpen {
        if op == 0 {
          Fail(1002);
          return false;
        }
        ghost var before := readStack;
        readStack := readStack + [Response(op, isFin, 0, 1, data)];
        PushedPing(cfg, View(), before);
      } else {
        if op != 0 {
          Fail(1002);
          return false;
        }
        var last := |readStack| - 1;
        var r := readStack[last];
        r := r.(isFin := isFin, bytesLeft := 0, frameCount := r.frameCount + 1, buffer := r.buffer + data);
        readStack := readStack[last := r];
      }
      var _ := ProcessResponse();
      return true;
    }
    /** processOneRawMessage: what is left of the buffer, if parsing is to go on */
    method ProcessOneRawMessage(buf: seq<Byte>, beyond: Beyond) returns (rest: seq<Byte>)
      requires StackInv(readStack)
      modifies this
      ensures (View(), rest) == Next(cfg, old(View()), buf, beyond) && StackInv(readStack)
    {
      hide Finish, Apply, BigEndian;
      NextKeeps(cfg, View(), buf, beyond);
      if buf == [] {
        return [];
      }
      if readStack != [] && |buf| < 2 {
        fragBuffer := Some(buf);
        return [];
      }
      if readStack != [] && readStack[|readStack| - 1].bytesLeft > 0 {
        assert false; // the branch that continues a partial payload
      }
      var b1 := At(buf, 1, beyond);
      var isFin, op, isMasked, payloadLen := buf[0] >= 128, buf[0] % 16, b1 >= 128, b1 % 128;
      var offset: nat := 2;
      if (isMasked || buf[0] / 16 % 8 != 0) && op != 10 {
        Fail(1002);
        return [];
      }
      var isControlFrame := op == 8 || op == 9;
      if !isControlFrame && op != 2 && op != 0 && op != 1 && op != 10 {
        Fail(1002);
        return [];
      }
      if isControlFrame && !isFin {
        Fail(1002);
        return [];
      }
      var closeCode: nat := 1000;
      if op == 8 {
        if payloadLen == 1 {
          closeCode := 1002;
        } else if payloadLen > 1 {
          closeCode := ReadUint(buf, offset, 2, beyond);
          if closeCode < 1000 || 1003 < closeCode < 1007 || 1013 < closeCode < 3000 {
            closeCode := 1002;
          }
        }
        if payloadLen < 2 {
          Fail(closeCode);
          return [];
        }
      } else if isControlFrame && payloadLen > 125 {
        WriteError(1002);
        return [];
      }
      rest := ProcessBody(buf, beyond, isFin, op, payloadLen, closeCode);
    }

    /** The second half of processOneRawMessage: the length, the payload and what it means */
    method ProcessBody(buf: seq<Byte>, beyond: Beyond, isFin: bool, op: nat, payloadLen: nat, closeCode: nat)
      returns (rest: seq<Byte>)
      requires StackInv(readStack) && buf != [] && Judge(buf[0], At(buf, 1, beyond)).Fine?
      requires isFin == (buf[0] >= 128) && op == buf[0] % 16 && payloadLen == At(buf, 1, beyond) % 128
      requires op == 8 ==> closeCode == CloseCode(BigEndian(buf, 2, 2, beyond))
      requires readStack == [] || |buf| >= 2
      modifies this
      ensures (View(), rest) == Next(cfg, old(View()), buf, beyond)
    {
      hide Finish, Apply, BigEndian, CloseCode, ReadFrame, Judge, Next, Leave, Offset, DataLength;
      var offset, dataLength := ReadLength(buf, payloadLen, beyond);
      NextBody(cfg, View(), buf, beyond);
      if |buf| < offset || |buf| - offset < dataLength {
        fragBuffer := Some(buf);
        return [];
      }
      assert dataLength <= |buf|; // the conversions to Int below are exact
      var len: nat := dataLength;
      if op == 8 && len > 0 {
        if len < 2 {
          trapped := true;
          return [];
        }
        offset := offset + 2;
        len := len - 2;
      }
      var data := buf[offset..offset + len];
      if op == 8 {
        Fail(if cfg.utf8(data) then closeCode else 1002);
        return [];
      }
      if op == 10 {
        Dispatch(PongReceived(data));
        ApplyPong(cfg, old(View()), isFin, data);
        return buf[offset + len..];
      }
      FineOpcodes(buf[0], At(buf, 1, beyond));
      var ok := HandleData(isFin, op, data);
      rest := if ok then buf[offset + len..] else [];
    }

    /** processRawMessagesInBuffer */
    method ProcessRawMessages(buf: seq<Byte>, beyond: Beyond)
      requires StackInv(readStack) && buf != []
      modifies this
      ensures View() == Drain(cfg, old(View()), buf, beyond) && StackInv(readStack)
    {
      hide Next;
      var buffer := ProcessOneRawMessage(buf, beyond);
      ghost var last := buf;
      while |buffer| >= 2
        invariant StackInv(readStack) && |buffer| < |buf|
        invariant Drain(cfg, old(View()), buf, beyond)
               == if |buffer| >= 2 then Drain(cfg, View(), buffer, beyond)
                  else if buffer != [] then View().(frag := Some(buffer)) else View()
        decreases |buffer|
      {
        buffer := ProcessOneRawMessage(buffer, beyond);
      }
      if |buffer| > 0 {
        fragBuffer := Some(buffer);
      }
    }

    /** The search loop of processHTTP */
    method FindHeaderEnd(buf: seq<Byte>) returns (totalSize: nat)
      ensures totalSize == Scan(buf, 0, 0)
    {
      var k := 0;
      for i := 0 to |buf|
        invariant 0 <= k < 4 && Scan(buf, 0, 0) == Scan(buf, i, k)
      {
        if buf[i] == CRLF2[k] {
          k := k + 1;
          if k == 4 {
            return i + 1;
          }
        } else {
          k := 0;
        }
      }
      return 0;
    }

    /** processHTTP: 0 when the connection is up, -1 when more is needed, or an HTTP status */
    method ProcessHTTP(buf: seq<Byte>, beyond: Beyond) returns (code: int)
      requires StackInv(readStack) && fragBuffer == None
      modifies this
      ensures StackInv(readStack)
      ensures code == if Scan(buf, 0, 0) > 0 then validate(buf[..Scan(buf, 0, 0)]) else -1
      ensures code == 0 ==> View() == Handshake(cfg, validate, old(View()), buf, beyond)
      ensures code != 0 ==> View() == old(View())
    {
      hide Scan, Drain, StackInv;
      var totalSize := FindHeaderEnd(buf);
      if totalSize > 0 {
        code := validate(buf[..totalSize]);
        if code != 0 {
          return code;
        }
        connected := true;
        didDisconnect := false;
        Dispatch(Connected);
        var restSize := |buf| - totalSize;
        if restSize > 0 {
          ProcessRawMessages(buf[totalSize..], beyond);
        }
        return 0;
      }
      return -1;
    }

    /** processTCPHandshake */
    method ProcessTCPHandshake(buf: seq<Byte>, beyond: Beyond)
      requires StackInv(readStack) && fragBuffer == None
      modifies this
      ensures View() == Handshake(cfg, validate, old(View()), buf, beyond) && StackInv(readStack)
    {
      hide Scan, Drain, StackInv;
      var code := ProcessHTTP(buf, beyond);
      if code == -1 {
        fragBuffer := Some(buf);
      } else if code != 0 {
        DoDisconnect(code);
      }
    }

    /** dequeueInput for one chunk from the socket */
    method DequeueInput(data: seq<Byte>, beyond: Beyond)
      requires StackInv(readStack) && data != []
      modifies this
      ensures View() == Receive(cfg, validate, old(View()), data, beyond) && StackInv(readStack)
    {
      hide Handshake, Drain, StackInv;
      var work := data;
      if fragBuffer.Some? {
        work := fragBuffer.value + data;
        fragBuffer := None;
      }
      assert [] + data == data;
      if !connected {
        ProcessTCPHandshake(work, beyond);
      } else {
        ProcessRawMessages(work, beyond);
      }
    }
  }

  /** The payload length with its extended forms, and where the payload starts */
  method ReadLength(buf: seq<Byte>, payloadLen: nat, beyond: Beyond) returns (offset: nat, dataLength: nat)
    requires payloadLen == At(buf, 1, beyond) % 128
    ensures offset == Offset(At(buf, 1, beyond)) && dataLength == DataLength(buf, beyond)
  {
    hide BigEndian;
    offset, dataLength := 2, payloadLen;
    if dataLength == 127 {
      dataLength := ReadUint(buf, offset, 8, beyond);
      offset := offset + 8;
    } else if dataLength == 126 {
      dataLength := ReadUint(buf, offset, 2, beyond);
      offset := offset + 2;
    }
  }

  /** Next, once the first two bytes have been found in order */
  lemma NextBody(cfg: Config, p: Parser, buf: seq<Byte>, beyond: Beyond)
    requires buf != [] && (p.stack == [] || |buf| >= 2) && Judge(buf[0], At(buf, 1, beyond)).Fine?
    ensures var off, n := Offset(At(buf, 1, beyond)), DataLength(buf, beyond);
            Next(cfg, p, buf, beyond)
              == if |buf| < off + n then (p.(frag := Some(buf)), [])
                 else if buf[0] % 16 != 8 then
                   var r := Apply(cfg, p, buf[0] >= 128, buf[0] % 16, buf[off..off + n]);
                   (r.p, if r.Continue? then buf[off + n..] else [])
                 else if n == 1 then (p.(trapped := true), [])
                 else
                   var ok := cfg.utf8(if n == 0 then [] else buf[off + 2..off + n]);
                   (Leave(cfg, p, if ok then CloseCode(BigEndian(buf, 2, 2, beyond)) else 1002), [])
  {
    hide BigEndian, DataLength, Apply, CloseCode, Judge, Offset, Leave;
  }

  lemma FineOpcodes(b0: Byte, b1: Byte)
    requires Judge(b0, b1).Fine?
    ensures b0 % 16 in {0, 1, 2, 8, 9, 10} && (b0 % 16 in {8, 9} ==> b0 >= 128)
  {
  }

  lemma ApplyPong(cfg: Config, p: Parser, fin: bool, data: seq<Byte>)
    ensures Apply(cfg, p, fin, 10, data) == Continue(Emit(cfg, p, PongReceived(data)))
  {
  }

  /** A finished ping on top of the stack is answered and taken off again. */
  lemma PushedPing(cfg: Config, p: Parser, before: seq<Response>)
    requires |p.stack| == |before| + 1 && p.stack[..|before|] == before
    ensures var r := p.stack[|before|];
            r.code == 9 && r.isFin && r.bytesLeft == 0 ==>
              Finish(cfg, p)
                == p.(stack := before, events := p.events + if cfg.pongReplies then [PongSent(r.buffer)] else [])
  {
  }
}
