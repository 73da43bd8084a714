/** dequeueWrite of WebSocket.swift: building masked frames and getting them onto the socket. */
module WebSocketWriters {
  import opened Common
  import V = Varint
  import opened WebSocketStreams

  // ---- masking (RFC 6455, section 5.3) ----

  function Xor(a: nat, b: nat): nat
  {
    if a == 0 then b
    else if b == 0 then a
    else (a % 2 + b % 2) % 2 + 2 * Xor(a / 2, b / 2)
  }

  lemma {:induction false} XorBound(a: nat, b: nat, n: nat)
    requires a < V.Shl(1, n) && b < V.Shl(1, n)
    ensures Xor(a, b) < V.Shl(1, n)
    decreases n
  {
    if n > 0 && a != 0 && b != 0 { XorBound(a / 2, b / 2, n - 1); }
  }

  function OddOne(a: nat, b: nat): (p: nat)
    ensures p < 2
  {
    (a % 2 + b % 2) % 2
  }

  lemma XorUnfold(a: nat, b: nat)
    ensures a == 0 ==> Xor(a, b) == b
    ensures b == 0 ==> Xor(a, b) == a
    ensures a != 0 && b != 0 ==> Xor(a, b) == OddOne(a, b) + 2 * Xor(a / 2, b / 2)
  {
  }

  lemma Halves(p: nat, x: nat)
    requires p < 2
    ensures (p + 2 * x) % 2 == p && (p + 2 * x) / 2 == x
  {
  }

  lemma OneZero(a: nat)
    ensures OddOne(a, 0) == OddOne(0, a) == a % 2
  {
  }

  lemma XorBits(a: nat, b: nat)
    ensures Xor(a, b) % 2 == OddOne(a, b) && Xor(a, b) / 2 == Xor(a / 2, b / 2)
  {
    hide Xor, OddOne;
    XorUnfold(a, b);
    if a == 0 {
      XorUnfold(0, b / 2);
      OneZero(b);
    } else if b == 0 {
      XorUnfold(a / 2, 0);
      OneZero(a);
    } else {
      Halves(OddOne(a, b), Xor(a / 2, b / 2));
    }
  }

  lemma Parity(a: nat, b: nat)
    ensures (OddOne(a, b) + b % 2) % 2 == a % 2
  {
  }

  lemma {:induction false} XorTwice(a: nat, b: nat)
    ensures Xor(Xor(a, b), b) == a
    decreases a + b
  {
    XorZeros();
    if a + b > 0 {
      hide Xor;
      XorTwice(a / 2, b / 2);
      XorBits(a, b);
      XorBits(Xor(a, b), b);
      Parity(a, b);
    }
  }

  lemma XorZeros()
    ensures Xor(0, 0) == 0
  {
  }

  lemma Eight()
    ensures V.Shl(1, 8) == 256
  {
    V.ShlAdd(1, 1, 7);
    V.ShlSeven(1);
  }

  function XorByte(a: Byte, b: Byte): Byte
  {
    Eight();
    XorBound(a, b, 8);
    Xor(a, b)
  }

  type Key = k: seq<Byte> | |k| == 4 witness [0, 0, 0, 0]

  function Masked(data: seq<Byte>, key: Key): (m: seq<Byte>)
    ensures |m| == |data|
  {
    seq<Byte>(|data|, i requires 0 <= i < |data| => XorByte(data[i], key[i % 4]))
  }

  /** Masking is its own inverse. */
  lemma MaskedTwice(data: seq<Byte>, key: Key)
    ensures Masked(Masked(data, key), key) == data
  {
    hide Xor;
    var m := Masked(data, key);
    forall i | 0 <= i < |data|
      ensures Masked(m, key)[i] == data[i]
    {
      XorTwice(data[i], key[i % 4]);
    }
  }

  function Bit(x: nat, k: nat): nat { if k == 0 then x % 2 else Bit(x / 2, k - 1) }

  /** A bit of the result is set where exactly one of the two has it. */
  lemma {:induction false} XorBit(a: nat, b: nat, k: nat)
    ensures Bit(Xor(a, b), k) == if Bit(a, k) == Bit(b, k) then 0 else 1
    decreases k
  {
    hide Xor;
    XorBits(a, b);
    if k > 0 {
      XorBit(a / 2, b / 2, k - 1);
    }
  }

  /** Every bit of byte i goes out flipped where byte i modulo 4 of the key has it. */
  lemma MaskedBits(data: seq<Byte>, key: Key, i: nat, k: nat)
    requires i < |data|
    ensures Bit(Masked(data, key)[i], k) == if Bit(data[i], k) == Bit(key[i % 4], k) then 0 else 1
  {
    hide Xor;
    XorBit(data[i], key[i % 4], k);
  }

  // ---- what a receiver makes of it (sections 5.2 and 5.3) ----

  datatype Received = Malformed | Frame(fin: bool, rsv: nat, op: nat, payload: seq<Byte>, header: nat, rest: seq<Byte>)

  function FromBE(b: seq<Byte>): nat
  {
    if b == [] then 0 else 256 * FromBE(b[..|b| - 1]) + b[|b| - 1]
  }

  /** The payload length at the front of s, and how many bytes gave it; only the shortest form will do. */
  function ReceiveLength(s: seq<Byte>): Option<(nat, nat)>
  {
    if s == [] then None
    else if s[0] % 128 < 126 then Some((s[0] % 128, 1))
    else if s[0] % 128 == 126 then
      if |s| >= 3 && FromBE(s[1..3]) >= 126 then Some((FromBE(s[1..3]), 3)) else None
    else if |s| >= 9 && 0x1_0000 <= FromBE(s[1..9]) < 0x8000_0000_0000_0000 then Some((FromBE(s[1..9]), 9))
    else None
  }

  /** A server's view of a client frame: it must be masked. */
  function ReceiveFrame(s: seq<Byte>): Received
  {
    if |s| < 2 || s[1] < 128 then Malformed
    else
      match ReceiveLength(s[1..])
      case None => Malformed
      case Some((n, used)) =>
        var at := 1 + used + 4;
        if |s| < at + n then Malformed
        else
          var key: Key := s[1 + used..at];
          Frame(s[0] >= 128, s[0] / 16 % 8, s[0] % 16, Masked(s[at..at + n], key), at, s[at + n..])
  }

  // ---- the frame that is built ----

  function MaskedLength(n: nat): (b: seq<Byte>)
    ensures 1 <= |b| <= 9
  {
    var l := EncLength(n);
    if l[0] < 128 then l[0 := l[0] + 128] else l
  }

  function ClientFrame(op: nat, data: seq<Byte>, key: Key): (f: seq<Byte>)
    requires op < 16
    ensures |f| >= 6
  {
    [128 + op] + MaskedLength(|data|) + key + Masked(data, key)
  }

  lemma {:induction false} FromBEOfBE(n: nat, k: nat)
    requires n < Pow(256, k)
    ensures FromBE(BE(n, k)) == n
  {
    if k > 0 {
      FromBEOfBE(n / 256, k - 1);
      assert BE(n, k)[..k - 1] == BE(n / 256, k - 1);
    }
  }

  lemma ReceivesLength(n: nat, t: seq<Byte>)
    requires n < 0x8000_0000_0000_0000
    ensures ReceiveLength(MaskedLength(n) + t) == Some((n, |MaskedLength(n)|)) && MaskedLength(n)[0] >= 128
  {
    hide BE, FromBE, Pow;
    WideEnough();
    var s := MaskedLength(n) + t;
    if n >= 0x1_0000 {
      assert s[1..9] == BE(n, 8);
      FromBEOfBE(n, 8);
    } else if n >= 126 {
      assert s[1..3] == BE(n, 2);
      FromBEOfBE(n, 2);
    }
  }

  lemma Slices(a: Byte, l: seq<Byte>, key: Key, m: seq<Byte>, t: seq<Byte>)
    requires |l| >= 1
    ensures var s := [a] + l + key + m + t;
            var at := 1 + |l| + 4;
            && s[0] == a && s[1] == l[0] && s[1..] == l + (key + m + t)
            && s[1 + |l|..at] == key && s[at..at + |m|] == m && s[at + |m|..] == t
  {
  }

  /** Every frame built is received as a final frame with its opcode and payload, in the shortest
      length form, behind a header of at most 14 bytes, whatever the key and whatever follows. */
  lemma FrameIsReceived(op: nat, data: seq<Byte>, key: Key, t: seq<Byte>)
    requires op < 16 && |data| < 0x8000_0000_0000_0000
    ensures ReceiveFrame(ClientFrame(op, data, key) + t)
         == Frame(true, 0, op, data, |ClientFrame(op, data, key)| - |data|, t)
    ensures |ClientFrame(op, data, key)| <= |data| + 14
  {
    hide MaskedLength, ReceiveLength, Masked;
    var l, m := MaskedLength(|data|), Masked(data, key);
    Slices(128 + op, l, key, m, t);
    ReceivesLength(|data|, key + m + t);
    MaskedTwice(data, key);
  }

  // ---- building it in a buffer ----

  function Shr8(n: nat, k: nat): nat
  {
    if k == 0 then n else Shr8(n / 256, k - 1)
  }

  lemma {:induction false} BEAt(n: nat, k: nat, i: nat)
    requires i < k
    ensures BE(n, k)[i] == Shr8(n, k - 1 - i) % 256
  {
    if i < k - 1 { BEAt(n / 256, k - 1, i); }
  }

  /** writeUint16 (k = 2) and writeUint64 (k = 8) */
  method WriteUint(buffer: array<Byte>, offset: nat, value: nat, k: nat)
    requires offset + k <= buffer.Length
    modifies buffer
    ensures buffer[..offset] == old(buffer[..offset]) && buffer[offset..offset + k] == BE(value, k)
  {
    hide BE, Shr8;
    for i := 0 to k
      invariant buffer[..offset] == old(buffer[..offset])
      invariant forall j :: 0 <= j < i ==> buffer[offset + j] == BE(value, k)[j]
    {
      BEAt(value, k, i);
      buffer[offset + i] := Shr8(value, k - 1 - i) % 256;
    }
  }

  /** The first two bytes and the extended length: everything before the masking key */
  method WriteHeader(buffer: array<Byte>, op: nat, n: nat) returns (offset: nat)
    requires op < 16 && n < 0x8000_0000_0000_0000 && buffer.Length >= n + 32
    modifies buffer
    ensures offset <= 10 && buffer[..offset] == [128 + op] + MaskedLength(n)
  {
    hide BE, EncLength, MaskedLength;
    offset := 2;
    buffer[0] := 128 + op;
    if n < 126 {
      buffer[1] := n;
    } else if n <= 0xFFFF {
      buffer[1] := 126;
      WriteUint(buffer, offset, n, 2);
      offset := offset + 2;
    } else {
      buffer[1] := 127;
      WriteUint(buffer, offset, n, 8);
      offset := offset + 8;
    }
    PlainHeader(buffer[..offset], 128 + op, n);
    ghost var plain := buffer[..offset];
    buffer[1] := buffer[1] + 128; // |= MaskMask on a value below 128
    assert buffer[..offset] == plain[1 := plain[1] + 128];
  }

  lemma PlainHeader(s: seq<Byte>, first: Byte, n: nat)
    requires |s| >= 2 && s[0] == first
    requires s[1] == if n < 126 then n else if n <= 0xFFFF then 126 else 127
    requires s[2..] == if n < 126 then [] else if n <= 0xFFFF then BE(n, 2) else BE(n, 8)
    ensures s == [first] + EncLength(n)
    ensures s[1 := s[1] + 128] == [first] + MaskedLength(n)
  {
    hide BE, MaskedLength;
    HeadAndTail(s);
    Assoc([first], [s[1]], s[2..]);
    assert [s[1]] + s[2..] == EncLength(n);
    MaskBit(s, n);
  }

  lemma HeadAndTail(s: seq<Byte>)
    requires |s| >= 2
    ensures s == [s[0]] + [s[1]] + s[2..]
  {
  }

  lemma MaskBit(s: seq<Byte>, n: nat)
    requires |s| >= 2 && s[1..] == EncLength(n) && s[1] < 128
    ensures s[1 := s[1] + 128] == [s[0]] + MaskedLength(n)
  {
    hide EncLength;
    assert s[1] == EncLength(n)[0];
  }

  /** The frame-building half of dequeueWrite; the key comes from the system's random source. */
  method BuildFrame(op: nat, data: seq<Byte>, key: Key) returns (buffer: array<Byte>, offset: nat)
    requires op < 16 && |data| < 0x8000_0000_0000_0000
    ensures fresh(buffer) && offset <= buffer.Length && buffer[..offset] == ClientFrame(op, data, key)
  {
    hide MaskedLength, Xor;
    buffer := new Byte[|data| + 32](_ => 0);
    offset := WriteHeader(buffer, op, |data|);
    ghost var head := buffer[..offset];
    ghost var start := offset;
    CopyKey(buffer, offset, key);
    offset := offset + 4;
    ghost var keyed := buffer[..offset];
    for i := 0 to |data|
      invariant offset == start + 4 + i && buffer[..start + 4] == keyed
      invariant buffer[start + 4..offset] == Masked(data, key)[..i]
    {
      MaskedStep(data, key, i);
      buffer[offset] := XorByte(data[i], key[i % 4]);
      offset := offset + 1;
      assert buffer[start + 4..offset] == buffer[start + 4..offset - 1] + [buffer[offset - 1]];
    }
    assert buffer[..offset] == buffer[..start + 4] + buffer[start + 4..offset];
  }

  lemma MaskedStep(data: seq<Byte>, key: Key, i: nat)
    requires i < |data|
    ensures Masked(data, key)[..i + 1] == Masked(data, key)[..i] + [XorByte(data[i], key[i % 4])]
  {
    hide Xor;
  }

  method CopyKey(buffer: array<Byte>, offset: nat, key: Key)
    requires offset + 4 <= buffer.Length
    modifies buffer
    ensures buffer[..offset + 4] == old(buffer[..offset]) + key
  {
    for i := 0 to 4
      invariant buffer[..offset] == old(buffer[..offset])
      invariant forall j :: 0 <= j < i ==> buffer[offset + j] == key[j]
    {
      buffer[offset + i] := key[i];
    }
  }

  // ---- getting it onto the socket ----

  function Concat(frames: seq<seq<Byte>>): seq<Byte>
  {
    if frames == [] then [] else Concat(frames[..|frames| - 1]) + frames[|frames| - 1]
  }

  /** What a turn of the writing loop meets: a cancelled operation, a stream that is not ready, or the number
      that stream.write returns (none or less is a failure) */
  datatype Turn = Cancelled | NotReady | Answer(n: int)

  predicate Writes(t: Turn) { t.Answer? && t.n > 0 }

  /** stream.write takes at most what it is offered. */
  function Taken(t: Turn, count: nat): nat
    requires Writes(t)
  {
    if t.n > count then count else t.n
  }

  /** How much of a frame with `left` bytes to go the turns from k on put on the wire: the loop goes on as long
      as bytes are taken, and ends at the first cancellation, failure or unready stream. */
  function Sent(turns: nat -> Turn, k: nat, left: nat): (r: nat)
    ensures r <= left
    decreases left
  {
    if left == 0 || !Writes(turns(k)) then 0
    else Taken(turns(k), left) + Sent(turns, k + 1, left - Taken(turns(k), left))
  }

  /** The loop ends with a failure, which disconnects. */
  predicate Broke(turns: nat -> Turn, k: nat, left: nat)
    decreases left
  {
    left > 0 &&
    if Writes(turns(k)) then Broke(turns, k + 1, left - Taken(turns(k), left)) else !turns(k).Cancelled?
  }

  /** An operation whose turns write until turn n: if the frame is out by then, it has not failed; if not, it has
      failed unless it was cancelled there. */
  lemma {:induction false} FailsExactly(turns: nat -> Turn, k: nat, n: nat, left: nat)
    requires k <= n && (forall j :: k <= j < n ==> Writes(turns(j))) && !Writes(turns(n))
    ensures Broke(turns, k, left) <==> Sent(turns, k, left) < left && turns(n) != Cancelled
    decreases n - k
  {
    if k < n && left > 0 {
      FailsExactly(turns, k + 1, n, left - Taken(turns(k), left));
    }
  }

  class WriteQueue {
    var wire: seq<Byte>
    /** How long the wire was when each completion handler was called */
    var completedAt: seq<nat>
    var failed: bool

    constructor ()
      ensures wire == [] && completedAt == [] && !failed
    {
      wire, completedAt, failed := [], [], false;
    }

    /** The writing half of dequeueWrite: as much of the frame as the turns take, and the completion exactly
        when that is all of it. */
    method WriteOut(frame: array<Byte>, offset: nat, turns: nat -> Turn) returns (total: nat)
      requires 0 < offset <= frame.Length
      modifies this
      ensures total == Sent(turns, 0, offset) && wire == old(wire) + frame[..total]
      ensures completedAt == if total == offset then old(completedAt) + [|wire|] else old(completedAt)
      ensures failed == (old(failed) || Broke(turns, 0, offset))
    {
      var calls := 0;
      total := 0;
      while !turns(calls).Cancelled?
        invariant 0 <= total < offset && total + Sent(turns, calls, offset - total) == Sent(turns, 0, offset)
        invariant Broke(turns, calls, offset - total) == Broke(turns, 0, offset)
        invariant wire == old(wire) + frame[..total] && completedAt == old(completedAt) && failed == old(failed)
        decreases offset - total
      {
        if turns(calls).NotReady? || turns(calls).n <= 0 {
          failed := true;
          return;
        }
        var len := Taken(turns(calls), offset - total);
        calls := calls + 1;
        assert frame[..total + len] == frame[..total] + frame[total..total + len];
        Assoc(old(wire), frame[..total], frame[total..total + len]);
        wire := wire + frame[total..total + len];
        total := total + len;
        if total >= offset {
          completedAt := completedAt + [|wire|];
          return;
        }
      }
    }

    /** One operation: its frame is built and written. */
    method Write(op: nat, data: seq<Byte>, key: Key, turns: nat -> Turn) returns (total: nat)
      requires op < 16 && |data| < 0x8000_0000_0000_0000
      modifies this
      ensures var frame := ClientFrame(op, data, key);
              && total == Sent(turns, 0, |frame|) && wire == old(wire) + frame[..total]
              && completedAt == (if total == |frame| then old(completedAt) + [|wire|] else old(completedAt))
              && failed == (old(failed) || Broke(turns, 0, |frame|))
    {
      hide ClientFrame, Sent, Broke;
      var frame, offset := BuildFrame(op, data, key);
      FrameNotEmpty(op, data, key);
      total := WriteOut(frame, offset, turns);
      assert frame[..total] == frame[..offset][..total];
    }

    /** The operation queue, one operation at a time, each whatever became of the others: the wire carries what
        the turns of each took of its frame, contiguously and in order, and the completions are those of the
        whole frames, each called when the wire had just got to its end. */
    method Drain(ops: seq<(nat, seq<Byte>)>, keys: seq<Key>, turns: seq<nat -> Turn>) returns (sent: seq<nat>)
      requires |keys| == |turns| == |ops|
      requires forall i :: 0 <= i < |ops| ==> ops[i].0 < 16 && |ops[i].1| < 0x8000_0000_0000_0000
      requires wire == [] && completedAt == []
      modifies this
      ensures sent == SentAll(Frames(ops, keys), turns)
      ensures wire == Concat(Parts(Frames(ops, keys), sent)) && completedAt == DoneAt(Frames(ops, keys), sent)
      ensures failed == (old(failed) || SomeBroke(Frames(ops, keys), turns, |ops|))
    {
      hide ClientFrame, Concat, Parts, DoneAt, Sent, Broke, SomeBroke, SentAll, Within;
      ghost var frames := Frames(ops, keys);
      sent := [];
      Empty(frames);
      NoneYet(frames, turns);
      for i := 0 to |ops|
        invariant sent == SentAll(frames, turns)[..i] && Within(frames[..i], sent)
        invariant wire == Concat(Parts(frames[..i], sent)) && completedAt == DoneAt(frames[..i], sent)
        invariant failed == (old(failed) || SomeBroke(frames, turns, i))
      {
        var total := Write(ops[i].0, ops[i].1, keys[i], turns[i]);
        PartsSnoc(frames, i, sent, total);
        OneMoreSent(frames, turns, i);
        sent := sent + [total];
      }
      assert frames[..|ops|] == frames && SentAll(frames, turns)[..|ops|] == SentAll(frames, turns);
    }
  }

  /** One of the first n operations fails. */
  predicate SomeBroke(frames: seq<seq<Byte>>, turns: seq<nat -> Turn>, n: nat)
    requires n <= |turns| == |frames|
  {
    exists i :: 0 <= i < n && Broke(turns[i], 0, |frames[i]|)
  }

  lemma NoneYet(frames: seq<seq<Byte>>, turns: seq<nat -> Turn>)
    requires |turns| == |frames|
    ensures !SomeBroke(frames, turns, 0)
  {
    hide Broke;
  }

  lemma OneMoreSent(frames: seq<seq<Byte>>, turns: seq<nat -> Turn>, i: nat)
    requires i < |turns| == |frames|
    ensures var r := SentAll(frames, turns);
            |r| == |frames| && r[..i + 1] == r[..i] + [Sent(turns[i], 0, |frames[i]|)]
    ensures SomeBroke(frames, turns, i + 1) <==> SomeBroke(frames, turns, i) || Broke(turns[i], 0, |frames[i]|)
    ensures SentAll(frames, turns)[i] <= |frames[i]| && SentAll(frames, turns)[i] == Sent(turns[i], 0, |frames[i]|)
  {
    hide Sent, Broke;
  }

  function SentAll(frames: seq<seq<Byte>>, turns: seq<nat -> Turn>): (r: seq<nat>)
    requires |turns| == |frames|
    ensures |r| == |frames| && Within(frames, r)
  {
    seq(|frames|, i requires 0 <= i < |frames| => Sent(turns[i], 0, |frames[i]|))
  }

  predicate Within(frames: seq<seq<Byte>>, sent: seq<nat>)
  {
    |sent| == |frames| && forall i :: 0 <= i < |sent| ==> sent[i] <= |frames[i]|
  }

  /** The first sent[i] bytes of frame i */
  function Parts(frames: seq<seq<Byte>>, sent: seq<nat>): (r: seq<seq<Byte>>)
    requires Within(frames, sent)
    ensures |r| == |frames|
  {
    seq(|frames|, i requires 0 <= i < |frames| => frames[i][..sent[i]])
  }

  /** How long the wire is whenever a whole frame has just gone out */
  function DoneAt(frames: seq<seq<Byte>>, sent: seq<nat>): seq<nat>
    requires Within(frames, sent)
    decreases |frames|
  {
    if frames == [] then []
    else
      var n := |frames| - 1;
      DoneAt(frames[..n], sent[..n]) + if sent[n] == |frames[n]| then [|Concat(Parts(frames, sent))|] else []
  }

  lemma Empty(frames: seq<seq<Byte>>)
    ensures Within(frames[..0], []) && Concat(Parts(frames[..0], [])) == [] && DoneAt(frames[..0], []) == []
  {
  }

  lemma PartsSnoc(frames: seq<seq<Byte>>, i: nat, sent: seq<nat>, t: nat)
    requires i < |frames| && Within(frames[..i], sent) && t <= |frames[i]|
    ensures Within(frames[..i + 1], sent + [t])
    ensures Concat(Parts(frames[..i + 1], sent + [t])) == Concat(Parts(frames[..i], sent)) + frames[i][..t]
    ensures DoneAt(frames[..i + 1], sent + [t])
         == DoneAt(frames[..i], sent)
          + if t == |frames[i]| then [|Concat(Parts(frames[..i], sent))| + t] else []
  {
    hide Concat;
    var f, s := frames[..i + 1], sent + [t];
    assert f[..i] == frames[..i] && s[..i] == sent;
    assert Parts(f, s)[..i] == Parts(frames[..i], sent);
    ConcatSnoc(Parts(f, s), i);
    assert Parts(f, s)[..i + 1] == Parts(f, s);
  }

  /** Where every turn of every operation writes, all frames are on the wire. */
  lemma AllSent(frames: seq<seq<Byte>>, turns: seq<nat -> Turn>)
    requires |turns| == |frames| && forall i, k :: 0 <= i < |turns| ==> Writes(turns[i](k))
    ensures Parts(frames, SentAll(frames, turns)) == frames
  {
    hide Sent;
    forall i | 0 <= i < |frames|
      ensures frames[i][..Sent(turns[i], 0, |frames[i]|)] == frames[i]
    {
      SendsAll(turns[i], 0, |frames[i]|);
    }
  }

  lemma {:induction false} SendsAll(turns: nat -> Turn, k: nat, left: nat)
    requires forall j :: Writes(turns(j))
    ensures Sent(turns, k, left) == left
    decreases left
  {
    if left > 0 { SendsAll(turns, k + 1, left - Taken(turns(k), left)); }
  }

  lemma FrameNotEmpty(op: nat, data: seq<Byte>, key: Key)
    requires op < 16
    ensures |ClientFrame(op, data, key)| > 0
  {
  }

  function Frames(ops: seq<(nat, seq<Byte>)>, keys: seq<Key>): (f: seq<seq<Byte>>)
    requires |keys| == |ops| && forall i :: 0 <= i < |ops| ==> ops[i].0 < 16
    ensures |f| == |ops|
  {
    seq(|ops|, i requires 0 <= i < |ops| => ClientFrame(ops[i].0, ops[i].1, keys[i]))
  }

  lemma ConcatEmpty()
    ensures Concat([]) == []
  {
  }

  lemma ConcatSnoc(frames: seq<seq<Byte>>, i: nat)
    requires i < |frames|
    ensures Concat(frames[..i + 1]) == Concat(frames[..i]) + frames[i]
  {
    assert frames[..i + 1][..i] == frames[..i];
  }

  // ---- the whole queue, received ----

  /** The frames a server reads off the stream, one after the other */
  function ReceiveMany(s: seq<Byte>): Option<seq<(nat, seq<Byte>)>>
    decreases |s|
  {
    if s == [] then Some([])
    else
      match ReceiveFrame(s)
      case Malformed => None
      case Frame(fin, rsv, op, payload, header, rest) =>
        if !fin || rsv != 0 then None
        else match ReceiveMany(rest) case None => None case Some(more) => Some([(op, payload)] + more)
  }

  lemma {:induction false} ConcatFront(frames: seq<seq<Byte>>)
    requires frames != []
    ensures Concat(frames) == frames[0] + Concat(frames[1..])
  {
    if |frames| == 1 {
      assert frames[..0] == [] && frames[1..] == [];
    } else {
      var n := |frames| - 1;
      ConcatFront(frames[..n]);
      assert frames[..n][1..] == frames[1..][..n - 1];
      Assoc(frames[0], Concat(frames[1..][..n - 1]), frames[n]);
    }
  }

  lemma FramesTail(ops: seq<(nat, seq<Byte>)>, keys: seq<Key>)
    requires |keys| == |ops| > 0 && forall i :: 0 <= i < |ops| ==> ops[i].0 < 16
    ensures Frames(ops, keys)[1..] == Frames(ops[1..], keys[1..])
    ensures Frames(ops, keys)[0] == ClientFrame(ops[0].0, ops[0].1, keys[0])
  {
    hide ClientFrame;
  }

  /** What the queue puts on the wire is received as exactly the queued opcodes and payloads, in order. */
  lemma {:induction false} QueueIsReceived(ops: seq<(nat, seq<Byte>)>, keys: seq<Key>)
    requires |keys| == |ops| && forall i :: 0 <= i < |ops| ==> ops[i].0 < 16 && |ops[i].1| < 0x8000_0000_0000_0000
    ensures ReceiveMany(Concat(Frames(ops, keys))) == Some(ops)
    decreases |ops|
  {
    hide ClientFrame, Concat, ReceiveFrame;
    if ops == [] {
      ConcatEmpty();
      assert Frames(ops, keys) == [];
    } else {
      var f := Frames(ops, keys);
      ConcatFront(f);
      FramesTail(ops, keys);
      FrameIsReceived(ops[0].0, ops[0].1, keys[0], Concat(f[1..]));
      QueueIsReceived(ops[1..], keys[1..]);
      assert [ops[0]] + ops[1..] == ops;
    }
  }

  /** The operations whose frames went out whole */
  function Completed(ops: seq<(nat, seq<Byte>)>, frames: seq<seq<Byte>>, sent: seq<nat>): seq<(nat, seq<Byte>)>
    requires |ops| == |frames| == |sent|
  {
    if ops == [] then []
    else (if sent[0] == |frames[0]| then [ops[0]] else []) + Completed(ops[1..], frames[1..], sent[1..])
  }

  lemma PartsFront(frames: seq<seq<Byte>>, sent: seq<nat>)
    requires Within(frames, sent) && frames != []
    ensures Within(frames[1..], sent[1..])
    ensures Concat(Parts(frames, sent)) == frames[0][..sent[0]] + Concat(Parts(frames[1..], sent[1..]))
  {
    hide Concat;
    ConcatFront(Parts(frames, sent));
    assert Parts(frames, sent)[1..] == Parts(frames[1..], sent[1..]);
  }

  /** Without an operation that stops inside its frame, a server reads exactly the completed ones, in order. */
  lemma {:induction false} WholeFramesAreReceived(ops: seq<(nat, seq<Byte>)>, keys: seq<Key>, sent: seq<nat>)
    requires |keys| == |ops| && forall i :: 0 <= i < |ops| ==> ops[i].0 < 16 && |ops[i].1| < 0x8000_0000_0000_0000
    requires Within(Frames(ops, keys), sent)
    requires forall i :: 0 <= i < |sent| ==> sent[i] == 0 || sent[i] == |Frames(ops, keys)[i]|
    ensures ReceiveMany(Concat(Parts(Frames(ops, keys), sent))) == Some(Completed(ops, Frames(ops, keys), sent))
    decreases |ops|
  {
    hide ClientFrame, Concat, ReceiveFrame, Parts;
    var f := Frames(ops, keys);
    if ops == [] {
      assert Parts(f, sent) == [];
      ConcatEmpty();
    } else {
      FramesTail(ops, keys);
      PartsFront(f, sent);
      var later := Concat(Parts(f[1..], sent[1..]));
      WholeFramesAreReceived(ops[1..], keys[1..], sent[1..]);
      FrameNotEmpty(ops[0].0, ops[0].1, keys[0]);
      if sent[0] == 0 {
        var more := Completed(ops[1..], f[1..], sent[1..]);
        assert f[0][..0] + later == later && [] + more == more;
        assert Completed(ops, f, sent) == more;
      } else {
        assert f[0][..sent[0]] == f[0];
        FrameIsReceived(ops[0].0, ops[0].1, keys[0], later);
      }
    }
  }

  // ---- and only then ----

  function FrameSize(n: nat): (size: nat)
    ensures size > 0
  {
    5 + |EncLength(n)| + n
  }

  function TotalSize(ops: seq<(nat, seq<Byte>)>): nat
  {
    if ops == [] then 0 else FrameSize(|ops[0].1|) + TotalSize(ops[1..])
  }

  lemma {:induction false} FromBEBound(b: seq<Byte>)
    ensures FromBE(b) < Pow(256, |b|)
  {
    if b != [] { FromBEBound(b[..|b| - 1]); }
  }

  /** A server accepts only the shortest length form. */
  lemma ShortestLength(s: seq<Byte>)
    ensures var l := ReceiveLength(s); l.Some? ==> l.value.1 == |EncLength(l.value.0)|
  {
    hide BE, FromBE, Pow;
    WideEnough();
    if |s| >= 3 { FromBEBound(s[1..3]); }
  }

  lemma ReceivedSize(s: seq<Byte>)
    ensures var f := ReceiveFrame(s); f.Frame? ==> |s| == FrameSize(|f.payload|) + |f.rest|
  {
    hide ReceiveLength, EncLength, Masked;
    if |s| >= 2 { ShortestLength(s[1..]); }
  }

  lemma ClientFrameSize(op: nat, data: seq<Byte>, key: Key)
    requires op < 16
    ensures |ClientFrame(op, data, key)| == FrameSize(|data|)
  {
    hide EncLength;
  }

  /** What has been received accounts for every byte. */
  lemma {:induction false} ReceivedManySize(s: seq<Byte>)
    ensures ReceiveMany(s).Some? ==> |s| == TotalSize(ReceiveMany(s).value)
    decreases |s|
  {
    hide ReceiveFrame, FrameSize;
    if s != [] {
      ReceivedSize(s);
      var f := ReceiveFrame(s);
      if f.Frame? {
        ReceivedManySize(f.rest);
        if ReceiveMany(f.rest).Some? {
          var more := ReceiveMany(f.rest).value;
          assert ([(f.op, f.payload)] + more)[1..] == more;
        }
      }
    }
  }

  /** Bytes on the wire of frames that did not go out whole */
  function Stray(frames: seq<seq<Byte>>, sent: seq<nat>): nat
    requires |frames| == |sent|
  {
    if frames == [] then 0 else (if sent[0] == |frames[0]| then 0 else sent[0]) + Stray(frames[1..], sent[1..])
  }

  lemma {:induction false} StrayBytes(frames: seq<seq<Byte>>, sent: seq<nat>, i: nat)
    requires |frames| == |sent| && i < |sent| && sent[i] != |frames[i]|
    ensures Stray(frames, sent) >= sent[i]
  {
    if i > 0 { StrayBytes(frames[1..], sent[1..], i - 1); }
  }

  /** The wire is as long as the completed frames and the stray bytes. */
  lemma {:induction false} WireSize(ops: seq<(nat, seq<Byte>)>, keys: seq<Key>, sent: seq<nat>)
    requires |keys| == |ops| && forall i :: 0 <= i < |ops| ==> ops[i].0 < 16
    requires Within(Frames(ops, keys), sent)
    ensures var f := Frames(ops, keys);
            |Concat(Parts(f, sent))| == TotalSize(Completed(ops, f, sent)) + Stray(f, sent)
    decreases |ops|
  {
    hide ClientFrame, Concat, Parts, FrameSize;
    var f := Frames(ops, keys);
    if ops == [] {
      assert Parts(f, sent) == [];
      ConcatEmpty();
    } else {
      FramesTail(ops, keys);
      PartsFront(f, sent);
      WireSize(ops[1..], keys[1..], sent[1..]);
      ClientFrameSize(ops[0].0, ops[0].1, keys[0]);
      var more := Completed(ops[1..], f[1..], sent[1..]);
      assert [] + more == more && ([ops[0]] + more)[1..] == more;
    }
  }

  /** A server reads exactly the completed operations, in order, if and only if none stopped inside its frame. */
  lemma CompletedIsReceived(ops: seq<(nat, seq<Byte>)>, keys: seq<Key>, sent: seq<nat>)
    requires |keys| == |ops| && forall i :: 0 <= i < |ops| ==> ops[i].0 < 16 && |ops[i].1| < 0x8000_0000_0000_0000
    requires Within(Frames(ops, keys), sent)
    ensures ReceiveMany(Concat(Parts(Frames(ops, keys), sent))) == Some(Completed(ops, Frames(ops, keys), sent))
       <==> forall i :: 0 <= i < |sent| ==> sent[i] == 0 || sent[i] == |Frames(ops, keys)[i]|
  {
    hide ClientFrame, Concat, Parts, ReceiveMany, Completed, TotalSize, Stray;
    var f := Frames(ops, keys);
    if forall i :: 0 <= i < |sent| ==> sent[i] == 0 || sent[i] == |f[i]| {
      WholeFramesAreReceived(ops, keys, sent);
    } else {
      var i: nat :| i < |sent| && sent[i] != 0 && sent[i] != |f[i]|;
      StrayBytes(f, sent, i);
      WireSize(ops, keys, sent);
      ReceivedManySize(Concat(Parts(f, sent)));
    }
  }

  /** One byte of the first frame goes out before the stream fails; the second frame follows it, and the
      server does not read that frame. */
  lemma CutFrameIsMisread(keys: seq<Key>, turns: seq<nat -> Turn>)
    requires |keys| == |turns| == 2 && turns[0](0) == Answer(1) && turns[0](1) == NotReady && turns[1](0) == Answer(7)
    ensures var ops: seq<(nat, seq<Byte>)> := [(1, [65]), (1, [66])];
            var f := Frames(ops, keys);
            var sent := SentAll(f, turns);
            && Completed(ops, f, sent) == [(1, [66])]
            && ReceiveMany(Concat(Parts(f, sent))) != Some([(1, [66])])
  {
    hide ReceiveMany, Concat, Parts, MaskedLength, Masked;
    var ops: seq<(nat, seq<Byte>)> := [(1, [65]), (1, [66])];
    var f := Frames(ops, keys);
    ClientFrameSize(1, [65], keys[0]);
    ClientFrameSize(1, [66], keys[1]);
    assert |f[0]| == |f[1]| == 7;
    assert Sent(turns[0], 1, 6) == 0;
    assert SentAll(f, turns) == [1, 7];
    CompletedSecond(ops, f);
    CompletedIsReceived(ops, keys, [1, 7]);
  }

  lemma CompletedSecond(ops: seq<(nat, seq<Byte>)>, f: seq<seq<Byte>>)
    requires |ops| == |f| == 2 && |f[0]| == |f[1]| == 7
    ensures Completed(ops, f, [1, 7]) == [ops[1]]
  {
    var ops', f', sent': seq<nat> := ops[1..], f[1..], [1, 7][1..];
    assert Completed(ops', f', sent') == [ops'[0]] + Completed(ops'[1..], f'[1..], sent'[1..]) == [ops[1]];
    assert [] + [ops[1]] == [ops[1]];
  }
}
