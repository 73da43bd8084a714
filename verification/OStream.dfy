/** pb_ostream_t: bytes written to a buffer, or only counted. */
module OStreams {
  import opened Common
  import opened Varint
  import opened Encoding

  /** The state of an output stream: the buffer it writes to (none when it only counts),
      the write position in it, and the two counters of pb_ostream_t. */
  datatype Sink = Sink(counting: bool, mem: seq<Byte>, at: nat, maxSize: nat, written: nat)

  /** The memory behind the stream is large enough for what it may still accept. */
  predicate Sound(k: Sink)
  {
    if k.counting then k.mem == [] && k.at == 0
    else k.written <= k.maxSize && k.at + (k.maxSize - k.written) <= |k.mem|
  }

  predicate Accepts(k: Sink, n: nat)
  {
    k.counting || k.written + n <= k.maxSize
  }

  /** The stream after bytes b went out. */
  function After(k: Sink, b: seq<Byte>): Sink
    requires Sound(k) && Accepts(k, |b|)
  {
    if k.counting then k.(written := k.written + |b|)
    else k.(mem := Overwritten(k.mem, k.at, b), at := k.at + |b|, written := k.written + |b|)
  }

  /** A failed write touched nothing before the start position and nothing past the limit. */
  predicate Confined(k: Sink, k': Sink)
    requires Sound(k)
  {
    && k'.counting == k.counting && k'.maxSize == k.maxSize && |k'.mem| == |k.mem|
    && (!k.counting ==>
          var end := k.at + (k.maxSize - k.written);
          k'.mem[..k.at] == k.mem[..k.at] && k'.mem[end..] == k.mem[end..])
  }

  lemma AfterIsSound(k: Sink, b: seq<Byte>)
    requires Sound(k) && Accepts(k, |b|)
    ensures Sound(After(k, b)) && Confined(k, After(k, b))
    ensures After(k, b).counting == k.counting && After(k, b).maxSize == k.maxSize
    ensures After(k, b).written == k.written + |b|
  {
  }

  lemma AfterNothing(k: Sink)
    requires Sound(k) && Accepts(k, 0)
    ensures After(k, []) == k
  {
  }

  lemma AfterBoth(k: Sink, a: seq<Byte>, b: seq<Byte>)
    requires Sound(k) && Accepts(k, |a| + |b|)
    ensures Sound(After(k, a)) && Accepts(After(k, a), |b|)
    ensures After(After(k, a), b) == After(k, a + b)
  {
    AfterIsSound(k, a);
    if !k.counting {
      OverwriteTwice(k.mem, k.at, a, b);
    }
  }

  function Overwritten(m: seq<Byte>, at: nat, b: seq<Byte>): seq<Byte>
    requires at + |b| <= |m|
  {
    m[..at] + b + m[at + |b|..]
  }

  lemma OverwriteTwice(m: seq<Byte>, at: nat, a: seq<Byte>, b: seq<Byte>)
    requires at + |a| + |b| <= |m|
    ensures |Overwritten(m, at, a)| == |m|
    ensures Overwritten(Overwritten(m, at, a), at + |a|, b) == Overwritten(m, at, a + b)
  {
    var w := Overwritten(m, at, a);
    Front(m[..at], a, m[at + |a|..]);
    Back(m[..at] + a, m[at + |a|..], |b|);
    assert m[at + |a|..][|b|..] == m[at + |a| + |b|..];
    assert w[..at + |a|] + b == m[..at] + (a + b);
  }

  lemma Front(x: seq<Byte>, y: seq<Byte>, z: seq<Byte>)
    ensures (x + y + z)[..|x| + |y|] == x + y
  {
  }

  lemma Back(x: seq<Byte>, z: seq<Byte>, n: nat)
    requires n <= |z|
    ensures (x + z)[|x| + n..] == z[n..]
  {
  }

  lemma ConfinedAfter(k: Sink, a: seq<Byte>, k': Sink)
    requires Sound(k) && Accepts(k, |a|)
    requires Sound(After(k, a)) && Confined(After(k, a), k')
    ensures Confined(k, k')
  {
    if !k.counting {
      var mid, end := After(k, a), k.at + (k.maxSize - k.written);
      assert mid.mem[..k.at] == k.mem[..k.at];
      assert mid.mem[end..] == k.mem[end..];
      assert k'.mem[..k.at] == k'.mem[..mid.at][..k.at] == mid.mem[..mid.at][..k.at] == mid.mem[..k.at];
    }
  }

  lemma ThreeParts(s: seq<Byte>, i: nat, b: seq<Byte>, was: seq<Byte>)
    requires |s| == |was| && i + |b| <= |s|
    requires s[..i] == was[..i] && s[i..i + |b|] == b && s[i + |b|..] == was[i + |b|..]
    ensures s == was[..i] + b + was[i + |b|..]
  {
  }

  class OStream {
    const buf: array?<Byte>
    var state: nat
    var maxSize: nat
    var bytesWritten: nat

    ghost function Memory(): set<object>
    {
      if buf == null then {} else {buf}
    }

    ghost function State(): Sink
      reads this, Memory()
    {
      Sink(buf == null, if buf == null then [] else buf[..], state, maxSize, bytesWritten)
    }

    ghost predicate Valid()
      reads this, Memory()
    {
      Sound(State())
    }

    /** pb_ostream_from_buffer */
    constructor FromBuffer(b: array<Byte>)
      ensures Valid() && buf == b && fresh(this)
      ensures State() == Sink(false, b[..], 0, b.Length, 0)
    {
      buf, state, maxSize, bytesWritten := b, 0, b.Length, 0;
    }

    /** PB_OSTREAM_SIZING */
    constructor Sizing()
      ensures Valid() && buf == null && fresh(this)
      ensures State() == Sink(true, [], 0, 0, 0)
    {
      buf, state, maxSize, bytesWritten := null, 0, 0, 0;
    }

    /** The substream a submessage is written through: the parent's memory, limited to size bytes. */
    constructor Substream(b: array<Byte>, at: nat, size: nat)
      requires at + size <= b.Length
      ensures Valid() && buf == b && fresh(this)
      ensures State() == Sink(false, b[..], at, size, 0)
    {
      buf, state, maxSize, bytesWritten := b, at, size, 0;
    }

    /** buf_write */
    method BufWrite(b: seq<Byte>)
      requires buf != null && state + |b| <= buf.Length
      modifies this`state, buf
      ensures state == old(state) + |b|
      ensures buf[..] == old(buf[..state]) + b + old(buf[state + |b|..])
    {
      var dest := state;
      state := dest + |b|;
      for i := 0 to |b|
        invariant state == dest + |b| && buf[..dest] == old(buf[..dest])
        invariant forall k :: 0 <= k < i ==> buf[dest + k] == b[k]
        invariant buf[dest + i..] == old(buf[dest + i..])
      {
        ghost var tail := buf[dest + i..];
        buf[dest + i] := b[i];
        assert buf[dest + i + 1..] == tail[1..];
      }
      assert buf[dest..dest + |b|] == b;
      ThreeParts(buf[..], dest, b, old(buf[..]));
    }

    /** pb_write */
    method Write(b: seq<Byte>) returns (ok: bool)
      requires Valid()
      modifies this, Memory()
      ensures ok == Accepts(old(State()), |b|)
      ensures ok ==> State() == After(old(State()), b)
      ensures !ok ==> State() == old(State())
    {
      if buf != null {
        if bytesWritten + |b| > maxSize {
          return false;
        }
        BufWrite(b);
      }
      bytesWritten := bytesWritten + |b|;
      return true;
    }

    /** pb_write with no data on a stream that only counts */
    method Count(ghost b: seq<Byte>, n: nat) returns (ok: bool)
      requires Valid() && buf == null && n == |b|
      modifies this
      ensures ok && State() == After(old(State()), b)
    {
      bytesWritten := bytesWritten + n;
      return true;
    }

    /** pb_encode_varint */
    method EncodeVarint(value: nat) returns (ok: bool)
      requires Valid() && value < U64
      modifies this, Memory()
      ensures ok == Accepts(old(State()), |Varint.EncodeVarint(value)|)
      ensures ok ==> State() == After(old(State()), Varint.EncodeVarint(value))
      ensures !ok ==> State() == old(State())
    {
      if value <= 0x7F {
        ok := Write([value]);
        return;
      }
      var buffer := VarintBuffer(value);
      ok := Write(buffer);
    }
  }

  /** The byte loop of pb_encode_varint over its ten-byte local buffer. */
  method VarintBuffer(value: nat) returns (b: seq<Byte>)
    requires 0 < value < U64
    ensures b == Varint.EncodeVarint(value)
  {
    var buffer := new Byte[10];
    var i, v: nat := 0, value;
    ghost var whole := Chopped(value);
    VarintFits(value);
    hide Chopped, ClearLastTop, Varint.EncodeVarint;
    while v != 0
      invariant i <= |whole| <= 10 && |whole| == i + |Chopped(v)|
      invariant buffer[..i] == whole[..i] && whole[i..] == Chopped(v)
      decreases v
    {
      ChoppedStep(v, whole, i);
      buffer[i] := v % 128 + 128;
      v := v / 128;
      i := i + 1;
    }
    ChoppedZero();
    assert buffer[..i] == whole;
    ChoppedIsVarint(value);
    ClearLast(buffer[..i]);
    buffer[i - 1] := buffer[i - 1] - 128;
    b := buffer[..i];
    assert b == whole[|whole| - 1 := whole[|whole| - 1] - 128];
  }

  lemma ChoppedStep(v: nat, whole: seq<Byte>, i: nat)
    requires v > 0 && i <= |whole| && whole[i..] == Chopped(v)
    ensures i < |whole| && whole[i] == v % 128 + 128 && whole[i + 1..] == Chopped(v / 128)
  {
    assert whole[i] == whole[i..][0];
    assert whole[i + 1..] == whole[i..][1..];
  }

  lemma ChoppedZero()
    ensures Chopped(0) == []
  {
  }

  lemma ClearLast(s: seq<Byte>)
    requires |s| > 0 && s[|s| - 1] >= 128
    ensures ClearLastTop(s) == s[|s| - 1 := s[|s| - 1] - 128]
  {
  }

  lemma VarintFits(value: nat)
    requires 0 < value < U64
    ensures 1 <= |Chopped(value)| <= 10
  {
    Shl7Values();
    VarintLength(value, 10);
  }
}
