/** The encoder's methods followed by the decoder's: what comes out is what went in. */
module EndToEnd {
  import opened Common
  import opened Schema
  import opened Encoding
  import opened Decoding
  import opened Encoder
  import opened Decoder
  import opened IStreams
  import R = RoundTrip

  lemma {:induction false} ValueCanBeSent(f: Field, v: Value)
    requires WellFormedField(f) && ReadyValue(f, v)
    ensures CValue(f, v) && EncodableValue(f, v)
    decreases f, 0
  {
    hide Encode, WellFormed, Ready, Encodable, CMessage;
    if f.kind.Sub? {
      TableOfSub(f);
      ReadyCanBeSent(f.kind.fields, v.m);
    }
  }

  lemma TableOfSub(f: Field)
    requires WellFormedField(f) && f.kind.Sub?
    ensures WellFormed(f.kind.fields)
  {
  }

  lemma {:induction false} ItemsCanBeSent(f: Field, items: seq<Value>)
    requires WellFormedField(f) && ReadyItems(f, items)
    ensures CItems(f, items) && EncodableItems(f, items)
    decreases f, 1, |items|
  {
    hide WellFormedField, ReadyValue, CValue, EncodableValue;
    if items != [] {
      ValueCanBeSent(f, items[0]);
      ItemsCanBeSent(f, items[1..]);
    }
  }

  lemma {:induction false} FieldCanBeSent(f: Field, m: Message, i: nat)
    requires WellFormedField(f) && ReadyField(f, m, i)
    ensures CField(f, m, i) && EncodableField(f, m, i)
    decreases f, 2
  {
    hide ReadyValue, CValue, EncodableValue, ReadyItems, CItems, EncodableItems, IsDefault, EncPacked;
    if Carried(f, m, i) {
      if f.rule.Repeated? {
        var items := ItemsOf(SlotAt(m, i));
        ItemsCanBeSent(f, items);
      } else {
        ValueCanBeSent(f, CurOf(SlotAt(m, i)));
      }
    }
  }

  /** A valid message is one the C encoder accepts. */
  lemma {:induction false} ReadyCanBeSent(fields: seq<Field>, m: Message)
    requires WellFormed(fields) && Ready(fields, m)
    ensures CMessage(fields, m) && Encodable(fields, m)
    decreases fields
  {
    hide ReadyField, CField, EncodableField, WellFormedField;
    forall i: nat | i < |fields|
      ensures CField(fields[i], m, i) && EncodableField(fields[i], m, i)
    {
      FieldCanBeSent(fields[i], m, i);
    }
  }

  /** pb_encode to a buffer and pb_decode from it: the only thing that can go wrong with a valid message
      is that the buffer is too small. */
  method EncodeAndDecode(buf: array<Byte>, fields: seq<Field>, m: Message) returns (ok: bool, received: Message)
    requires WellFormed(fields) && Ready(fields, m)
    modifies buf
    ensures ok == (|Encode(fields, m)| <= buf.Length)
    ensures ok ==> SameMessage(fields, received, m)
  {
    hide WellFormed, Ready, Encode, Encodable, CMessage, SameMessage, Decode;
    ReadyCanBeSent(fields, m);
    R.RoundTrip(fields, m);
    received := m;
    var n: nat;
    ok, n := EncodeToBuffer(buf, fields, m);
    if ok {
      var stream := new IStream(buf[..], 0, n);
      assert buf[..][0..n] == Encode(fields, m);
      ok, received := DecodeOf(stream, fields);
    }
  }
}
