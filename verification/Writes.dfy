/** Where the decoder writes, whether it succeeds or gives up halfway. */
module Writes {
  import opened Common
  import opened Varint
  import opened Schema
  import opened Decoding

  /** A write to the first `extent` bytes, or some of them, of element `item` of a field; `path` leads to the
      field through the submessages. */
  datatype Write = Write(path: seq<nat>, f: Field, item: nat, extent: nat)

  /** Inside the element, and the element inside the array */
  predicate InPlace(w: Write)
  {
    w.extent <= w.f.dataSize && if w.f.rule.Repeated? then w.item < w.f.arraySize else w.item == 0
  }

  predicate AllInPlace(ws: seq<Write>)
  {
    forall k :: 0 <= k < |ws| ==> InPlace(ws[k])
  }

  /** data_size is the size of the C member. */
  predicate TrueSizes(fields: seq<Field>)
    decreases fields
  {
    forall i :: 0 <= i < |fields| ==> TrueSize(fields[i])
  }

  predicate TrueSize(f: Field)
    decreases f
  {
    && (f.kind.Fixed32? ==> f.dataSize == 4) && (f.kind.Fixed64? ==> f.dataSize == 8)
    && (f.kind.Sub? ==> TrueSizes(f.kind.fields))
  }

  /** What pb_dec_varint and the other scalar decoders store before they may find the value too large */
  function IntWrites(p: seq<nat>, f: Field, item: nat, s: seq<Byte>): seq<Write>
  {
    match f.kind
    case Fixed32 => if |s| < 4 then [] else [Write(p, f, item, 4)]
    case Fixed64 => if |s| < 8 then [] else [Write(p, f, item, 8)]
    case _ => if DecodeVarint(s).Good? then [Write(p, f, item, f.dataSize)] else []
  }

  /** pb_dec_bytes, pb_dec_string and pb_dec_fixed_length_bytes: the size field and the terminator are stored
      even when the contents are not all there. */
  function BytesWrites(p: seq<nat>, f: Field, item: nat, s: seq<Byte>): seq<Write>
  {
    match DecodeVarint32(s)
    case Bad => []
    case Good(n, rest) =>
      match f.kind
      case Bytes =>
        if n > PB_SIZE_MAX || AllocSize(n) > f.dataSize then []
        else [Write(p, f, item, SIZE_WIDTH)] + if |rest| < n then [] else [Write(p, f, item, AllocSize(n))]
      case Str => if n + 1 > f.dataSize then [] else [Write(p, f, item, n + 1)]
      case _ =>
        if n == 0 then [Write(p, f, item, f.dataSize)]
        else if n > PB_SIZE_MAX || n != f.dataSize || |rest| < n then []
        else [Write(p, f, item, n)]
  }

  function ValueWrites(p: seq<nat>, f: Field, item: nat, s: seq<Byte>, cur: Value): seq<Write>
    decreases f, 1
  {
    if Packable(f.kind) then IntWrites(p, f, item, s)
    else if !f.kind.Sub? then BytesWrites(p, f, item, s)
    else
      match Delimited(s)
      case Bad => []
      case Good(body, _) =>
        LoopWrites(p + [item], f.kind.fields, body, if f.rule.Repeated? then Default(f.kind.fields) else MsgOf(cur))
  }

  function PackedWrites(p: seq<nat>, f: Field, body: seq<Byte>, count: nat): seq<Write>
    decreases |body|
  {
    if body == [] || count >= f.arraySize then []
    else
      IntWrites(p, f, count, body)
      + match DecInt(f.kind, f.dataSize, body)
        case Bad => []
        case Good(_, rest) => if |rest| < |body| then PackedWrites(p, f, rest, count + 1) else []
  }

  /** decode_static_field; a oneof submessage is cleared first. */
  function FieldWrites(p: seq<nat>, f: Field, i: nat, wt: nat, s: seq<Byte>, m: Message): seq<Write>
    decreases f, 2
  {
    var slot := SlotAt(m, i);
    if f.rule.Repeated? && wt == 2 && Packable(f.kind) then
      match Delimited(s)
      case Bad => []
      case Good(body, _) => PackedWrites(p, f, body, |ItemsOf(slot)|)
    else if f.rule.Repeated? then
      if |ItemsOf(slot)| >= f.arraySize then [] else ValueWrites(p, f, |ItemsOf(slot)|, s, CurOf(slot))
    else if f.rule.OneOf? && f.kind.Sub? then
      [Write(p, f, 0, f.dataSize)] + ValueWrites(p, f, 0, s, InitValue(f))
    else ValueWrites(p, f, 0, s, CurOf(slot))
  }

  /** pb_decode_noinit: the writes of every field up to the end or to the first that fails */
  function LoopWrites(p: seq<nat>, fields: seq<Field>, s: seq<Byte>, m: Message): seq<Write>
    decreases fields, |s|
  {
    if s == [] then []
    else
      match DecodeTag(s)
      case NoTag => []
      case Stop(_) => []
      case Tagged(tag, wt, rest) =>
        match FindFrom(fields, 0, tag)
        case None => (
          match SkipField(wt, rest)
          case Bad => []
          case Good(_, rest') => LoopWrites(p, fields, rest', m)
        )
        case Some(i) =>
          FieldWrites(p + [i], fields[i], i, wt, rest, m)
          + match DecodeField(fields[i], i, wt, rest, m)
            case Bad => []
            case Good(m', rest') => LoopWrites(p, fields, rest', m')
  }

  lemma BothInPlace(a: seq<Write>, b: seq<Write>)
    requires AllInPlace(a) && AllInPlace(b)
    ensures AllInPlace(a + b)
  {
  }

  lemma IntInPlace(p: seq<nat>, f: Field, item: nat, s: seq<Byte>)
    requires TrueSize(f) && if f.rule.Repeated? then item < f.arraySize else item == 0
    ensures AllInPlace(IntWrites(p, f, item, s))
  {
    hide DecodeVarintFrom;
  }

  lemma BytesInPlace(p: seq<nat>, f: Field, item: nat, s: seq<Byte>)
    requires WellFormedField(f) && !Packable(f.kind) && if f.rule.Repeated? then item < f.arraySize else item == 0
    ensures AllInPlace(BytesWrites(p, f, item, s))
  {
    hide DecodeVarint32, WellFormed;
  }

  lemma {:induction false} ValueInPlace(p: seq<nat>, f: Field, item: nat, s: seq<Byte>, cur: Value)
    requires WellFormedField(f) && TrueSize(f) && if f.rule.Repeated? then item < f.arraySize else item == 0
    ensures AllInPlace(ValueWrites(p, f, item, s, cur))
    decreases f, 1
  {
    hide Delimited, Default, AllInPlace, IntWrites, BytesWrites, LoopWrites;
    NoWrites();
    if Packable(f.kind) {
      IntInPlace(p, f, item, s);
    } else if !f.kind.Sub? {
      BytesInPlace(p, f, item, s);
    } else if Delimited(s).Good? {
      LoopInPlace(p + [item], f.kind.fields, Delimited(s).value,
                  if f.rule.Repeated? then Default(f.kind.fields) else MsgOf(cur));
    }
  }

  lemma NoWrites()
    ensures AllInPlace([])
  {
  }

  lemma {:induction false} PackedInPlace(p: seq<nat>, f: Field, body: seq<Byte>, count: nat)
    requires TrueSize(f) && f.rule.Repeated?
    ensures AllInPlace(PackedWrites(p, f, body, count))
    decreases |body|
  {
    hide DecInt, AllInPlace, IntWrites;
    NoWrites();
    if body != [] && count < f.arraySize {
      IntInPlace(p, f, count, body);
      var d := DecInt(f.kind, f.dataSize, body);
      if d.Good? && |d.rest| < |body| {
        PackedInPlace(p, f, d.rest, count + 1);
        BothInPlace(IntWrites(p, f, count, body), PackedWrites(p, f, d.rest, count + 1));
      } else {
        BothInPlace(IntWrites(p, f, count, body), []);
      }
    }
  }

  lemma {:induction false} FieldInPlace(p: seq<nat>, f: Field, i: nat, wt: nat, s: seq<Byte>, m: Message)
    requires WellFormedField(f) && TrueSize(f)
    ensures AllInPlace(FieldWrites(p, f, i, wt, s, m))
    decreases f, 2
  {
    hide Delimited, AllInPlace, PackedWrites, ValueWrites, InitValue, WellFormedField, TrueSize;
    NoWrites();
    var slot := SlotAt(m, i);
    if f.rule.Repeated? && wt == 2 && Packable(f.kind) {
      if Delimited(s).Good? { PackedInPlace(p, f, Delimited(s).value, |ItemsOf(slot)|); }
    } else if f.rule.Repeated? {
      if |ItemsOf(slot)| < f.arraySize { ValueInPlace(p, f, |ItemsOf(slot)|, s, CurOf(slot)); }
    } else {
      ValueInPlace(p, f, 0, s, if f.rule.OneOf? && f.kind.Sub? then InitValue(f) else CurOf(slot));
      Cleared(p, f);
      BothInPlace([Write(p, f, 0, f.dataSize)], ValueWrites(p, f, 0, s, InitValue(f)))
        by { ValueInPlace(p, f, 0, s, InitValue(f)); }
    }
  }

  lemma Cleared(p: seq<nat>, f: Field)
    requires !f.rule.Repeated?
    ensures AllInPlace([Write(p, f, 0, f.dataSize)])
  {
  }

  /** Whatever the bytes, whatever the structure held, and wherever decoding stops: no write leaves the element
      of the field it is for, nor the array of its field, at any depth. */
  lemma {:induction false} LoopInPlace(p: seq<nat>, fields: seq<Field>, s: seq<Byte>, m: Message)
    requires WellFormed(fields) && TrueSizes(fields)
    ensures AllInPlace(LoopWrites(p, fields, s, m))
    decreases fields, |s|
  {
    hide DecodeTag, SkipField, DecodeField, AllInPlace, FieldWrites, FindFrom, WellFormedField, TrueSize;
    NoWrites();
    if s != [] && DecodeTag(s).Tagged? {
      var tg := DecodeTag(s);
      var found := FindFrom(fields, 0, tg.tag);
      if found.None? {
        var k := SkipField(tg.wt, tg.rest);
        if k.Good? { LoopInPlace(p, fields, k.rest, m); }
      } else {
        var i := found.value;
        FieldInPlace(p + [i], fields[i], i, tg.wt, tg.rest, m);
        var d := DecodeField(fields[i], i, tg.wt, tg.rest, m);
        var w := FieldWrites(p + [i], fields[i], i, tg.wt, tg.rest, m);
        if d.Good? {
          LoopInPlace(p, fields, d.rest, d.value);
          BothInPlace(w, LoopWrites(p, fields, d.rest, d.value));
        } else {
          BothInPlace(w, []);
        }
      }
    }
  }
}
