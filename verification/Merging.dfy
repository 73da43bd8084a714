/** Decoding an encoded message into an existing one merges it in, and into a fresh one gives it back. */
module Merging {
  import opened Common
  import opened Varint
  import opened Schema
  import opened Encoding
  import opened Decoding
  import opened Streaming
  import opened Scalars

  // ---- the merge: what protobuf says a second copy of a field does ----

  /** Submessages merge; every other value is replaced (last one wins). */
  function MergeValue(f: Field, cur: Value, v: Value): Value
    decreases f, 0
  {
    match f.kind
    case Sub(fs) => MsgV(MergeFrom(fs, 0, MsgOf(cur), MsgOf(v)))
    case _ => v
  }

  function MergeItems(f: Field, items: seq<Value>): (r: seq<Value>)
    ensures |r| == |items|
    decreases f, 1, |items|
  {
    if items == [] then [] else [MergeValue(f, InitValue(f), items[0])] + MergeItems(f, items[1..])
  }

  /** Entry f of b, merged into a: repeated fields append, a oneof member replaces the selection. */
  function MergeField(f: Field, i: nat, a: Message, b: Message): (r: Message)
    ensures |r.slots| == |a.slots|
    decreases f, 2
  {
    if !Carried(f, b, i) then a
    else
      var s, t := SlotAt(a, i), SlotAt(b, i);
      match f.rule
      case Repeated => SetSlot(a, i, Rep(ItemsOf(s) + MergeItems(f, ItemsOf(t))))
      case OneOf(g) => Store(f, i, a, MergeValue(f, if f.kind.Sub? then InitValue(f) else CurOf(s), CurOf(t)))
      case _ => Store(f, i, a, MergeValue(f, CurOf(s), CurOf(t)))
  }

  function MergeFrom(fields: seq<Field>, i: nat, a: Message, b: Message): (r: Message)
    ensures |r.slots| == |a.slots|
    decreases fields, |fields| - i
  {
    if i >= |fields| then a else MergeFrom(fields, i + 1, MergeField(fields[i], i, a, b), b)
  }

  function Merge(fields: seq<Field>, a: Message, b: Message): Message
  {
    MergeFrom(fields, 0, a, b)
  }

  // ---- room: repeated fields of b still fit behind those of a ----

  predicate RoomValue(f: Field, cur: Value, v: Value)
    decreases f, 0
  {
    f.kind.Sub? ==> Room(f.kind.fields, MsgOf(cur), MsgOf(v))
  }

  predicate RoomItems(f: Field, items: seq<Value>)
    decreases f, 1, |items|
  {
    items != [] ==> RoomValue(f, InitValue(f), items[0]) && RoomItems(f, items[1..])
  }

  predicate RoomField(f: Field, i: nat, a: Message, b: Message)
    decreases f, 2
  {
    Carried(f, b, i) ==>
      var s, t := SlotAt(a, i), SlotAt(b, i);
      match f.rule
      case Repeated =>
        && |ItemsOf(s)| + |ItemsOf(t)| <= f.arraySize
        && RoomItems(f, ItemsOf(t))
      case OneOf(_) => RoomValue(f, if f.kind.Sub? then InitValue(f) else CurOf(s), CurOf(t))
      case _ => RoomValue(f, CurOf(s), CurOf(t))
  }

  predicate Room(fields: seq<Field>, a: Message, b: Message)
    decreases fields
  {
    && |a.slots| == |fields|
    && forall i :: 0 <= i < |fields| ==> RoomField(fields[i], i, a, b)
  }

  // ---- one value, one field, all fields ----

  lemma {:induction false} FindOwnTag(fields: seq<Field>, i: nat, j: nat)
    requires WellFormed(fields) && j <= i < |fields|
    ensures FindFrom(fields, j, fields[i].tag) == Some(i)
    decreases i - j
  {
    hide WellFormedField;
    if j < i {
      FindOwnTag(fields, i, j + 1);
    }
  }

  lemma {:induction false} ValueMerge(f: Field, cur: Value, v: Value, t: seq<Byte>)
    requires WellFormedField(f) && ReadyValue(f, v)
    requires RoomValue(f, if f.rule.Repeated? then InitValue(f) else cur, v)
    ensures DecValue(f, EncValue(f, v) + t, cur)
         == Good(MergeValue(f, if f.rule.Repeated? then InitValue(f) else cur, v), t)
    decreases f, 1
  {
    if Packable(f.kind) {
      hide EncInt, DecInt, InRange;
      IntRoundTrip(f.kind, f.dataSize, IntOf(v), t);
    } else if f.kind.Sub? {
      SubMerge(f, cur, v, t);
    } else {
      hide Delimited, EncLengthPrefixed, UpToNul;
      DelimitedRoundTrip(BytesOf(v), t);
      if f.kind.Str? { UpToNulWhole(BytesOf(v)); }
      if |BytesOf(v)| == 0 { assert BytesOf(v) == Zeros(0); }
    }
  }

  lemma {:induction false} SubMerge(f: Field, cur: Value, v: Value, t: seq<Byte>)
    requires WellFormedField(f) && f.kind.Sub? && ReadyValue(f, v)
    requires RoomValue(f, if f.rule.Repeated? then InitValue(f) else cur, v)
    ensures DecValue(f, EncValue(f, v) + t, cur)
         == Good(MergeValue(f, if f.rule.Repeated? then InitValue(f) else cur, v), t)
    decreases f, 0
  {
    var fs := f.kind.fields;
    var body := Encode(fs, v.m);
    var into := if f.rule.Repeated? then Default(fs) else MsgOf(cur);
    NoInitMerges(fs, into, v.m);
    hide Delimited, EncLengthPrefixed, DecodeNoInit, EncFrom, MergeFrom, Default;
    DelimitedRoundTrip(body, t);
  }

  function Resume(fields: seq<Field>, r: Parse<Message>, seen: set<nat>): Parse<Progress>
  {
    match r
    case Bad => Bad
    case Good(m, rest) => DecodeLoop(fields, rest, m, seen)
  }

  /** The loop's turn on a tag that is in the table. */
  lemma KnownTag(fields: seq<Field>, i: nat, wt: nat, p: seq<Byte>, m: Message, seen: set<nat>)
    requires WellFormed(fields) && i < |fields| && wt < 8
    ensures DecodeLoop(fields, EncodeVarint(8 * fields[i].tag + wt) + p, m, seen)
         == Resume(fields, DecodeField(fields[i], i, wt, p, m), Mark(fields, i, seen))
  {
    hide DecodeLoop, DecodeField, DecodeTag, EncodeVarint, Mark, FindFrom, WellFormed;
    TableField(fields, i);
    FindOwnTag(fields, i, 0);
    TagRoundTrip(fields[i].tag, wt, p);
    LoopStep(fields, EncodeVarint(8 * fields[i].tag + wt) + p, m, seen);
  }

  lemma KnownTagGood(fields: seq<Field>, i: nat, wt: nat, p: seq<Byte>, m: Message, seen: set<nat>, m': Message,
                     t: seq<Byte>)
    requires WellFormed(fields) && i < |fields| && wt < 8
    requires DecodeField(fields[i], i, wt, p, m) == Good(m', t)
    ensures DecodeLoop(fields, EncodeVarint(8 * fields[i].tag + wt) + p, m, seen)
         == DecodeLoop(fields, t, m', Mark(fields, i, seen))
  {
    hide DecodeLoop, DecodeField, EncodeVarint, WellFormed, Mark;
    KnownTag(fields, i, wt, p, m, seen);
  }

  lemma OwnTag(fields: seq<Field>, i: nat, p: seq<Byte>, m: Message, seen: set<nat>, m': Message, t: seq<Byte>)
    requires WellFormed(fields) && i < |fields|
    requires DecodeField(fields[i], i, WireType(fields[i].kind), p, m) == Good(m', t)
    ensures DecodeLoop(fields, EncTag(fields[i]) + p, m, seen) == DecodeLoop(fields, t, m', Mark(fields, i, seen))
  {
    hide DecodeLoop, DecodeField, EncodeVarint, WellFormed, Mark, WireType;
    KnownTagGood(fields, i, WireType(fields[i].kind), p, m, seen, m', t);
  }

  /** One occurrence of a field that is not packed. */
  lemma PlainField(f: Field, i: nat, v: Value, m: Message, t: seq<Byte>)
    requires WellFormedField(f) && ReadyValue(f, v)
    requires f.rule.Repeated? ==> !Packable(f.kind) && |ItemsOf(SlotAt(m, i))| < f.arraySize
    requires RoomValue(f, Base(f, m, i), v)
    ensures DecodeField(f, i, WireType(f.kind), EncValue(f, v) + t, m)
         == Good(Store(f, i, m, MergeValue(f, Base(f, m, i), v)), t)
    decreases f, 2
  {
    ValueMerge(f, if f.rule.OneOf? && f.kind.Sub? then InitValue(f) else CurOf(SlotAt(m, i)), v, t);
    hide DecValue, EncValue, Store, MergeValue, InitValue, WellFormedField, ReadyValue, RoomValue, SlotAt, ItemsOf,
         CurOf, Delimited, DecPacked;
  }

  lemma PlainMerge(fields: seq<Field>, i: nat, v: Value, m: Message, seen: set<nat>, t: seq<Byte>)
    requires WellFormed(fields) && i < |fields| && ReadyValue(fields[i], v)
    requires fields[i].rule.Repeated? ==> !Packable(fields[i].kind) && |ItemsOf(SlotAt(m, i))| < fields[i].arraySize
    requires RoomValue(fields[i], Base(fields[i], m, i), v)
    ensures DecodeLoop(fields, EncTag(fields[i]) + EncValue(fields[i], v) + t, m, seen)
         == DecodeLoop(fields, t, Store(fields[i], i, m, MergeValue(fields[i], Base(fields[i], m, i), v)),
             Mark(fields, i, seen))
    decreases fields[i], 3
  {
    hide *;
    var f := fields[i];
    TableField(fields, i);
    PlainField(f, i, v, m, t);
    var p, m' := EncValue(f, v) + t, Store(f, i, m, MergeValue(f, Base(f, m, i), v));
    OwnTag(fields, i, p, m, seen, m', t);
    Assoc(EncTag(f), EncValue(f, v), t);
  }

  /** What a decoded value is merged into. */
  function Base(f: Field, m: Message, i: nat): Value
  {
    if f.rule.Repeated? || (f.rule.OneOf? && f.kind.Sub?) then InitValue(f) else CurOf(SlotAt(m, i))
  }

  function SeenAfter(fields: seq<Field>, i: nat, b: Message, seen: set<nat>): set<nat>
    requires i < |fields|
  {
    if Carried(fields[i], b, i) then Mark(fields, i, seen) else seen
  }

  lemma PackedField(f: Field, i: nat, items: seq<Value>, m: Message, t: seq<Byte>)
    requires WellFormedField(f) && f.rule.Repeated? && Packable(f.kind)
    requires |ItemsOf(SlotAt(m, i))| + |items| <= f.arraySize
    requires ReadyItems(f, items) && ShortArray(f, items)
    ensures DecodeField(f, i, 2, EncLengthPrefixed(EncPacked(f.kind, items)) + t, m)
         == Good(SetSlot(m, i, Rep(ItemsOf(SlotAt(m, i)) + items)), t)
  {
    PackedRoundTrip(f, ItemsOf(SlotAt(m, i)), items);
    hide DecPacked, EncPacked, EncLengthPrefixed, Delimited, ReadyValue, SlotAt, ItemsOf, SetSlot, DecValue;
    DelimitedRoundTrip(EncPacked(f.kind, items), t);
  }

  /** A packed array. */
  lemma PackedMerge(fields: seq<Field>, i: nat, items: seq<Value>, m: Message, seen: set<nat>, t: seq<Byte>)
    requires WellFormed(fields) && i < |fields| && fields[i].rule.Repeated? && Packable(fields[i].kind)
    requires |ItemsOf(SlotAt(m, i))| + |items| <= fields[i].arraySize
    requires ReadyItems(fields[i], items) && ShortArray(fields[i], items)
    ensures var packed := EncLengthPrefixed(EncPacked(fields[i].kind, items));
            DecodeLoop(fields, EncPackedTag(fields[i]) + packed + t, m, seen)
              == DecodeLoop(fields, t, SetSlot(m, i, Rep(ItemsOf(SlotAt(m, i)) + items)), seen)
  {
    hide *;
    var f := fields[i];
    NotRequired(fields, i, seen);
    TableField(fields, i);
    PackedField(f, i, items, m, t);
    var p, m' := EncLengthPrefixed(EncPacked(f.kind, items)), SetSlot(m, i, Rep(ItemsOf(SlotAt(m, i)) + items));
    PackedTag(fields, i, p + t, m, seen, m', t);
    Assoc(EncPackedTag(f), p, t);
  }

  lemma PackedTag(fields: seq<Field>, i: nat, p: seq<Byte>, m: Message, seen: set<nat>, m': Message, t: seq<Byte>)
    requires WellFormed(fields) && i < |fields|
    requires DecodeField(fields[i], i, 2, p, m) == Good(m', t)
    ensures DecodeLoop(fields, EncPackedTag(fields[i]) + p, m, seen) == DecodeLoop(fields, t, m', Mark(fields, i, seen))
  {
    hide DecodeLoop, DecodeField, EncodeVarint, WellFormed, Mark;
    KnownTagGood(fields, i, 2, p, m, seen, m', t);
  }

  lemma NotRequired(fields: seq<Field>, i: nat, seen: set<nat>)
    requires i < |fields| && !fields[i].rule.Required?
    ensures Mark(fields, i, seen) == seen
  {
  }

  lemma {:induction false} ScalarItems(f: Field, items: seq<Value>)
    requires !f.kind.Sub?
    ensures MergeItems(f, items) == items
  {
    if items != [] {
      ScalarItems(f, items[1..]);
    }
  }

  lemma AppendTwice(m: Message, i: nat, x: seq<Value>, y: seq<Value>)
    requires i < |m.slots|
    ensures var m' := SetSlot(m, i, Rep(x));
            && ItemsOf(SlotAt(m', i)) == x && |m'.slots| == |m.slots|
            && SetSlot(m', i, Rep(ItemsOf(SlotAt(m', i)) + y)) == SetSlot(m, i, Rep(x + y))
  {
  }

  lemma UnpackedStep(f: Field, items: seq<Value>, t: seq<Byte>)
    requires items != []
    ensures EncUnpacked(f, items) + t == EncTag(f) + EncValue(f, items[0]) + (EncUnpacked(f, items[1..]) + t)
    ensures MergeItems(f, items) == [MergeValue(f, InitValue(f), items[0])] + MergeItems(f, items[1..])
    ensures |items| == 1 ==> EncUnpacked(f, items[1..]) + t == t && MergeItems(f, items[1..]) == []
  {
    hide EncTag, EncValue, MergeValue, InitValue;
    Assoc(EncTag(f) + EncValue(f, items[0]), EncUnpacked(f, items[1..]), t);
  }

  /** An array sent one entry at a time. */
  lemma {:induction false} UnpackedMerge(fields: seq<Field>, i: nat, items: seq<Value>, m: Message, seen: set<nat>,
                                         t: seq<Byte>)
    requires WellFormed(fields) && i < |fields| && fields[i].rule.Repeated? && !Packable(fields[i].kind)
    requires items != [] && |ItemsOf(SlotAt(m, i))| + |items| <= fields[i].arraySize && i < |m.slots|
    requires ReadyItems(fields[i], items)
    requires RoomItems(fields[i], items)
    ensures DecodeLoop(fields, EncUnpacked(fields[i], items) + t, m, seen)
         == DecodeLoop(fields, t, SetSlot(m, i, Rep(ItemsOf(SlotAt(m, i)) + MergeItems(fields[i], items))), seen)
    decreases fields[i], 4, |items|
  {
    hide DecodeLoop, EncUnpacked, EncValue, EncTag, MergeValue, MergeItems, InitValue, WellFormed, ReadyValue,
         RoomValue, RequiredBefore, SlotAt, SetSlot, ItemsOf, Packable;
    var f, head, more, had := fields[i], items[0], items[1..], ItemsOf(SlotAt(m, i));
    UnpackedStep(f, items, t);
    assert ReadyValue(f, head) && RoomValue(f, InitValue(f), head);
    PlainMerge(fields, i, head, m, seen, EncUnpacked(f, more) + t);
    var merged := [MergeValue(f, InitValue(f), head)];
    var m' := SetSlot(m, i, Rep(had + merged));
    if more == [] {
      assert had + merged == had + MergeItems(f, items);
    } else {
      AppendTwice(m, i, had + merged, MergeItems(f, more));
      UnpackedMerge(fields, i, more, m', seen, t);
      Assoc(had, merged, MergeItems(f, more));
    }
  }

  /** Everything the encoder writes for one table entry. */
  lemma FieldMerge(fields: seq<Field>, i: nat, m: Message, b: Message, seen: set<nat>, t: seq<Byte>)
    requires WellFormed(fields) && i < |fields| == |m.slots|
    requires ReadyField(fields[i], b, i) && RoomField(fields[i], i, m, b)
    ensures DecodeLoop(fields, EncField(fields[i], b, i) + t, m, seen)
         == DecodeLoop(fields, t, MergeField(fields[i], i, m, b), SeenAfter(fields, i, b, seen))
    decreases fields[i], 5
  {
    var f := fields[i];
    hide DecodeLoop, EncUnpacked, EncPacked, EncTag, EncValue, EncLengthPrefixed, MergeValue, InitValue, WellFormed,
         ReadyValue, RoomValue, RequiredBefore, IsDefault, MergeItems;
    if !Carried(f, b, i) {
      assert EncField(f, b, i) + t == t;
    } else if !f.rule.Repeated? {
      PlainMerge(fields, i, CurOf(SlotAt(b, i)), m, seen, t);
    } else if Packable(f.kind) {
      ScalarItems(f, ItemsOf(SlotAt(b, i)));
      PackedMerge(fields, i, ItemsOf(SlotAt(b, i)), m, seen, t);
    } else {
      UnpackedMerge(fields, i, ItemsOf(SlotAt(b, i)), m, seen, t);
    }
  }

  lemma MergeFieldFrame(f: Field, i: nat, a: Message, b: Message, j: nat)
    requires j != i
    ensures SlotAt(MergeField(f, i, a, b), j) == SlotAt(a, j)
  {
    hide MergeValue, MergeItems, InitValue, IsDefault;
  }

  function SeenFrom(fields: seq<Field>, i: nat, b: Message, seen: set<nat>): set<nat>
    decreases |fields| - i
  {
    if i >= |fields| then seen else SeenFrom(fields, i + 1, b, SeenAfter(fields, i, b, seen))
  }

  /** Table entries i, i+1, ... in one go, whatever bytes t follow. */
  lemma {:induction false} FieldsMerge(fields: seq<Field>, i: nat, m: Message, b: Message, seen: set<nat>, t: seq<Byte>)
    requires WellFormed(fields) && i <= |fields| == |m.slots|
    requires forall j :: i <= j < |fields| ==> ReadyField(fields[j], b, j)
    requires forall j :: i <= j < |fields| ==> RoomField(fields[j], j, m, b)
    ensures DecodeLoop(fields, EncFrom(fields, i, b) + t, m, seen)
         == DecodeLoop(fields, t, MergeFrom(fields, i, m, b), SeenFrom(fields, i, b, seen))
    decreases fields, |fields| - i
  {
    hide DecodeLoop, EncField, MergeField, WellFormed, ReadyField, SeenAfter;
    if i == |fields| {
      assert EncFrom(fields, i, b) + t == t;
    } else {
      var later := EncFrom(fields, i + 1, b) + t;
      assert EncFrom(fields, i, b) + t == EncField(fields[i], b, i) + later;
      FieldMerge(fields, i, m, b, seen, later);
      var m' := MergeField(fields[i], i, m, b);
      forall j | i + 1 <= j < |fields|
        ensures RoomField(fields[j], j, m', b)
      {
        MergeFieldFrame(fields[i], i, m, b, j);
        RoomIsLocal(fields[j], j, m, m', b);
      }
      FieldsMerge(fields, i + 1, m', b, SeenAfter(fields, i, b, seen), t);
    }
  }

  lemma RoomIsLocal(f: Field, i: nat, a: Message, a': Message, b: Message)
    requires RoomField(f, i, a, b) && SlotAt(a', i) == SlotAt(a, i)
    ensures RoomField(f, i, a', b)
  {
    hide RoomValue, InitValue, IsDefault;
  }

  /** Everything already seen, and every required entry passed, is seen. */
  lemma {:induction false} SeenCovers(fields: seq<Field>, i: nat, b: Message, seen: set<nat>, r: nat)
    requires i <= |fields| && r < MAX_REQUIRED
    requires r in seen || RequiredBefore(fields, i) <= r < RequiredBefore(fields, |fields|)
    ensures r in SeenFrom(fields, i, b, seen)
    decreases |fields| - i
  {
    if i < |fields| {
      SeenCovers(fields, i + 1, b, SeenAfter(fields, i, b, seen), r);
    }
  }

  /** pb_decode_noinit of an encoded message is a merge; it uses the whole input and finds every
      required field. */
  lemma {:induction false} NoInitMerges(fields: seq<Field>, a: Message, b: Message)
    requires WellFormed(fields) && Ready(fields, b) && Room(fields, a, b)
    ensures DecodeNoInit(fields, Encode(fields, b), a) == Good(Merge(fields, a, b), [])
    decreases fields
  {
    hide EncFrom, MergeFrom, WellFormed, ReadyField, RoomField, SeenFrom;
    FieldsMerge(fields, 0, a, b, {}, []);
    assert EncFrom(fields, 0, b) + [] == Encode(fields, b);
    forall r: nat | r < RequiredBefore(fields, |fields|) && r < MAX_REQUIRED
      ensures r in SeenFrom(fields, 0, b, {})
    {
      SeenCovers(fields, 0, b, {}, r);
    }
  }
}
