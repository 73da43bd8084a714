/** Old and new tables: what a decoder makes of fields that only the writer's table has. The bytes of
    every field are given here in the wire format's own terms, record by record. */
module Evolution {
  import opened Common
  import opened Varint
  import opened Schema
  import opened Encoding
  import opened Decoding
  import opened Streaming
  import opened Scalars
  import opened Merging
  import opened RoundTrip
  import opened Wire

  lemma {:induction false} EncodedIsVarint(v: nat)
    ensures IsVarint(EncodeVarint(v))
  {
    if v >= 128 {
      EncodedIsVarint(v / 128);
      assert EncodeVarint(v)[1..] == EncodeVarint(v / 128);
    }
  }

  // ---- a field's bytes, as records anyone can read ----

  /** One value behind its tag: a varint, four bytes, eight bytes, or a length and that many bytes. */
  function Record(f: Field, v: Value): Unknown
  {
    match f.kind
    case VarInt => UVarint(f.tag, EncInt(f.kind, IntOf(v)))
    case UVarInt => UVarint(f.tag, EncInt(f.kind, IntOf(v)))
    case SVarInt => UVarint(f.tag, EncInt(f.kind, IntOf(v)))
    case Fixed32 => UFixed32(f.tag, EncInt(f.kind, IntOf(v)))
    case Fixed64 => UFixed64(f.tag, EncInt(f.kind, IntOf(v)))
    case Sub(fs) => UString(f.tag, Encode(fs, MsgOf(v)))
    case _ => UString(f.tag, BytesOf(v))
  }

  function ItemRecords(f: Field, items: seq<Value>): seq<Unknown>
  {
    if items == [] then [] else [Record(f, items[0])] + ItemRecords(f, items[1..])
  }

  /** An array of numbers is one record; every other array has a record for each element. */
  function Records(f: Field, m: Message, i: nat): seq<Unknown>
  {
    if !Carried(f, m, i) then []
    else if !f.rule.Repeated? then [Record(f, CurOf(SlotAt(m, i)))]
    else if Packable(f.kind) then [UString(f.tag, EncPacked(f.kind, ItemsOf(SlotAt(m, i))))]
    else ItemRecords(f, ItemsOf(SlotAt(m, i)))
  }

  lemma RecordBytes(f: Field, v: Value)
    ensures EncUnknown(Record(f, v)) == EncTag(f) + EncValue(f, v)
  {
    hide EncodeVarint, EncInt, EncFrom;
    match f.kind {
      case Sub(fs) => assert Encode(fs, MsgOf(v)) == EncFrom(fs, 0, MsgOf(v));
      case _ =>
    }
  }

  lemma RecordIsLegal(fields: seq<Field>, f: Field, v: Value)
    requires WellFormedField(f) && ReadyValue(f, v) && FindFrom(fields, 0, f.tag) == None
    ensures WellFormedUnknown(fields, Record(f, v))
    ensures EncUnknown(Record(f, v)) == EncTag(f) + EncValue(f, v)
  {
    RecordBytes(f, v);
    hide FindFrom, EncodeVarint, WellFormed, Ready, Encode, IsVarint, ZigZag, LittleEndian, EncUnknown, EncValue,
         EncTag;
    if Packable(f.kind) {
      EncIntShape(f.kind, f.dataSize, IntOf(v));
      if f.kind.SVarInt? { ZigZagRoundTrip(IntOf(v)); }
      EncodedIsVarint(if f.kind.SVarInt? then ZigZag(IntOf(v)) else IntOf(v) % U64);
    }
  }

  lemma EncUnknownsOne(u: Unknown)
    ensures EncUnknowns([u]) == EncUnknown(u)
  {
    hide EncUnknown;
  }

  lemma {:induction false} ItemRecordsAreLegal(fields: seq<Field>, f: Field, items: seq<Value>)
    requires WellFormedField(f) && ReadyItems(f, items) && FindFrom(fields, 0, f.tag) == None
    ensures WellFormedUnknowns(fields, ItemRecords(f, items))
    ensures EncUnknowns(ItemRecords(f, items)) == EncUnpacked(f, items)
  {
    hide WellFormedField, WellFormedUnknown, Record, EncUnknown, EncTag, EncValue, FindFrom, ReadyValue;
    if items != [] {
      RecordIsLegal(fields, f, items[0]);
      ItemRecordsAreLegal(fields, f, items[1..]);
      var us := ItemRecords(f, items);
      assert us[1..] == ItemRecords(f, items[1..]);
    }
  }

  /** What the encoder writes for a table entry are these records, and a table without the entry's tag
      knows none of them. */
  lemma FieldIsRecords(fields: seq<Field>, f: Field, m: Message, i: nat)
    requires WellFormedField(f) && ReadyField(f, m, i) && FindFrom(fields, 0, f.tag) == None
    ensures WellFormedUnknowns(fields, Records(f, m, i))
    ensures EncUnknowns(Records(f, m, i)) == EncField(f, m, i)
  {
    hide WellFormedField, WellFormedUnknown, Record, EncUnknown, EncTag, EncPackedTag, EncPacked, EncValue, FindFrom,
         ReadyValue, EncLengthPrefixed, IsDefault;
    if Carried(f, m, i) {
      var items := ItemsOf(SlotAt(m, i));
      if !f.rule.Repeated? {
        RecordIsLegal(fields, f, CurOf(SlotAt(m, i)));
        EncUnknownsOne(Record(f, CurOf(SlotAt(m, i))));
      } else if Packable(f.kind) {
        PackedRecord(fields, f, items);
        EncUnknownsOne(UString(f.tag, EncPacked(f.kind, items)));
      } else {
        ItemRecordsAreLegal(fields, f, items);
      }
    }
  }

  lemma PackedRecord(fields: seq<Field>, f: Field, items: seq<Value>)
    requires WellFormedField(f) && Packable(f.kind) && ShortArray(f, items) && FindFrom(fields, 0, f.tag) == None
    ensures WellFormedUnknown(fields, UString(f.tag, EncPacked(f.kind, items)))
    ensures EncUnknown(UString(f.tag, EncPacked(f.kind, items)))
         == EncPackedTag(f) + EncLengthPrefixed(EncPacked(f.kind, items))
  {
    hide FindFrom, EncodeVarint, EncPacked;
  }

  // ---- readers that lack the field ----

  /** Behind its tag, pb_skip_field takes exactly the value's bytes. */
  lemma ValueIsSkipped(f: Field, v: Value, t: seq<Byte>)
    requires WellFormedField(f) && ReadyValue(f, v)
    ensures SkipField(WireType(f.kind), EncValue(f, v) + t) == Good((), t)
  {
    hide EncodeVarint, WellFormed, Ready, EncFrom, IsVarint, SkipVarint, ReadBytes, Delimited, LittleEndian, ZigZag;
    if Packable(f.kind) {
      EncIntShape(f.kind, f.dataSize, IntOf(v));
      var u := if f.kind.SVarInt? then ZigZag(IntOf(v)) else IntOf(v) % U64;
      if f.kind.SVarInt? { ZigZagRoundTrip(IntOf(v)); }
      EncodedIsVarint(u);
      if f.kind.Fixed32? || f.kind.Fixed64? {
        SkipsWholeRead(EncValue(f, v), t);
      } else {
        SkipsWholeVarint(EncValue(f, v), t);
      }
    } else {
      DelimitedRoundTrip(if f.kind.Sub? then Encode(f.kind.fields, MsgOf(v)) else BytesOf(v), t);
    }
  }

  /** A table without the tag reads on as if the field had not been sent. */
  lemma FieldIsSkipped(fields: seq<Field>, f: Field, m: Message, i: nat, t: seq<Byte>, into: Message, seen: set<nat>)
    requires WellFormedField(f) && ReadyField(f, m, i) && FindFrom(fields, 0, f.tag) == None
    ensures DecodeLoop(fields, EncField(f, m, i) + t, into, seen) == DecodeLoop(fields, t, into, seen)
  {
    hide *;
    FieldIsRecords(fields, f, m, i);
    UnknownsAreSkipped(fields, Records(f, m, i), t, into, seen);
  }

  // ---- tables that differ by some entries ----

  /** The chosen ones among the first n. */
  function Chosen<T>(xs: seq<T>, keep: seq<bool>, n: nat): (r: seq<T>)
    requires n <= |xs| == |keep|
    ensures |r| <= n
  {
    if n == 0 then [] else if keep[n - 1] then Chosen(xs, keep, n - 1) + [xs[n - 1]] else Chosen(xs, keep, n - 1)
  }

  lemma {:induction false} ChosenAt<T>(xs: seq<T>, keep: seq<bool>, k: nat, n: nat)
    requires k < n <= |xs| == |keep| && keep[k]
    ensures |Chosen(xs, keep, k)| < |Chosen(xs, keep, n)|
    ensures Chosen(xs, keep, n)[|Chosen(xs, keep, k)|] == xs[k]
  {
    if k < n - 1 {
      ChosenAt(xs, keep, k, n - 1);
    }
  }

  lemma {:induction false} SameCount<T, U>(xs: seq<T>, ys: seq<U>, keep: seq<bool>, n: nat)
    requires n <= |xs| == |ys| == |keep|
    ensures |Chosen(xs, keep, n)| == |Chosen(ys, keep, n)|
  {
    if n > 0 {
      SameCount(xs, ys, keep, n - 1);
    }
  }

  /** The place in xs of the j-th chosen one. */
  lemma {:induction false} Origin<T>(xs: seq<T>, keep: seq<bool>, n: nat, j: nat) returns (k: nat)
    requires n <= |xs| == |keep| && j < |Chosen(xs, keep, n)|
    ensures k < n && keep[k] && |Chosen(xs, keep, k)| == j && xs[k] == Chosen(xs, keep, n)[j]
  {
    if keep[n - 1] && j == |Chosen(xs, keep, n - 1)| {
      k := n - 1;
    } else {
      k := Origin(xs, keep, n - 1, j);
    }
  }

  /** The table with the chosen entries only, and a message as that table has it. */
  function Part(fields: seq<Field>, keep: seq<bool>): seq<Field>
    requires |fields| == |keep|
  {
    Chosen(fields, keep, |fields|)
  }

  function PartOf(m: Message, keep: seq<bool>): Message
    requires |m.slots| == |keep|
  {
    Msg(Chosen(m.slots, keep, |keep|), m.which)
  }

  lemma SameSlot(f: Field, m: Message, i: nat, n: Message, j: nat)
    requires SlotAt(m, i) == SlotAt(n, j) && m.which == n.which
    ensures EncField(f, m, i) == EncField(f, n, j)
    ensures Carried(f, m, i) == Carried(f, n, j)
    ensures ReadyField(f, m, i) == ReadyField(f, n, j)
  {
    hide EncTag, EncPackedTag, EncValue, EncUnpacked, EncPacked, EncLengthPrefixed, ReadyValue, ReadyItems, ShortArray,
         SameValue;
    assert IsDefault(f, m, i) == IsDefault(f, n, j);
  }

  /** Entry k of the whole, if chosen, is entry |Chosen(.., k)| of the part. */
  lemma PartEntry(fields: seq<Field>, m: Message, keep: seq<bool>, k: nat)
    requires |fields| == |m.slots| == |keep| && k < |keep| && keep[k]
    ensures var j := |Chosen(fields, keep, k)|;
            && j < |Part(fields, keep)| && Part(fields, keep)[j] == fields[k]
            && SlotAt(PartOf(m, keep), j) == SlotAt(m, k)
            && EncField(fields[k], PartOf(m, keep), j) == EncField(fields[k], m, k)
            && ReadyField(fields[k], PartOf(m, keep), j) == ReadyField(fields[k], m, k)
  {
    hide EncField, ReadyField, Carried, SameField;
    ChosenAt(fields, keep, k, |keep|);
    ChosenAt(m.slots, keep, k, |keep|);
    SameCount(fields, m.slots, keep, k);
    SameSlot(fields[k], PartOf(m, keep), |Chosen(fields, keep, k)|, m, k);
  }

  lemma PartIsWellFormed(fields: seq<Field>, keep: seq<bool>)
    requires WellFormed(fields) && |fields| == |keep|
    ensures WellFormed(Part(fields, keep))
  {
    hide WellFormedField;
    var part := Part(fields, keep);
    forall i | 0 <= i < |part|
      ensures WellFormedField(part[i])
    {
      var k := Origin(fields, keep, |keep|, i);
    }
    forall i, j | 0 <= i < j < |part|
      ensures part[i].tag != part[j].tag
    {
      var k := Origin(fields, keep, |keep|, i);
      var l := Origin(fields, keep, |keep|, j);
      assert fields[if k < l then k else l].tag != fields[if k < l then l else k].tag;
    }
  }

  lemma PartIsReady(fields: seq<Field>, m: Message, keep: seq<bool>)
    requires Ready(fields, m) && |fields| == |keep|
    ensures Ready(Part(fields, keep), PartOf(m, keep))
  {
    hide ReadyField, Chosen;
    SameCount(fields, m.slots, keep, |keep|);
    var part := Part(fields, keep);
    forall i | 0 <= i < |part|
      ensures ReadyField(part[i], PartOf(m, keep), i)
    {
      var k := Origin(fields, keep, |keep|, i);
      PartEntry(fields, m, keep, k);
    }
  }

  lemma {:induction false} FindsNone(fields: seq<Field>, i: nat, tag: nat)
    requires forall j :: i <= j < |fields| ==> fields[j].tag != tag
    ensures FindFrom(fields, i, tag) == None
    decreases |fields| - i
  {
    if i < |fields| {
      FindsNone(fields, i + 1, tag);
    }
  }

  /** The part does not know the tag of an entry that was not chosen. */
  lemma LeftOutTag(fields: seq<Field>, keep: seq<bool>, k: nat)
    requires WellFormed(fields) && |fields| == |keep| && k < |keep| && !keep[k]
    ensures FindFrom(Part(fields, keep), 0, fields[k].tag) == None
  {
    hide WellFormedField, Chosen;
    var part := Part(fields, keep);
    forall j | 0 <= j < |part|
      ensures part[j].tag != fields[k].tag
    {
      var l := Origin(fields, keep, |keep|, j);
      assert fields[if k < l then k else l].tag != fields[if k < l then l else k].tag;
    }
    FindsNone(part, 0, fields[k].tag);
  }

  predicate RoomFrom(fields: seq<Field>, i: nat, into: Message, m: Message)
  {
    forall j :: i <= j < |fields| ==> RoomField(fields[j], j, into, m)
  }

  /** Read by the part, entries k, k+1, ... of the whole are those of the part. */
  lemma {:induction false} PartReads(fields: seq<Field>, m: Message, keep: seq<bool>, k: nat, into: Message,
                                     seen: set<nat>)
    requires WellFormed(fields) && Ready(fields, m) && |keep| == |fields| == |m.slots| && k <= |keep|
    requires |into.slots| == |Part(fields, keep)|
    requires RoomFrom(Part(fields, keep), |Chosen(fields, keep, k)|, into, PartOf(m, keep))
    ensures DecodeLoop(Part(fields, keep), EncFrom(fields, k, m), into, seen)
         == DecodeLoop(Part(fields, keep), EncFrom(Part(fields, keep), |Chosen(fields, keep, k)|, PartOf(m, keep)),
                       into, seen)
    decreases |keep| - k
  {
    hide DecodeLoop, WellFormed, WellFormedField, ReadyField, EncField, MergeField, RoomField, SeenAfter, Carried;
    var part, pm, j := Part(fields, keep), PartOf(m, keep), |Chosen(fields, keep, k)|;
    if k < |keep| {
      TableField(fields, k);
      if keep[k] {
        PartEntry(fields, m, keep, k);
        PartIsWellFormed(fields, keep);
        FieldMerge(part, j, into, pm, seen, EncFrom(fields, k + 1, m));
        FieldMerge(part, j, into, pm, seen, EncFrom(part, j + 1, pm));
        var into' := MergeField(part[j], j, into, pm);
        forall l | j + 1 <= l < |part|
          ensures RoomField(part[l], l, into', pm)
        {
          MergeFieldFrame(part[j], j, into, pm, l);
          RoomIsLocal(part[l], l, into, into', pm);
        }
        PartReads(fields, m, keep, k + 1, into', SeenAfter(part, j, pm, seen));
      } else {
        LeftOutTag(fields, keep, k);
        FieldIsSkipped(part, fields[k], m, k, EncFrom(fields, k + 1, m), into, seen);
        PartReads(fields, m, keep, k + 1, into, seen);
      }
    }
  }

  /** A decoder built from an older table, which lacks some of the encoder's fields, recovers every field
      it has. */
  lemma OlderReader(fields: seq<Field>, m: Message, keep: seq<bool>)
    requires WellFormed(fields) && Ready(fields, m) && |keep| == |fields|
    ensures Decode(Part(fields, keep), Encode(fields, m)).Good?
    ensures Decode(Part(fields, keep), Encode(fields, m)).rest == []
    ensures SameMessage(Part(fields, keep), Decode(Part(fields, keep), Encode(fields, m)).value, PartOf(m, keep))
  {
    hide DecodeLoop, WellFormed, ReadyField, RoomField, Part, PartOf, EncFrom, SameMessage, Default, RequiredSeen;
    var part, pm := Part(fields, keep), PartOf(m, keep);
    PartIsWellFormed(fields, keep);
    PartIsReady(fields, m, keep);
    RoomDefault(part, pm);
    PartReads(fields, m, keep, 0, Default(part), {});
    RoundTrip.RoundTrip(part, pm);
  }

  /** The entries that are not chosen send nothing. */
  predicate OnlyChosenSent(fields: seq<Field>, m: Message, keep: seq<bool>)
    requires |fields| == |keep|
  {
    forall k :: 0 <= k < |fields| && Carried(fields[k], m, k) ==> keep[k]
  }

  lemma {:induction false} PartWrites(fields: seq<Field>, m: Message, keep: seq<bool>, k: nat)
    requires |fields| == |m.slots| == |keep| && k <= |keep| && OnlyChosenSent(fields, m, keep)
    ensures EncFrom(Part(fields, keep), |Chosen(fields, keep, k)|, PartOf(m, keep)) == EncFrom(fields, k, m)
    decreases |keep| - k
  {
    hide EncField, Carried, ReadyField;
    if k < |keep| {
      PartWrites(fields, m, keep, k + 1);
      if keep[k] {
        PartEntry(fields, m, keep, k);
      } else {
        NotSent(fields[k], m, k);
      }
    }
  }

  lemma NotSent(f: Field, m: Message, i: nat)
    ensures !Carried(f, m, i) ==> EncField(f, m, i) == []
  {
    hide Carried;
  }

  /** A decoder built from a newer table, which has fields the encoder lacks, recovers the encoder's fields
      and finds its own additions absent, unless one of them is required. */
  lemma NewerReader(fields: seq<Field>, m: Message, keep: seq<bool>)
    requires WellFormed(fields) && Ready(fields, m) && |keep| == |fields| && OnlyChosenSent(fields, m, keep)
    ensures Decode(fields, Encode(Part(fields, keep), PartOf(m, keep))).Good?
    ensures SameMessage(fields, Decode(fields, Encode(Part(fields, keep), PartOf(m, keep))).value, m)
  {
    hide DecodeNoInit, WellFormed, ReadyField, EncFrom, SameMessage, Default, OnlyChosenSent;
    PartWrites(fields, m, keep, 0);
    RoundTrip.RoundTrip(fields, m);
  }
}
