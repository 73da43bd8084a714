/** Laws about whole byte streams: concatenation, fields unknown to the table, message framing,
    and the required-field check. */
module Wire {
  import opened Common
  import opened Varint
  import opened Schema
  import opened Encoding
  import opened Decoding
  import opened Streaming
  import opened Scalars
  import opened Merging
  import opened RoundTrip

  // ---- concatenation ----

  lemma MarkUnion(fields: seq<Field>, i: nat, seen: set<nat>)
    requires i < |fields|
    ensures Mark(fields, i, seen) == seen + Mark(fields, i, {})
  {
  }

  function AddSeen(r: Parse<Progress>, seen: set<nat>): Parse<Progress>
  {
    match r
    case Bad => Bad
    case Good(p, rest) => Good(p.(seen := seen + p.seen), rest)
  }

  /** The bits already set only add to the bits at the end. */
  lemma {:induction false} LoopSeen(fields: seq<Field>, s: seq<Byte>, m: Message, seen: set<nat>)
    ensures DecodeLoop(fields, s, m, seen) == AddSeen(DecodeLoop(fields, s, m, {}), seen)
    decreases |s|
  {
    if s == [] {
      assert seen + {} == seen;
    } else {
      hide DecodeLoop, DecodeTag, SkipField, DecodeField, Mark, FindFrom;
      LoopStep(fields, s, m, seen);
      LoopStep(fields, s, m, {});
      var tg := DecodeTag(s);
      match tg {
        case NoTag =>
        case Stop(_) => assert seen + {} == seen;
        case Tagged(tag, wt, rest) =>
          AfterTagShrinks(fields, tag, wt, rest, m, seen);
          var p := AfterTag(fields, tag, wt, rest, m, {});
          if p.Good? {
            var found := FindFrom(fields, 0, tag);
            var now := if found.Some? then Mark(fields, found.value, {}) else {};
            if found.Some? { MarkUnion(fields, found.value, seen); } else { assert seen + {} == seen; }
            assert AfterTag(fields, tag, wt, rest, m, seen) == Good((p.value.0, seen + now), p.rest);
            LoopSeen(fields, p.rest, p.value.0, seen + now);
            LoopSeen(fields, p.rest, p.value.0, now);
            UnionAssoc(DecodeLoop(fields, p.rest, p.value.0, {}), seen, now);
          }
      }
    }
  }

  lemma UnionAssoc(r: Parse<Progress>, x: set<nat>, y: set<nat>)
    ensures AddSeen(r, x + y) == AddSeen(AddSeen(r, y), x)
  {
    if r.Good? { assert x + y + r.value.seen == x + (y + r.value.seen); }
  }

  /** Decoding two serialized messages back to back is decoding them in turn into one structure,
      and it succeeds whenever the two separate decodes do. */
  lemma ConcatenationIsMerge(fields: seq<Field>, s: seq<Byte>, t: seq<Byte>, m: Message)
    ensures WholeFields(fields, s, m) && DecodeNoInit(fields, t, DecodeNoInit(fields, s, m).value).Good? ==>
              DecodeNoInit(fields, s + t, m) == DecodeNoInit(fields, t, DecodeNoInit(fields, s, m).value)
  {
    hide DecodeLoop;
    if WholeFields(fields, s, m) {
      LoopConcat(fields, s, t, m, {});
      var p := DecodeLoop(fields, s, m, {}).value;
      LoopSeen(fields, t, p.m, p.seen);
    }
  }

  /** s decodes into m, and no zero tag ends it early. */
  predicate WholeFields(fields: seq<Field>, s: seq<Byte>, m: Message)
  {
    DecodeNoInit(fields, s, m).Good? && !DecodeLoop(fields, s, m, {}).value.stopped
  }

  /** For encoded messages: the second is merged into the result of the first. */
  lemma EncodedConcatenation(fields: seq<Field>, into: Message, a: Message, b: Message)
    requires WellFormed(fields) && Ready(fields, a) && Ready(fields, b)
    requires Room(fields, into, a) && Room(fields, Merge(fields, into, a), b)
    ensures DecodeNoInit(fields, Encode(fields, a) + Encode(fields, b), into)
         == Good(Merge(fields, Merge(fields, into, a), b), [])
  {
    hide DecodeLoop, EncFrom, MergeFrom, Room, Ready, WellFormed;
    NoInitMerges(fields, into, a);
    NoInitMerges(fields, Merge(fields, into, a), b);
    EncodingRunsOn(fields, into, a);
    ConcatenationIsMerge(fields, Encode(fields, a), Encode(fields, b), into);
  }

  lemma EncodingRunsOn(fields: seq<Field>, into: Message, a: Message)
    requires WellFormed(fields) && Ready(fields, a) && Room(fields, into, a)
    ensures DecodeLoop(fields, Encode(fields, a), into, {})
         == Good(Progress(Merge(fields, into, a), SeenFrom(fields, 0, a, {}), false), [])
  {
    hide EncFrom, MergeFrom, WellFormed, SeenFrom, ReadyField, RoomField;
    FieldsMerge(fields, 0, into, a, {}, []);
    assert EncFrom(fields, 0, a) + [] == Encode(fields, a);
  }

  // ---- fields the table does not know ----

  datatype Unknown =
    | UVarint(tag: nat, groups: seq<Byte>)
    | UFixed64(tag: nat, b: seq<Byte>)
    | UString(tag: nat, b: seq<Byte>)
    | UFixed32(tag: nat, b: seq<Byte>)

  /** A varint of any length: the top bit is clear on the last byte only. */
  predicate IsVarint(b: seq<Byte>)
  {
    b != [] && if |b| == 1 then b[0] < 128 else b[0] >= 128 && IsVarint(b[1..])
  }

  predicate WellFormedUnknown(fields: seq<Field>, u: Unknown)
  {
    && 1 <= u.tag < 0x2000_0000
    && FindFrom(fields, 0, u.tag) == None
    && match u
       case UVarint(_, g) => IsVarint(g)
       case UFixed64(_, b) => |b| == 8
       case UString(_, b) => |b| < U32
       case UFixed32(_, b) => |b| == 4
  }

  function UnknownWireType(u: Unknown): nat
  {
    match u case UVarint(_, _) => 0 case UFixed64(_, _) => 1 case UString(_, _) => 2 case UFixed32(_, _) => 5
  }

  function UnknownPayload(u: Unknown): seq<Byte>
  {
    match u
    case UVarint(_, g) => g
    case UString(_, b) => EncLengthPrefixed(b)
    case UFixed64(_, b) => b
    case UFixed32(_, b) => b
  }

  function EncUnknown(u: Unknown): seq<Byte>
  {
    EncodeVarint(8 * u.tag + UnknownWireType(u)) + UnknownPayload(u)
  }

  function EncUnknowns(us: seq<Unknown>): seq<Byte>
  {
    if us == [] then [] else EncUnknown(us[0]) + EncUnknowns(us[1..])
  }

  predicate WellFormedUnknowns(fields: seq<Field>, us: seq<Unknown>)
  {
    us != [] ==> WellFormedUnknown(fields, us[0]) && WellFormedUnknowns(fields, us[1..])
  }

  lemma {:induction false} SkipsWholeVarint(b: seq<Byte>, t: seq<Byte>)
    requires IsVarint(b)
    ensures SkipVarint(b + t) == Good((), t)
  {
    if |b| == 1 {
      assert (b + t)[1..] == t;
    } else {
      assert (b + t)[1..] == b[1..] + t;
      SkipsWholeVarint(b[1..], t);
    }
  }

  lemma SkipsWholeRead(b: seq<Byte>, t: seq<Byte>)
    ensures ReadBytes(b + t, |b|) == Good(b, t)
  {
    assert (b + t)[..|b|] == b && (b + t)[|b|..] == t;
  }

  /** pb_skip_field consumes exactly the field's bytes. */
  lemma SkipsWholeField(fields: seq<Field>, u: Unknown, t: seq<Byte>)
    requires WellFormedUnknown(fields, u)
    ensures SkipField(UnknownWireType(u), UnknownPayload(u) + t) == Good((), t)
  {
    hide FindFrom, ReadBytes, SkipVarint, Delimited, EncLengthPrefixed, IsVarint;
    match u {
      case UVarint(_, g) => SkipsWholeVarint(g, t);
      case UString(_, b) => DelimitedRoundTrip(b, t);
      case UFixed64(_, b) => SkipsWholeRead(b, t);
      case UFixed32(_, b) => SkipsWholeRead(b, t);
    }
  }

  lemma UnknownIsSkipped(fields: seq<Field>, u: Unknown, t: seq<Byte>, m: Message, seen: set<nat>)
    requires WellFormedUnknown(fields, u)
    ensures DecodeLoop(fields, EncUnknown(u) + t, m, seen) == DecodeLoop(fields, t, m, seen)
  {
    hide DecodeLoop, DecodeTag, DecodeField, SkipField, FindFrom, EncodeVarint, UnknownPayload, Mark, IsVarint;
    var p := UnknownPayload(u) + t;
    var e := EncodeVarint(8 * u.tag + UnknownWireType(u));
    Assoc(e, UnknownPayload(u), t);
    TagRoundTrip(u.tag, UnknownWireType(u), p);
    SkipsWholeField(fields, u, t);
    LoopStep(fields, e + p, m, seen);
  }

  lemma {:induction false} UnknownsAreSkipped(fields: seq<Field>, us: seq<Unknown>, t: seq<Byte>, m: Message,
                                              seen: set<nat>)
    requires WellFormedUnknowns(fields, us)
    ensures DecodeLoop(fields, EncUnknowns(us) + t, m, seen) == DecodeLoop(fields, t, m, seen)
    decreases |us|
  {
    hide DecodeLoop, EncUnknown, WellFormedUnknown;
    if us == [] {
      assert EncUnknowns(us) + t == t;
    } else {
      Assoc(EncUnknown(us[0]), EncUnknowns(us[1..]), t);
      UnknownIsSkipped(fields, us[0], EncUnknowns(us[1..]) + t, m, seen);
      UnknownsAreSkipped(fields, us[1..], t, m, seen);
    }
  }

  /** The encoding of entries i, i+1, ... with gaps[k] put in front of entry k, and gaps[|fields|] at the end. */
  function Interleave(fields: seq<Field>, i: nat, m: Message, gaps: seq<seq<Unknown>>): seq<Byte>
    requires |gaps| == |fields| + 1
    decreases |fields| - i
  {
    if i >= |fields| then EncUnknowns(gaps[|fields|])
    else EncUnknowns(gaps[i]) + (EncField(fields[i], m, i) + Interleave(fields, i + 1, m, gaps))
  }

  lemma {:induction false} InterleavedFieldsMerge(fields: seq<Field>, i: nat, a: Message, m: Message, seen: set<nat>,
          gaps: seq<seq<Unknown>>)
    requires WellFormed(fields) && i <= |fields| == |a.slots| && |gaps| == |fields| + 1
    requires forall j :: 0 <= j < |gaps| ==> WellFormedUnknowns(fields, gaps[j])
    requires forall j :: i <= j < |fields| ==> ReadyField(fields[j], m, j)
    requires forall j :: i <= j < |fields| ==> RoomField(fields[j], j, a, m)
    ensures DecodeLoop(fields, Interleave(fields, i, m, gaps), a, seen)
         == Good(Progress(MergeFrom(fields, i, a, m), SeenFrom(fields, i, m, seen), false), [])
    decreases |fields| - i
  {
    hide EncField, MergeField, WellFormed, ReadyField, SeenAfter, RoomField, WellFormedUnknowns, EncUnknowns;
    if i == |fields| {
      UnknownsAreSkipped(fields, gaps[i], [], a, seen);
      assert EncUnknowns(gaps[i]) + [] == EncUnknowns(gaps[i]);
    } else {
      var later := Interleave(fields, i + 1, m, gaps);
      UnknownsAreSkipped(fields, gaps[i], EncField(fields[i], m, i) + later, a, seen);
      FieldMerge(fields, i, a, m, seen, later);
      var a' := MergeField(fields[i], i, a, m);
      forall j | i + 1 <= j < |fields|
        ensures RoomField(fields[j], j, a', m)
      {
        MergeFieldFrame(fields[i], i, a, m, j);
        RoomIsLocal(fields[j], j, a, a', m);
      }
      hide DecodeLoop;
      InterleavedFieldsMerge(fields, i + 1, a', m, SeenAfter(fields, i, m, seen), gaps);
    }
  }

  /** Whatever unknown fields are put before, between and after the fields of an encoded message,
      the decoder returns the same message as without them. */
  lemma UnknownFieldsAreTransparent(fields: seq<Field>, m: Message, gaps: seq<seq<Unknown>>)
    requires WellFormed(fields) && Ready(fields, m) && |gaps| == |fields| + 1
    requires forall j :: 0 <= j < |gaps| ==> WellFormedUnknowns(fields, gaps[j])
    ensures Decode(fields, Interleave(fields, 0, m, gaps)) == Decode(fields, Encode(fields, m))
  {
    hide DecodeLoop, WellFormed, ReadyField, RoomField, WellFormedUnknowns, EncFrom, MergeFrom, Default, Interleave,
         SeenFrom;
    RoomDefault(fields, m);
    InterleavedFieldsMerge(fields, 0, Default(fields), m, {}, gaps);
    EncodingRunsOn(fields, Default(fields), m);
  }

  // ---- framing ----

  function EncDelimited(fields: seq<Field>, m: Message): seq<Byte>
  {
    EncLengthPrefixed(Encode(fields, m))
  }

  function EncStream(fields: seq<Field>, ms: seq<Message>): seq<Byte>
  {
    if ms == [] then [] else EncDelimited(fields, ms[0]) + EncStream(fields, ms[1..])
  }

  /** n calls of pb_decode_delimited */
  function DecodeStream(fields: seq<Field>, n: nat, s: seq<Byte>): Parse<seq<Message>>
  {
    if n == 0 then Good([], s)
    else
      match DecodeDelimited(fields, s)
      case Bad => Bad
      case Good(m, rest) =>
        match DecodeStream(fields, n - 1, rest)
        case Bad => Bad
        case Good(ms, rest') => Good([m] + ms, rest')
  }

  /** One delimited message: exactly the prefix and the body are consumed. */
  lemma DelimitedMessage(fields: seq<Field>, m: Message, t: seq<Byte>)
    requires WellFormed(fields) && Ready(fields, m) && |Encode(fields, m)| < U32
    ensures DecodeDelimited(fields, EncDelimited(fields, m) + t).Good?
    ensures DecodeDelimited(fields, EncDelimited(fields, m) + t).rest == t
    ensures SameMessage(fields, DecodeDelimited(fields, EncDelimited(fields, m) + t).value, m)
  {
    hide WellFormed, Ready, Encode, Decode, SameMessage, Delimited, EncLengthPrefixed;
    DelimitedRoundTrip(Encode(fields, m), t);
    RoundTrip.RoundTrip(fields, m);
  }

  predicate ReadyStream(fields: seq<Field>, ms: seq<Message>)
  {
    ms != [] ==> Ready(fields, ms[0]) && |Encode(fields, ms[0])| < U32 && ReadyStream(fields, ms[1..])
  }

  /** A stream of delimited messages is recovered in order. */
  lemma {:induction false} StreamRoundTrip(fields: seq<Field>, ms: seq<Message>, t: seq<Byte>)
    requires WellFormed(fields) && ReadyStream(fields, ms)
    ensures DecodeStream(fields, |ms|, EncStream(fields, ms) + t).Good?
    ensures DecodeStream(fields, |ms|, EncStream(fields, ms) + t).rest == t
    ensures SameStream(fields, DecodeStream(fields, |ms|, EncStream(fields, ms) + t).value, ms)
    decreases |ms|
  {
    hide WellFormed, Ready, DecodeDelimited, EncDelimited, SameMessage, Encode;
    if ms == [] {
      assert EncStream(fields, ms) + t == t;
    } else {
      var later := EncStream(fields, ms[1..]) + t;
      Assoc(EncDelimited(fields, ms[0]), EncStream(fields, ms[1..]), t);
      DelimitedMessage(fields, ms[0], later);
      StreamRoundTrip(fields, ms[1..], t);
      HeadTail(DecodeDelimited(fields, EncDelimited(fields, ms[0]) + later).value,
               DecodeStream(fields, |ms| - 1, later).value);
    }
  }

  lemma HeadTail<T>(x: T, xs: seq<T>)
    ensures ([x] + xs)[0] == x && ([x] + xs)[1..] == xs && |[x] + xs| == 1 + |xs|
  {
  }

  predicate SameStream(fields: seq<Field>, ms: seq<Message>, ns: seq<Message>)
  {
    |ms| == |ns| && (ms != [] ==> SameMessage(fields, ms[0], ns[0]) && SameStream(fields, ms[1..], ns[1..]))
  }

  /** A zero byte after an encoded message ends it: whatever follows is left unread. */
  lemma NullTerminatedRoundTrip(fields: seq<Field>, m: Message, junk: seq<Byte>)
    requires WellFormed(fields) && Ready(fields, m)
    ensures Decode(fields, Encode(fields, m) + [0] + junk).Good?
    ensures Decode(fields, Encode(fields, m) + [0] + junk).rest == junk
    ensures SameMessage(fields, Decode(fields, Encode(fields, m) + [0] + junk).value, m)
  {
    hide WellFormed, Ready, EncFrom, MergeFrom, SameMessage, Default, SeenFrom, DecodeLoop, Room;
    RoomDefault(fields, m);
    MergedIsSame(fields, m);
    NoInitMerges(fields, Default(fields), m);
    EncodingRunsOn(fields, Default(fields), m);
    LoopConcat(fields, Encode(fields, m), [0] + junk, Default(fields), {});
    Assoc(Encode(fields, m), [0], junk);
    ZeroStops(fields, junk, Merge(fields, Default(fields), m), SeenFrom(fields, 0, m, {}));
  }

  lemma ZeroStops(fields: seq<Field>, junk: seq<Byte>, m: Message, seen: set<nat>)
    ensures DecodeLoop(fields, [0] + junk, m, seen) == Good(Progress(m, seen, true), junk)
  {
    assert ([0] + junk)[1..] == junk;
    assert DecodeVarint32([0] + junk) == Good(0, junk);
  }

  // ---- the required-field check ----

  /** The table entries met by the field loop, in order. */
  function Met(fields: seq<Field>, s: seq<Byte>, m: Message): seq<nat>
    decreases |s|
  {
    if s == [] || !DecodeTag(s).Tagged? then []
    else
      var tg := DecodeTag(s);
      var p := AfterTag(fields, tg.tag, tg.wt, tg.rest, m, {});
      if !p.Good? || |p.rest| >= |s| then []
      else
        match FindFrom(fields, 0, tg.tag)
        case None => Met(fields, p.rest, p.value.0)
        case Some(i) => [i] + Met(fields, p.rest, p.value.0)
  }

  ghost predicate Occurs(fields: seq<Field>, r: nat, met: seq<nat>)
  {
    exists i :: i in met && i < |fields| && fields[i].rule.Required? && RequiredBefore(fields, i) == r
  }

  /** A fields_seen bit is set exactly when its required field was met. */
  lemma {:induction false} SeenIsMet(fields: seq<Field>, s: seq<Byte>, m: Message, r: nat)
    requires r < MAX_REQUIRED
    ensures DecodeLoop(fields, s, m, {}).Good? ==>
              (r in DecodeLoop(fields, s, m, {}).value.seen <==> Occurs(fields, r, Met(fields, s, m)))
    decreases |s|
  {
    if s != [] {
      hide DecodeLoop, DecodeTag, SkipField, DecodeField, RequiredBefore, FindFrom;
      LoopStep(fields, s, m, {});
      if DecodeTag(s).Tagged? {
        var tg := DecodeTag(s);
        AfterTagShrinks(fields, tg.tag, tg.wt, tg.rest, m, {});
        var p := AfterTag(fields, tg.tag, tg.wt, tg.rest, m, {});
        if p.Good? {
          LoopSeen(fields, p.rest, p.value.0, p.value.1);
          SeenIsMet(fields, p.rest, p.value.0, r);
          if FindFrom(fields, 0, tg.tag).Some? {
            OccursCons(fields, r, FindFrom(fields, 0, tg.tag).value, Met(fields, p.rest, p.value.0));
          }
        }
      }
    }
  }

  lemma OccursCons(fields: seq<Field>, r: nat, i: nat, met: seq<nat>)
    requires i < |fields|
    ensures Occurs(fields, r, [i] + met)
       <==> (fields[i].rule.Required? && RequiredBefore(fields, i) == r) || Occurs(fields, r, met)
  {
    hide RequiredBefore;
    assert i in [i] + met;
    assert forall j :: j in met ==> j in [i] + met;
  }

  ghost predicate AllRequiredMet(fields: seq<Field>, met: seq<nat>)
  {
    forall r: nat :: r < RequiredBefore(fields, |fields|) && r < MAX_REQUIRED ==> Occurs(fields, r, met)
  }

  /** When the field loop goes through, the decoder succeeds iff each of the first 64 required
      fields was met. */
  lemma RequiredCheckIsExact(fields: seq<Field>, s: seq<Byte>, m: Message)
    requires DecodeLoop(fields, s, m, {}).Good?
    ensures DecodeNoInit(fields, s, m).Good? <==> AllRequiredMet(fields, Met(fields, s, m))
  {
    hide DecodeLoop, RequiredBefore, Occurs, Met;
    var seen, met := DecodeLoop(fields, s, m, {}).value.seen, Met(fields, s, m);
    forall r: nat | r < RequiredBefore(fields, |fields|) && r < MAX_REQUIRED
      ensures r in seen <==> Occurs(fields, r, met)
    {
      SeenIsMet(fields, s, m, r);
    }
    if RequiredSeen(fields, seen) {
      forall r: nat | r < RequiredBefore(fields, |fields|) && r < MAX_REQUIRED
        ensures Occurs(fields, r, met)
      {
        assert r in seen;
      }
    } else {
      var r: nat :| r < RequiredBefore(fields, |fields|) && r < MAX_REQUIRED && r !in seen;
      assert !Occurs(fields, r, met);
      assert !AllRequiredMet(fields, met);
    }
  }
}
