/** Fields unknown to the table may stand between any two fields of any stream, at any depth. */
module UnknownFields {
  import opened Common
  import opened Varint
  import opened Schema
  import opened Encoding
  import opened Decoding
  import opened Streaming
  import opened Scalars
  import opened Merging
  import opened Wire

  /** Bytes that the field loop, started on m, reads as a run of whole fields. */
  predicate WholeRun(fields: seq<Field>, s: seq<Byte>, m: Message)
  {
    DecodeLoop(fields, s, m, {}).Good? && !DecodeLoop(fields, s, m, {}).value.stopped
  }

  /** Unknown fields behind any run of whole fields, whatever follows, are without effect: the bytes need
      not be canonical, and the place may be between two elements of one repeated field. */
  lemma UnknownsAfterWholeFields(fields: seq<Field>, s: seq<Byte>, us: seq<Unknown>, t: seq<Byte>, m: Message)
    requires WellFormedUnknowns(fields, us)
    ensures WholeRun(fields, s, m) ==>
              DecodeLoop(fields, s + (EncUnknowns(us) + t), m, {}) == DecodeLoop(fields, s + t, m, {})
  {
    hide DecodeLoop, WellFormedUnknowns;
    if WholeRun(fields, s, m) {
      var p := DecodeLoop(fields, s, m, {}).value;
      LoopConcat(fields, s, EncUnknowns(us) + t, m, {});
      LoopConcat(fields, s, t, m, {});
      UnknownsAreSkipped(fields, us, t, p.m, p.seen);
    }
  }

  // ---- inside submessages ----

  /** A place in a stream: between `before` and `after`, or inside the submessage field of entry i that
      stands between them. */
  datatype Spot =
    | Here(before: seq<Byte>, after: seq<Byte>)
    | Inside(before: seq<Byte>, i: nat, inner: Spot, after: seq<Byte>)

  predicate SpotIn(fields: seq<Field>, spot: Spot)
    decreases spot
  {
    spot.Inside? ==> spot.i < |fields| && fields[spot.i].kind.Sub? && SpotIn(fields[spot.i].kind.fields, spot.inner)
  }

  /** The field table in force at the place */
  function TableAt(fields: seq<Field>, spot: Spot): seq<Field>
    requires SpotIn(fields, spot)
    decreases spot
  {
    if spot.Here? then fields else TableAt(fields[spot.i].kind.fields, spot.inner)
  }

  /** The stream with bytes x put at the place, and every length around it adjusted */
  function Filled(fields: seq<Field>, spot: Spot, x: seq<Byte>): seq<Byte>
    requires SpotIn(fields, spot)
    decreases spot
  {
    match spot
    case Here(before, after) => before + (x + after)
    case Inside(before, i, inner, after) =>
      before + (EncTag(fields[i]) + (EncLengthPrefixed(Filled(fields[i].kind.fields, inner, x)) + after))
  }

  /** No submessage around the place grows to 2^32 bytes. */
  predicate Representable(fields: seq<Field>, spot: Spot, x: seq<Byte>)
    requires SpotIn(fields, spot)
    decreases spot
  {
    spot.Inside? ==>
      && |Filled(fields[spot.i].kind.fields, spot.inner, x)| < U32
      && Representable(fields[spot.i].kind.fields, spot.inner, x)
  }

  /** At every depth the bytes before the place are whole fields for the decoder that meets them. */
  predicate AtBoundary(fields: seq<Field>, spot: Spot, m: Message)
    requires SpotIn(fields, spot)
    decreases spot
  {
    && WholeRun(fields, spot.before, m)
    && (spot.Inside? ==>
          AtBoundary(fields[spot.i].kind.fields, spot.inner,
                     MsgOf(Base(fields[spot.i], DecodeLoop(fields, spot.before, m, {}).value.m, spot.i))))
  }

  /** Two bodies that decode alike make submessage fields that decode alike. */
  lemma SameBody(f: Field, i: nat, b: seq<Byte>, c: seq<Byte>, t: seq<Byte>, m: Message)
    requires f.kind.Sub? && |b| < U32 && |c| < U32
    requires DecodeNoInit(f.kind.fields, b, MsgOf(Base(f, m, i)))
          == DecodeNoInit(f.kind.fields, c, MsgOf(Base(f, m, i)))
    ensures DecodeField(f, i, WireType(f.kind), EncLengthPrefixed(b) + t, m)
         == DecodeField(f, i, WireType(f.kind), EncLengthPrefixed(c) + t, m)
  {
    hide Delimited, EncLengthPrefixed, DecodeNoInit, Default, DecPacked, Store;
    DelimitedRoundTrip(b, t);
    DelimitedRoundTrip(c, t);
  }

  lemma SameBodyInLoop(fields: seq<Field>, i: nat, b: seq<Byte>, c: seq<Byte>, t: seq<Byte>, m: Message,
                       seen: set<nat>)
    requires WellFormed(fields) && i < |fields| && fields[i].kind.Sub? && |b| < U32 && |c| < U32
    requires DecodeNoInit(fields[i].kind.fields, b, MsgOf(Base(fields[i], m, i)))
          == DecodeNoInit(fields[i].kind.fields, c, MsgOf(Base(fields[i], m, i)))
    ensures DecodeLoop(fields, EncTag(fields[i]) + (EncLengthPrefixed(b) + t), m, seen)
         == DecodeLoop(fields, EncTag(fields[i]) + (EncLengthPrefixed(c) + t), m, seen)
  {
    hide *;
    SameBody(fields[i], i, b, c, t, m);
    SameFieldInLoop(fields, i, EncLengthPrefixed(b) + t, EncLengthPrefixed(c) + t, m, seen);
  }

  /** Behind its tag, what a field decodes to is all that matters. */
  lemma SameFieldInLoop(fields: seq<Field>, i: nat, p: seq<Byte>, q: seq<Byte>, m: Message, seen: set<nat>)
    requires WellFormed(fields) && i < |fields|
    requires DecodeField(fields[i], i, WireType(fields[i].kind), p, m)
          == DecodeField(fields[i], i, WireType(fields[i].kind), q, m)
    ensures DecodeLoop(fields, EncTag(fields[i]) + p, m, seen) == DecodeLoop(fields, EncTag(fields[i]) + q, m, seen)
  {
    hide *;
    TagOf(fields[i]);
    KnownTag(fields, i, WireType(fields[i].kind), p, m, seen);
    KnownTag(fields, i, WireType(fields[i].kind), q, m, seen);
  }

  lemma TagOf(f: Field)
    ensures EncTag(f) == EncodeVarint(8 * f.tag + WireType(f.kind))
  {
  }

  /** The decoder computes the same with unknown fields at the place as without. */
  lemma {:induction false} UnknownsAreTransparentAt(fields: seq<Field>, spot: Spot, us: seq<Unknown>, m: Message)
    requires WellFormed(fields) && SpotIn(fields, spot) && WellFormedUnknowns(TableAt(fields, spot), us)
    requires AtBoundary(fields, spot, m)
    requires Representable(fields, spot, EncUnknowns(us)) && Representable(fields, spot, [])
    ensures DecodeLoop(fields, Filled(fields, spot, EncUnknowns(us)), m, {})
         == DecodeLoop(fields, Filled(fields, spot, []), m, {})
    ensures DecodeNoInit(fields, Filled(fields, spot, EncUnknowns(us)), m)
         == DecodeNoInit(fields, Filled(fields, spot, []), m)
    decreases spot
  {
    hide DecodeLoop, WellFormedUnknowns, EncUnknowns, EncTag, EncLengthPrefixed, Base, WellFormed, RequiredSeen;
    match spot {
      case Here(before, after) =>
        UnknownsAfterWholeFields(fields, before, us, after, m);
        assert [] + after == after;
      case Inside(before, i, inner, after) =>
        var p := DecodeLoop(fields, before, m, {}).value;
        SubTable(fields, i);
        UnknownsAreTransparentAt(fields[i].kind.fields, inner, us, MsgOf(Base(fields[i], p.m, i)));
        var b := Filled(fields[i].kind.fields, inner, EncUnknowns(us));
        var c := Filled(fields[i].kind.fields, inner, []);
        SameBodyInLoop(fields, i, b, c, after, p.m, p.seen);
        LoopConcat(fields, before, EncTag(fields[i]) + (EncLengthPrefixed(b) + after), m, {});
        LoopConcat(fields, before, EncTag(fields[i]) + (EncLengthPrefixed(c) + after), m, {});
    }
  }

  lemma SubTable(fields: seq<Field>, i: nat)
    requires WellFormed(fields) && i < |fields| && fields[i].kind.Sub?
    ensures WellFormed(fields[i].kind.fields)
  {
    TableField(fields, i);
    SubInit(fields[i]);
  }
}
