/** Which fields go out at all: proto3 fields without a has_ flag are sent exactly when they are not zero. */
module Presence {
  import opened Common
  import opened Varint
  import opened Schema
  import opened Encoding
  import opened Scalars

  /** A field that is sent has at least its tag. */
  lemma SentHasBytes(f: Field, m: Message, i: nat)
    ensures EncField(f, m, i) == [] <==> !Carried(f, m, i)
  {
    hide EncodeVarint, EncValue, EncPacked, EncLengthPrefixed, IsDefault;
  }

  /** A proto3 number, string or byte array is left out exactly when it is 0 or empty. */
  lemma ZeroIsOmitted(f: Field, m: Message, i: nat)
    requires WellFormedField(f) && f.rule.Implicit? && !f.kind.Sub? && ReadyField(f, m, i)
    ensures EncField(f, m, i) == [] <==> SlotAt(m, i).v == IntV(0) || SlotAt(m, i).v == BytesV([])
  {
    hide WellFormed, EncField, InRange;
    SentHasBytes(f, m, i);
  }

  /** The which_ variable of every oneof is 0 or the tag of one of its members. */
  ghost predicate Named(fields: seq<Field>, m: Message)
  {
    forall i, g :: 0 <= i < |fields| && fields[i].rule == OneOf(g) && Which(m, g) != 0 ==>
                     exists j :: 0 <= j < |fields| && fields[j].rule == OneOf(g) && fields[j].tag == Which(m, g)
  }

  lemma {:induction false} NothingFrom(fields: seq<Field>, i: nat, m: Message)
    ensures EncFrom(fields, i, m) == [] <==> forall j :: i <= j < |fields| ==> EncField(fields[j], m, j) == []
    decreases |fields| - i
  {
    hide EncField;
    if i < |fields| {
      NothingFrom(fields, i + 1, m);
    }
  }

  /** The encoder's own test of a submessage's fields against what they would send. */
  lemma DefaultsAreUnsent(fields: seq<Field>, m: Message)
    requires WellFormed(fields) && Named(fields, m) && Ready(fields, m)
    ensures (forall j :: 0 <= j < |fields| ==> IsDefault(fields[j], m, j)) <==> Encode(fields, m) == []
  {
    hide IsDefault, EncField, WellFormedField, ReadyItems, ReadyValue;
    NothingFrom(fields, 0, m);
    forall j | 0 <= j < |fields|
      ensures fields[j].tag > 0
      ensures EncField(fields[j], m, j) == [] <==> !Carried(fields[j], m, j)
    {
      SentHasBytes(fields[j], m, j);
      TableField(fields, j);
      Tagged(fields[j]);
    }
    forall j | 0 <= j < |fields| && !fields[j].rule.OneOf?
      ensures IsDefault(fields[j], m, j) <==> !Carried(fields[j], m, j)
    {
      assert ReadyField(fields[j], m, j);
      DefaultIsUncarried(fields[j], m, j);
    }
    forall j | 0 <= j < |fields| && fields[j].rule.OneOf?
      ensures IsDefault(fields[j], m, j) <==> Which(m, fields[j].rule.group) == 0
    {
      OneOfDefault(fields[j], m, j);
    }
  }

  lemma Tagged(f: Field)
    requires WellFormedField(f)
    ensures f.tag > 0
  {
  }

  lemma DefaultIsUncarried(f: Field, m: Message, i: nat)
    requires !f.rule.OneOf? && (f.rule.Optional? ==> SlotAt(m, i).Opt?)
    ensures IsDefault(f, m, i) <==> !Carried(f, m, i)
  {
  }

  lemma OneOfDefault(f: Field, m: Message, i: nat)
    requires f.rule.OneOf?
    ensures IsDefault(f, m, i) <==> Which(m, f.rule.group) == 0
  {
  }

  /** A proto3 submessage is left out exactly when its own encoding is empty. */
  lemma EmptySubIsOmitted(f: Field, m: Message, i: nat)
    requires WellFormedField(f) && f.rule.Implicit? && f.kind.Sub? && ReadyField(f, m, i)
    requires Named(f.kind.fields, MsgOf(CurOf(SlotAt(m, i))))
    ensures EncField(f, m, i) == [] <==> Encode(f.kind.fields, MsgOf(CurOf(SlotAt(m, i)))) == []
  {
    SentHasBytes(f, m, i);
    SubInit(f);
    DefaultsAreUnsent(f.kind.fields, SlotAt(m, i).v.m);
    hide WellFormed, EncField, EncFrom, Named, Ready;
  }

  // ---- whole proto3 messages ----

  /** Tables as the proto3 compiler makes them. */
  predicate Proto3(fields: seq<Field>)
    decreases fields
  {
    forall i :: 0 <= i < |fields| ==> Proto3Field(fields[i])
  }

  predicate Proto3Field(f: Field)
    decreases f
  {
    (f.rule.Implicit? || f.rule.Repeated? || f.rule.OneOf?) && (f.kind.Sub? ==> Proto3(f.kind.fields))
  }

  predicate ZeroField(f: Field, m: Message, i: nat)
    decreases f, 1
  {
    match f.rule
    case Repeated => SlotAt(m, i) == Rep([])
    case OneOf(g) => Which(m, g) == 0
    case _ =>
      if f.kind.Sub? then SlotAt(m, i).One? && SlotAt(m, i).v.MsgV? && Zero(f.kind.fields, SlotAt(m, i).v.m)
      else SlotAt(m, i) == One(IntV(0)) || SlotAt(m, i) == One(BytesV([]))
  }

  /** Every number 0, every string and array empty, no oneof selected, at every depth. */
  predicate Zero(fields: seq<Field>, m: Message)
    decreases fields
  {
    forall i :: 0 <= i < |fields| ==> ZeroField(fields[i], m, i)
  }

  ghost predicate NamedField(f: Field, m: Message, i: nat)
    decreases f, 1
  {
    f.rule.Implicit? && f.kind.Sub? && SlotAt(m, i).One? && SlotAt(m, i).v.MsgV? ==>
      NamedDeep(f.kind.fields, SlotAt(m, i).v.m)
  }

  ghost predicate NamedDeep(fields: seq<Field>, m: Message)
    decreases fields
  {
    Named(fields, m) && forall i :: 0 <= i < |fields| ==> NamedField(fields[i], m, i)
  }

  lemma {:induction false} FieldUnsentExactly(fields: seq<Field>, m: Message, i: nat)
    requires WellFormed(fields) && Proto3(fields) && Ready(fields, m) && NamedDeep(fields, m)
    requires i < |fields| && !fields[i].rule.OneOf?
    ensures EncField(fields[i], m, i) == [] <==> ZeroField(fields[i], m, i)
    decreases fields[i], 2
  {
    var f := fields[i];
    TableField(fields, i);
    assert ReadyField(f, m, i) && NamedField(f, m, i) && Proto3Field(f);
    if f.rule.Repeated? {
      SentHasBytes(f, m, i);
    } else if f.kind.Sub? {
      SubInit(f);
      EmptySubIsOmitted(f, m, i);
      EmptyExactly(f.kind.fields, SlotAt(m, i).v.m);
    } else {
      hide EncField;
      ZeroIsOmitted(f, m, i);
    }
  }

  /** A proto3 message encodes to nothing exactly when it is zero through and through. */
  lemma {:induction false} EmptyExactly(fields: seq<Field>, m: Message)
    requires WellFormed(fields) && Proto3(fields) && Ready(fields, m) && NamedDeep(fields, m)
    ensures Encode(fields, m) == [] <==> Zero(fields, m)
    decreases fields
  {
    hide EncField, WellFormedField, ReadyField, NamedField, Proto3Field;
    NothingFrom(fields, 0, m);
    forall i | 0 <= i < |fields| && !fields[i].rule.OneOf?
      ensures EncField(fields[i], m, i) == [] <==> ZeroField(fields[i], m, i)
    {
      FieldUnsentExactly(fields, m, i);
    }
    forall i | 0 <= i < |fields| && fields[i].rule.OneOf?
      ensures EncField(fields[i], m, i) == [] <==> Which(m, fields[i].rule.group) != fields[i].tag
      ensures fields[i].tag > 0
      ensures ZeroField(fields[i], m, i) <==> Which(m, fields[i].rule.group) == 0
    {
      SentHasBytes(fields[i], m, i);
      TableField(fields, i);
      Tagged(fields[i]);
    }
  }
}
