/** Decoding into a fresh structure gives the message back. */
module RoundTrip {
  import opened Common
  import opened Schema
  import opened Encoding
  import opened Decoding
  import opened Merging

  // ---- a fresh structure has room for everything ----

  lemma DefaultSlot(fields: seq<Field>, i: nat)
    requires i < |fields|
    ensures |Default(fields).slots| == |fields| && SlotAt(Default(fields), i) == InitSlot(fields[i])
    ensures Default(fields).which == map[]
  {
    hide InitSlot;
  }

  lemma {:induction false} RoomInit(f: Field, v: Value)
    requires WellFormedField(f) && ReadyValue(f, v)
    ensures RoomValue(f, InitValue(f), v)
    decreases f, 0
  {
    if f.kind.Sub? {
      SubInit(f);
      RoomDefault(f.kind.fields, MsgOf(v));
    }
  }

  lemma {:induction false} RoomInitItems(f: Field, items: seq<Value>)
    requires WellFormedField(f) && ReadyItems(f, items)
    ensures RoomItems(f, items)
    decreases f, 1, |items|
  {
    if items != [] {
      RoomInit(f, items[0]);
      RoomInitItems(f, items[1..]);
    }
  }

  lemma {:induction false} RoomInitField(fields: seq<Field>, i: nat, m: Message)
    requires WellFormed(fields) && i < |fields| && ReadyField(fields[i], m, i)
    ensures RoomField(fields[i], i, Default(fields), m)
    decreases fields[i], 2
  {
    hide WellFormed, WellFormedField, ReadyValue, ReadyItems, RoomValue, RoomItems, InitValue, Default, IsDefault;
    var f, t := fields[i], SlotAt(m, i);
    TableField(fields, i);
    DefaultSlot(fields, i);
    if Carried(f, m, i) {
      if t.Rep? {
        RoomInitItems(f, t.items);
      } else {
        RoomInit(f, t.v);
      }
    }
  }

  lemma {:induction false} RoomDefault(fields: seq<Field>, m: Message)
    requires WellFormed(fields) && Ready(fields, m)
    ensures Room(fields, Default(fields), m)
    decreases fields
  {
    hide RoomField, ReadyField, WellFormedField;
    forall i | 0 <= i < |fields|
      ensures RoomField(fields[i], i, Default(fields), m)
    {
      RoomInitField(fields, i, m);
    }
  }

  // ---- what a merge leaves in each slot ----

  lemma {:induction false} MergeSlot(fields: seq<Field>, k: nat, a: Message, b: Message, i: nat)
    requires k <= |fields|
    ensures i < k || i >= |fields| ==> SlotAt(MergeFrom(fields, k, a, b), i) == SlotAt(a, i)
    ensures k <= i < |fields| ==> SlotAt(MergeFrom(fields, k, a, b), i) == SlotAt(MergeField(fields[i], i, a, b), i)
    decreases |fields| - k
  {
    hide MergeField;
    if k < |fields| {
      var a' := MergeField(fields[k], k, a, b);
      MergeSlot(fields, k + 1, a', b, i);
      if i != k {
        MergeFieldFrame(fields[k], k, a, b, i);
      }
      if k < i < |fields| {
        MergeFieldLocal(fields[i], i, a, a', b);
      }
    }
  }

  lemma MergeFieldLocal(f: Field, i: nat, a: Message, a': Message, b: Message)
    requires SlotAt(a', i) == SlotAt(a, i) && |a'.slots| == |a.slots|
    ensures SlotAt(MergeField(f, i, a', b), i) == SlotAt(MergeField(f, i, a, b), i)
  {
    hide MergeValue, MergeItems, InitValue, IsDefault;
  }

  lemma MergeFieldWhich(f: Field, i: nat, a: Message, b: Message, g: nat)
    ensures Which(MergeField(f, i, a, b), g)
         == if f.rule == OneOf(g) && Which(b, g) == f.tag then f.tag else Which(a, g)
  {
    hide MergeValue, MergeItems, InitValue, IsDefault;
  }

  /** The selection of a oneof after a merge: b's if it names a member of the table, else a's. */
  lemma {:induction false} MergeWhich(fields: seq<Field>, k: nat, a: Message, b: Message, g: nat)
    requires k <= |fields|
    ensures var w := Which(MergeFrom(fields, k, a, b), g); w == Which(b, g) || w == Which(a, g)
    ensures (exists i :: k <= i < |fields| && fields[i].rule == OneOf(g) && fields[i].tag == Which(b, g))
              ==> Which(MergeFrom(fields, k, a, b), g) == Which(b, g)
    decreases |fields| - k
  {
    hide MergeField, Which;
    if k < |fields| {
      MergeFieldWhich(fields[k], k, a, b, g);
      MergeWhich(fields, k + 1, MergeField(fields[k], k, a, b), b, g);
    }
  }

  // ---- merged into a fresh structure, a message is itself ----

  /** A proto3 field that was left out because it is "zero" is what the defaults already hold. */
  lemma {:induction false} DefaultIsSame(f: Field, m: Message, i: nat)
    requires WellFormedField(f) && f.rule.Implicit?
    requires SlotAt(m, i).One? && ReadyValue(f, SlotAt(m, i).v) && IsDefault(f, m, i)
    ensures SameValue(f, InitValue(f), SlotAt(m, i).v)
    decreases f, 0
  {
    if f.kind.Sub? {
      var fs, n := f.kind.fields, SlotAt(m, i).v.m;
      SubInit(f);
      forall j | 0 <= j < |fs|
        ensures SameField(fs[j], Default(fs), n, j)
      {
        TableField(fs, j);
        DefaultSlot(fs, j);
        assert ReadyField(fs[j], n, j) && IsDefault(fs[j], n, j);
        DefaultFieldIsSame(fs, n, j);
      }
    }
  }

  lemma {:induction false} DefaultFieldIsSame(fs: seq<Field>, n: Message, j: nat)
    requires j < |fs| && WellFormedField(fs[j]) && ReadyField(fs[j], n, j) && IsDefault(fs[j], n, j)
    ensures SameField(fs[j], Default(fs), n, j)
    decreases fs[j], 1
  {
    DefaultSlot(fs, j);
    if fs[j].rule.Implicit? {
      DefaultIsSame(fs[j], n, j);
    }
    hide WellFormed, ReadyValue, ReadyItems, SameValue, InitValue, Default;
  }

  lemma {:induction false} MergedValueIsSame(f: Field, v: Value)
    requires WellFormedField(f) && ReadyValue(f, v)
    ensures SameValue(f, MergeValue(f, InitValue(f), v), v)
    decreases f, 0
  {
    if f.kind.Sub? {
      SubInit(f);
      MergedIsSame(f.kind.fields, v.m);
    }
  }

  lemma {:induction false} MergedItemsAreSame(f: Field, items: seq<Value>, k: nat)
    requires WellFormedField(f) && ReadyItems(f, items) && k < |items|
    ensures SameValue(f, MergeItems(f, items)[k], items[k])
    decreases f, 1, |items|
  {
    hide SameValue, MergeValue, InitValue, ReadyValue, WellFormedField;
    if k == 0 {
      MergedValueIsSame(f, items[0]);
    } else {
      MergedItemsAreSame(f, items[1..], k - 1);
    }
  }

  lemma {:induction false} MergedFieldIsSame(fields: seq<Field>, m: Message, i: nat)
    requires WellFormed(fields) && i < |fields| && ReadyField(fields[i], m, i)
    ensures SameField(fields[i], Merge(fields, Default(fields), m), m, i)
    decreases fields[i], 2
  {
    hide WellFormed, WellFormedField, ReadyValue, ReadyItems, SameValue, MergeValue, MergeItems, MergeFrom, InitValue,
         Default, IsDefault;
    var f, s := fields[i], SlotAt(m, i);
    TableField(fields, i);
    DefaultSlot(fields, i);
    MergeSlot(fields, 0, Default(fields), m, i);
    match f.rule {
      case Repeated =>
        forall k | 0 <= k < |s.items|
          ensures SameValue(f, MergeItems(f, s.items)[k], s.items[k])
        {
          MergedItemsAreSame(f, s.items, k);
        }
        EmptyThen(MergeItems(f, s.items));
      case OneOf(g) =>
        TagPositive(f);
        MergeWhich(fields, 0, Default(fields), m, g);
        if Which(m, g) == f.tag {
          MergedValueIsSame(f, s.v);
        }
      case Implicit =>
        if Carried(f, m, i) { MergedValueIsSame(f, s.v); } else { DefaultIsSame(f, m, i); }
      case _ =>
        if Carried(f, m, i) { MergedValueIsSame(f, s.v); }
    }
  }

  lemma EmptyThen<T>(x: seq<T>)
    ensures [] + x == x
  {
  }

  lemma TagPositive(f: Field)
    requires WellFormedField(f)
    ensures f.tag > 0
  {
  }

  lemma {:induction false} MergedIsSame(fields: seq<Field>, m: Message)
    requires WellFormed(fields) && Ready(fields, m)
    ensures SameMessage(fields, Merge(fields, Default(fields), m), m)
    decreases fields
  {
    hide SameField, ReadyField, WellFormedField, MergeFrom, Default;
    forall i | 0 <= i < |fields|
      ensures SameField(fields[i], Merge(fields, Default(fields), m), m, i)
    {
      MergedFieldIsSame(fields, m, i);
    }
  }

  /** pb_decode undoes pb_encode: every well-formed table, every valid message, all bytes used. */
  lemma RoundTrip(fields: seq<Field>, m: Message)
    requires WellFormed(fields) && Ready(fields, m)
    ensures Decode(fields, Encode(fields, m)).Good? && Decode(fields, Encode(fields, m)).rest == []
    ensures SameMessage(fields, Decode(fields, Encode(fields, m)).value, m)
  {
    hide WellFormed, Ready, Encode, DecodeNoInit, Merge, Default, SameMessage, Room;
    RoomDefault(fields, m);
    NoInitMerges(fields, Default(fields), m);
    MergedIsSame(fields, m);
  }
}
