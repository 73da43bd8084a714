/** What the decoder leaves in fields that the input does not mention: their declared defaults. */
module Defaults {
  import opened Common
  import opened Schema
  import opened Decoding
  import opened Streaming
  import opened Merging
  import opened Wire

  // ---- declared contents ----

  /** Zero bytes all over */
  predicate ZeroValue(f: Field, v: Value)
  {
    match f.kind
    case Bytes => v == BytesV([])
    case Str => v == BytesV([])
    case FixedBytes => v.BytesV? && |v.b| == f.dataSize && forall k :: 0 <= k < |v.b| ==> v.b[k] == 0
    case _ => v == IntV(0)
  }

  /** The default the table declares, or zero where it declares none; in submessages, for each field. */
  predicate DeclaredValue(f: Field, v: Value)
    decreases f, 0
  {
    match f.kind
    case Sub(fs) => v.MsgV? && Declared(fs, v.m)
    case _ => if f.dflt.Some? then v == f.dflt.value else ZeroValue(f, v)
  }

  predicate DeclaredSlot(f: Field, s: Slot)
    decreases f, 1
  {
    match f.rule
    case Optional => s.Opt? && !s.has && DeclaredValue(f, s.v)
    case Repeated => s == Rep([])
    case _ => s.One? && DeclaredValue(f, s.v)
  }

  predicate Declared(fields: seq<Field>, m: Message)
    decreases fields
  {
    && |m.slots| == |fields| && m.which == map[]
    && forall i :: 0 <= i < |fields| ==> DeclaredSlot(fields[i], SlotAt(m, i))
  }

  lemma {:induction false} InitIsDeclared(f: Field)
    ensures DeclaredValue(f, InitValue(f)) && DeclaredSlot(f, InitSlot(f))
    decreases f
  {
    if f.kind.Sub? {
      DefaultIsDeclared(f.kind.fields);
    }
  }

  /** pb_message_set_to_defaults puts the declared default into every field, at every depth. */
  lemma {:induction false} DefaultIsDeclared(fields: seq<Field>)
    ensures Declared(fields, Default(fields))
    decreases fields
  {
    hide DeclaredSlot, InitSlot;
    forall i | 0 <= i < |fields|
      ensures DeclaredSlot(fields[i], SlotAt(Default(fields), i))
    {
      InitIsDeclared(fields[i]);
    }
  }

  // ---- fields that are not met ----

  lemma DecodeFieldFrame(f: Field, i: nat, wt: nat, s: seq<Byte>, m: Message, j: nat)
    requires j != i && DecodeField(f, i, wt, s, m).Good?
    ensures SlotAt(DecodeField(f, i, wt, s, m).value, j) == SlotAt(m, j)
  {
    hide Delimited, DecPacked, DecValue, InitValue;
  }

  /** What the loop has after one record does not depend on the required bits. */
  lemma AfterTagMessage(fields: seq<Field>, tag: nat, wt: nat, s: seq<Byte>, m: Message, seen: set<nat>)
    ensures var p, q := AfterTag(fields, tag, wt, s, m, seen), AfterTag(fields, tag, wt, s, m, {});
            p.Good? == q.Good? && (p.Good? ==> p.value.0 == q.value.0 && p.rest == q.rest)
  {
    hide SkipField, DecodeField, Mark;
  }

  /** The decoder writes to no entry but those it meets. */
  lemma {:induction false} UnmetIsKept(fields: seq<Field>, s: seq<Byte>, m: Message, seen: set<nat>, i: nat)
    requires DecodeLoop(fields, s, m, seen).Good? && i !in Met(fields, s, m)
    ensures SlotAt(DecodeLoop(fields, s, m, seen).value.m, i) == SlotAt(m, i)
    decreases |s|
  {
    if s != [] {
      hide DecodeLoop, DecodeTag, SkipField, DecodeField, FindFrom, Mark, SlotAt;
      LoopStep(fields, s, m, seen);
      if DecodeTag(s).Tagged? {
        var tg := DecodeTag(s);
        AfterTagShrinks(fields, tg.tag, tg.wt, tg.rest, m, seen);
        AfterTagMessage(fields, tg.tag, tg.wt, tg.rest, m, seen);
        var p := AfterTag(fields, tg.tag, tg.wt, tg.rest, m, seen);
        var found := FindFrom(fields, 0, tg.tag);
        if found.Some? {
          DecodeFieldFrame(fields[found.value], found.value, tg.wt, tg.rest, m, i);
        }
        UnmetIsKept(fields, p.rest, p.value.0, p.value.1, i);
      }
    }
  }

  /** After pb_decode, an entry the input does not mention holds its declared default. */
  lemma UnmetIsDeclared(fields: seq<Field>, s: seq<Byte>, i: nat)
    requires Decode(fields, s).Good? && i < |fields| && i !in Met(fields, s, Default(fields))
    ensures DeclaredSlot(fields[i], SlotAt(Decode(fields, s).value, i))
  {
    hide DecodeLoop, Met, Default, DeclaredSlot;
    UnmetIsKept(fields, s, Default(fields), {}, i);
    DefaultIsDeclared(fields);
  }

  // ---- the same inside submessages ----

  /** A way down through submessages that are not arrays, to a number, string or byte array */
  predicate PathIn(fields: seq<Field>, path: seq<nat>)
    decreases |path|
  {
    && path != [] && path[0] < |fields| && !fields[path[0]].rule.Repeated?
    && if |path| == 1 then !fields[path[0]].kind.Sub?
       else fields[path[0]].kind.Sub? && PathIn(fields[path[0]].kind.fields, path[1..])
  }

  /** The value at the end of the path is the declared default of its field. */
  predicate DeclaredAt(fields: seq<Field>, m: Message, path: seq<nat>)
    requires PathIn(fields, path)
    decreases |path|
  {
    var v := CurOf(SlotAt(m, path[0]));
    && |m.slots| == |fields|
    && if |path| == 1 then DeclaredValue(fields[path[0]], v)
       else DeclaredAt(fields[path[0]].kind.fields, MsgOf(v), path[1..])
  }

  /** The input, decoded into m, mentions the field at the end of the path: in some occurrence of the
      submessages around it. */
  predicate MetAt(fields: seq<Field>, s: seq<Byte>, m: Message, path: seq<nat>)
    requires PathIn(fields, path)
    decreases |path|, |s|
  {
    DecodeTag(s).Tagged? &&
    var tg := DecodeTag(s);
    var p := AfterTag(fields, tg.tag, tg.wt, tg.rest, m, {});
    p.Good? && |p.rest| < |s| &&
    ((FindFrom(fields, 0, tg.tag) == Some(path[0]) && (|path| == 1 || MetInBody(fields, tg.rest, m, path)))
     || MetAt(fields, p.rest, p.value.0, path))
  }

  predicate MetInBody(fields: seq<Field>, s: seq<Byte>, m: Message, path: seq<nat>)
    requires PathIn(fields, path) && |path| > 1
    decreases |path|, 0
  {
    && Delimited(s).Good?
    && MetAt(fields[path[0]].kind.fields, Delimited(s).value, MsgOf(Base(fields[path[0]], m, path[0])), path[1..])
  }

  lemma {:induction false} DeclaredDown(fields: seq<Field>, m: Message, path: seq<nat>)
    requires PathIn(fields, path) && Declared(fields, m)
    ensures DeclaredAt(fields, m, path)
    decreases |path|
  {
    var f := fields[path[0]];
    var v := CurOf(SlotAt(m, path[0]));
    assert DeclaredSlot(f, SlotAt(m, path[0]));
    assert DeclaredValue(f, v);
    if |path| > 1 {
      assert Declared(f.kind.fields, v.m);
      DeclaredDown(f.kind.fields, v.m, path[1..]);
    }
  }

  lemma BaseIsDeclared(fields: seq<Field>, m: Message, path: seq<nat>)
    requires PathIn(fields, path) && |path| > 1 && DeclaredAt(fields, m, path)
    ensures DeclaredAt(fields[path[0]].kind.fields, MsgOf(Base(fields[path[0]], m, path[0])), path[1..])
  {
    var f := fields[path[0]];
    SubInit(f);
    DefaultIsDeclared(f.kind.fields);
    DeclaredDown(f.kind.fields, Default(f.kind.fields), path[1..]);
    hide Default, Declared;
  }

  lemma SubValue(f: Field, s: seq<Byte>, cur: Value)
    requires f.kind.Sub? && !f.rule.Repeated? && DecValue(f, s, cur).Good?
    ensures Delimited(s).Good?
    ensures var r := DecodeLoop(f.kind.fields, Delimited(s).value, MsgOf(cur), {});
            r.Good? && DecValue(f, s, cur).value == MsgV(r.value.m)
  {
    hide Delimited, DecodeLoop, RequiredSeen, DecInt;
  }

  /** Decoding one submessage field: its value comes from the body and what it is merged into. */
  lemma SubField(f: Field, i: nat, wt: nat, s: seq<Byte>, m: Message)
    requires f.kind.Sub? && !f.rule.Repeated? && DecodeField(f, i, wt, s, m).Good? && i < |m.slots|
    ensures Delimited(s).Good?
    ensures var r := DecodeLoop(f.kind.fields, Delimited(s).value, MsgOf(Base(f, m, i)), {});
            r.Good? && CurOf(SlotAt(DecodeField(f, i, wt, s, m).value, i)) == MsgV(r.value.m)
  {
    hide Delimited, DecodeLoop, DecPacked, InitValue, DecValue;
    SubValue(f, s, Base(f, m, i));
  }

  /** Where the input does not mention it, a declared default stays, whatever else is decoded around it. */
  lemma {:induction false} UnmetAtIsDeclared(fields: seq<Field>, s: seq<Byte>, m: Message, seen: set<nat>,
                                             path: seq<nat>)
    requires PathIn(fields, path) && DeclaredAt(fields, m, path)
    requires DecodeLoop(fields, s, m, seen).Good? && !MetAt(fields, s, m, path)
    ensures DeclaredAt(fields, DecodeLoop(fields, s, m, seen).value.m, path)
    decreases |path|, |s|
  {
    if s != [] {
      hide DecodeLoop, DecodeTag, SkipField, DecodeField, FindFrom, Mark, DeclaredAt, PathIn, AfterTag, MetInBody;
      LoopStep(fields, s, m, seen);
      if DecodeTag(s).Tagged? {
        var tg := DecodeTag(s);
        AfterTagShrinks(fields, tg.tag, tg.wt, tg.rest, m, seen);
        AfterTagMessage(fields, tg.tag, tg.wt, tg.rest, m, seen);
        var p := AfterTag(fields, tg.tag, tg.wt, tg.rest, m, seen);
        RecordKeepsDeclared(fields, tg.tag, tg.wt, tg.rest, m, seen, path);
        UnmetAtIsDeclared(fields, p.rest, p.value.0, p.value.1, path);
      }
    }
  }

  lemma {:induction false} RecordKeepsDeclared(fields: seq<Field>, tag: nat, wt: nat, s: seq<Byte>, m: Message,
                                               seen: set<nat>, path: seq<nat>)
    requires PathIn(fields, path) && DeclaredAt(fields, m, path)
    requires AfterTag(fields, tag, wt, s, m, seen).Good?
    requires !(FindFrom(fields, 0, tag) == Some(path[0]) && (|path| == 1 || MetInBody(fields, s, m, path)))
    ensures DeclaredAt(fields, AfterTag(fields, tag, wt, s, m, seen).value.0, path)
    decreases |path|, 0
  {
    hide DecodeLoop, SkipField, DecodeField, FindFrom, Mark, Delimited, Base, DecodeTag;
    var found := FindFrom(fields, 0, tag);
    if found.Some? {
      var i := found.value;
      var f, m' := fields[i], DecodeField(fields[i], i, wt, s, m).value;
      SameSlots(f, i, wt, s, m);
      if i == path[0] {
        SubField(f, i, wt, s, m);
        var base := MsgOf(Base(f, m, i));
        BaseIsDeclared(fields, m, path);
        UnmetAtIsDeclared(f.kind.fields, Delimited(s).value, base, {}, path[1..]);
      } else {
        DecodeFieldFrame(f, i, wt, s, m, path[0]);
      }
    }
  }

  lemma SameSlots(f: Field, i: nat, wt: nat, s: seq<Byte>, m: Message)
    requires DecodeField(f, i, wt, s, m).Good?
    ensures |DecodeField(f, i, wt, s, m).value.slots| == |m.slots|
  {
    hide Delimited, DecPacked, DecValue, InitValue;
  }

  /** After pb_decode, a field deep inside that the input does not mention holds its declared default. */
  lemma UnmetDeepIsDeclared(fields: seq<Field>, s: seq<Byte>, path: seq<nat>)
    requires PathIn(fields, path) && Decode(fields, s).Good? && !MetAt(fields, s, Default(fields), path)
    ensures DeclaredAt(fields, Decode(fields, s).value, path)
  {
    hide DecodeLoop, MetAt, Default, DeclaredAt, Declared, PathIn;
    DefaultIsDeclared(fields);
    DeclaredDown(fields, Default(fields), path);
    UnmetAtIsDeclared(fields, s, Default(fields), {}, path);
  }

  // ---- absent fields anywhere, array elements included ----

  predicate AbsentInValue(f: Field, v: Value)
    decreases f, 0
  {
    f.kind.Sub? ==> v.MsgV? && AbsentHold(f.kind.fields, v.m)
  }

  predicate AbsentInSlot(f: Field, s: Slot)
    decreases f, 1
  {
    match f.rule
    case Optional => s.Opt? && if s.has then AbsentInValue(f, s.v) else DeclaredValue(f, s.v)
    case Repeated => s.Rep? && forall k :: 0 <= k < |s.items| ==> AbsentInValue(f, s.items[k])
    case _ => s.One? && AbsentInValue(f, s.v)
  }

  /** Every optional field whose has_ flag is off holds its declared default, at every depth. */
  predicate AbsentHold(fields: seq<Field>, m: Message)
    decreases fields
  {
    |m.slots| == |fields| && forall i :: 0 <= i < |fields| ==> AbsentInSlot(fields[i], m.slots[i])
  }

  lemma {:induction false} DeclaredIsAbsent(f: Field, v: Value)
    requires DeclaredValue(f, v)
    ensures AbsentInValue(f, v)
    decreases f, 0
  {
    if f.kind.Sub? {
      DeclaredHolds(f.kind.fields, v.m);
    }
  }

  lemma {:induction false} DeclaredHolds(fields: seq<Field>, m: Message)
    requires Declared(fields, m)
    ensures AbsentHold(fields, m)
    decreases fields
  {
    hide DeclaredValue, AbsentInValue;
    forall i | 0 <= i < |fields|
      ensures AbsentInSlot(fields[i], m.slots[i])
    {
      assert DeclaredSlot(fields[i], SlotAt(m, i));
      if !fields[i].rule.Repeated? {
        DeclaredIsAbsent(fields[i], m.slots[i].v);
      }
    }
  }

  lemma {:induction false} PackedAreNumbers(f: Field, body: seq<Byte>, items: seq<Value>)
    requires f.rule.Repeated? && Packable(f.kind) && DecPacked(f, body, items).Some?
    ensures AbsentInSlot(f, Rep(DecPacked(f, body, items).value))
  {
  }

  lemma {:induction false} ValueKeepsAbsent(f: Field, s: seq<Byte>, cur: Value)
    requires DecValue(f, s, cur).Good? && (!f.rule.Repeated? ==> AbsentInValue(f, cur))
    ensures AbsentInValue(f, DecValue(f, s, cur).value)
    decreases f, 1
  {
    if f.kind.Sub? {
      var fs := f.kind.fields;
      var into := if f.rule.Repeated? then Default(fs) else MsgOf(cur);
      DefaultIsDeclared(fs);
      DeclaredHolds(fs, Default(fs));
      hide Delimited, DecodeLoop, Default, RequiredSeen, Declared;
      LoopKeepsAbsent(fs, Delimited(s).value, into, {});
    }
  }

  lemma {:induction false} FieldKeepsAbsent(fields: seq<Field>, i: nat, wt: nat, s: seq<Byte>, m: Message)
    requires i < |fields| && AbsentHold(fields, m) && DecodeField(fields[i], i, wt, s, m).Good?
    ensures AbsentHold(fields, DecodeField(fields[i], i, wt, s, m).value)
    decreases fields[i], 2
  {
    hide Delimited, DecPacked, DecValue, AbsentInValue, DeclaredValue, InitValue;
    var f, slot := fields[i], m.slots[i];
    assert AbsentInSlot(f, slot);
    if f.rule.Repeated? && wt == 2 && Packable(f.kind) {
      PackedAreNumbers(f, Delimited(s).value, ItemsOf(SlotAt(m, i)));
    } else {
      var cur := if f.rule.OneOf? && f.kind.Sub? then InitValue(f) else CurOf(slot);
      InitIsDeclared(f);
      DeclaredIsAbsent(f, InitValue(f));
      if slot.Opt? && !slot.has { DeclaredIsAbsent(f, slot.v); }
      ValueKeepsAbsent(f, s, cur);
    }
  }

  lemma {:induction false} LoopKeepsAbsent(fields: seq<Field>, s: seq<Byte>, m: Message, seen: set<nat>)
    requires AbsentHold(fields, m) && DecodeLoop(fields, s, m, seen).Good?
    ensures AbsentHold(fields, DecodeLoop(fields, s, m, seen).value.m)
    decreases fields, |s|
  {
    if s != [] {
      hide DecodeLoop, DecodeTag, SkipField, DecodeField, FindFrom, AbsentHold, Mark;
      LoopStep(fields, s, m, seen);
      if DecodeTag(s).Tagged? {
        var tg := DecodeTag(s);
        AfterTagShrinks(fields, tg.tag, tg.wt, tg.rest, m, seen);
        var p := AfterTag(fields, tg.tag, tg.wt, tg.rest, m, seen);
        if FindFrom(fields, 0, tg.tag).Some? {
          FieldKeepsAbsent(fields, FindFrom(fields, 0, tg.tag).value, tg.wt, tg.rest, m);
        }
        LoopKeepsAbsent(fields, p.rest, p.value.0, p.value.1);
      }
    }
  }

  /** pb_decode on arbitrary bytes: whatever optional field is absent afterwards, in the message, in a
      submessage or in an element of an array of them, holds its declared default. */
  lemma AbsentIsDeclared(fields: seq<Field>, s: seq<Byte>)
    requires Decode(fields, s).Good?
    ensures AbsentHold(fields, Decode(fields, s).value)
  {
    hide DecodeLoop, Default, AbsentHold, Declared, RequiredSeen;
    DefaultIsDeclared(fields);
    DeclaredHolds(fields, Default(fields));
    LoopKeepsAbsent(fields, s, Default(fields), {});
  }
}
