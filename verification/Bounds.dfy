/** Whatever the input, a decode that succeeds leaves every field inside its allocation. */
module Bounds {
  import opened Common
  import opened Varint
  import opened Schema
  import opened Decoding
  import opened Streaming

  predicate FitsValue(f: Field, v: Value)
    decreases f, 0
  {
    if f.kind.Sub? then v.MsgV? && Fits(f.kind.fields, v.m) else ScalarFits(f, v)
  }

  predicate FitsItems(f: Field, items: seq<Value>)
    decreases f, 1, |items|
  {
    items != [] ==> FitsValue(f, items[0]) && FitsItems(f, items[1..])
  }

  /** Integers in the range of their C type, bytes within the array, strings terminated in it,
      counts at most array_size; only the selected member of a oneof is constrained. */
  predicate FitsField(f: Field, m: Message, i: nat)
    decreases f, 2
  {
    var s := SlotAt(m, i);
    match f.rule
    case Optional => s.Opt? && FitsValue(f, s.v)
    case Repeated => s.Rep? && |s.items| <= f.arraySize && FitsItems(f, s.items)
    case OneOf(g) => s.One? && (Which(m, g) == f.tag ==> FitsValue(f, s.v))
    case _ => s.One? && FitsValue(f, s.v)
  }

  predicate Fits(fields: seq<Field>, m: Message)
    decreases fields
  {
    && |m.slots| == |fields|
    && forall i :: 0 <= i < |fields| ==> FitsField(fields[i], m, i)
  }

  // ---- scalars ----

  lemma {:induction false} LittleEndianBound(b: seq<Byte>)
    ensures FromLittleEndian(b) < Pow(256, |b|)
  {
    if b != [] {
      LittleEndianBound(b[1..]);
    }
  }

  lemma DecIntInRange(k: Kind, n: nat, s: seq<Byte>)
    requires Packable(k) && DecInt(k, n, s).Good?
    ensures InRange(k, n, DecInt(k, n, s).value)
  {
    hide DecodeVarintFrom, Cast, FromLittleEndian, Pow;
    if k.Fixed32? {
      LittleEndianBound(s[..4]);
      WordPowers();
    } else if k.Fixed64? {
      LittleEndianBound(s[..8]);
      WordPowers();
    }
  }

  lemma {:induction false} UpToNulIsTerminated(b: seq<Byte>)
    ensures 0 !in UpToNul(b) && |UpToNul(b)| <= |b|
  {
    if b != [] && b[0] != 0 {
      UpToNulIsTerminated(b[1..]);
    }
  }

  // ---- defaults ----

  lemma {:induction false} InitFits(f: Field)
    requires WellFormedField(f)
    ensures FitsValue(f, InitValue(f))
    decreases f
  {
    if f.kind.Sub? {
      DefaultFits(f.kind.fields);
    }
  }

  lemma {:induction false} DefaultFits(fields: seq<Field>)
    requires WellFormed(fields)
    ensures Fits(fields, Default(fields))
    decreases fields
  {
    var d := Default(fields);
    forall i | 0 <= i < |fields|
      ensures FitsField(fields[i], d, i)
    {
      TableField(fields, i);
      assert SlotAt(d, i) == InitSlot(fields[i]);
      InitFits(fields[i]);
      InitFieldFits(fields[i], d, i);
    }
  }

  lemma InitFieldFits(f: Field, d: Message, i: nat)
    requires WellFormedField(f) && SlotAt(d, i) == InitSlot(f) && FitsValue(f, InitValue(f))
    ensures FitsField(f, d, i)
  {
    hide FitsValue, InitValue, WellFormed;
  }

  // ---- the decoder ----

  lemma {:induction false} DecValueFits(f: Field, s: seq<Byte>, cur: Value)
    requires WellFormedField(f) && DecValue(f, s, cur).Good?
    requires f.kind.Sub? && !f.rule.Repeated? ==> FitsValue(f, cur)
    ensures FitsValue(f, DecValue(f, s, cur).value)
    decreases f, 1
  {
    if Packable(f.kind) {
      hide DecInt, InRange;
      DecIntInRange(f.kind, f.dataSize, s);
    } else if f.kind.Sub? {
      SubFits(f, s, cur);
    } else {
      hide Delimited, UpToNul;
      UpToNulIsTerminated(Delimited(s).value);
    }
  }

  lemma {:induction false} SubFits(f: Field, s: seq<Byte>, cur: Value)
    requires WellFormedField(f) && f.kind.Sub? && DecValue(f, s, cur).Good?
    requires !f.rule.Repeated? ==> FitsValue(f, cur)
    ensures FitsValue(f, DecValue(f, s, cur).value)
    decreases f, 0
  {
    hide Delimited, DecodeLoop, Default, Fits;
    var fs := f.kind.fields;
    var into := if f.rule.Repeated? then Default(fs) else MsgOf(cur);
    DefaultFits(fs);
    LoopFits(fs, Delimited(s).value, into, {});
  }

  lemma FitsAppend(f: Field, items: seq<Value>, v: Value)
    requires FitsItems(f, items) && FitsValue(f, v)
    ensures FitsItems(f, items + [v])
    decreases |items|
  {
    hide FitsValue;
    if items != [] {
      FitsAppend(f, items[1..], v);
      assert (items + [v])[1..] == items[1..] + [v];
    }
  }

  lemma {:induction false} DecPackedFits(f: Field, body: seq<Byte>, items: seq<Value>)
    requires WellFormedField(f) && Packable(f.kind) && DecPacked(f, body, items).Some?
    requires FitsItems(f, items) && |items| <= f.arraySize
    ensures FitsItems(f, DecPacked(f, body, items).value) && |DecPacked(f, body, items).value| <= f.arraySize
    decreases |body|
  {
    if body != [] {
      hide DecInt, InRange, FitsItems;
      DecIntInRange(f.kind, f.dataSize, body);
      var d := DecInt(f.kind, f.dataSize, body);
      assert FitsValue(f, IntV(d.value));
      FitsAppend(f, items, IntV(d.value));
      DecPackedFits(f, d.rest, items + [IntV(d.value)]);
    }
  }

  lemma SetSlotFits(fields: seq<Field>, m: Message, i: nat, m': Message)
    requires WellFormed(fields) && Fits(fields, m) && i < |fields| == |m'.slots|
    requires forall j :: j != i ==> SlotAt(m', j) == SlotAt(m, j)
    requires m'.which == m.which || (fields[i].rule.OneOf?
        && m'.which == m.which[fields[i].rule.group := fields[i].tag])
    requires FitsField(fields[i], m', i)
    ensures Fits(fields, m')
  {
    hide WellFormedField, FitsValue, FitsItems;
    forall j | 0 <= j < |fields|
      ensures FitsField(fields[j], m', j)
    {
      if j != i {
        assert FitsField(fields[j], m, j);
        assert fields[i].tag != fields[j].tag by {
          if i < j { assert fields[i].tag != fields[j].tag; } else { assert fields[j].tag != fields[i].tag; }
        }
      }
    }
  }

  lemma {:induction false} DecodeFieldFits(fields: seq<Field>, i: nat, wt: nat, s: seq<Byte>, m: Message)
    requires WellFormed(fields) && Fits(fields, m) && i < |fields|
    requires DecodeField(fields[i], i, wt, s, m).Good?
    ensures Fits(fields, DecodeField(fields[i], i, wt, s, m).value)
    decreases fields[i], 2
  {
    hide WellFormed, WellFormedField, Delimited, DecPacked, DecValue, FitsValue, FitsItems, InitValue;
    var f := fields[i];
    TableField(fields, i);
    assert FitsField(f, m, i);
    var m' := DecodeField(f, i, wt, s, m).value;
    if f.rule.Repeated? && wt == 2 && Packable(f.kind) {
      DecPackedFits(f, Delimited(s).value, ItemsOf(SlotAt(m, i)));
    } else {
      var cur := if f.rule.OneOf? && f.kind.Sub? then InitValue(f) else CurOf(SlotAt(m, i));
      InitFits(f);
      DecValueFits(f, s, cur);
      if f.rule.Repeated? { FitsAppend(f, ItemsOf(SlotAt(m, i)), DecValue(f, s, cur).value); }
    }
    hide Fits;
    SetSlotFits(fields, m, i, m');
  }

  lemma {:induction false} LoopFits(fields: seq<Field>, s: seq<Byte>, m: Message, seen: set<nat>)
    requires WellFormed(fields) && Fits(fields, m) && DecodeLoop(fields, s, m, seen).Good?
    ensures Fits(fields, DecodeLoop(fields, s, m, seen).value.m)
    decreases fields, |s|
  {
    if s != [] {
      hide DecodeLoop, DecodeTag, SkipField, DecodeField, FindFrom, Fits, WellFormed, Mark;
      LoopStep(fields, s, m, seen);
      if DecodeTag(s).Tagged? {
        var tg := DecodeTag(s);
        AfterTagShrinks(fields, tg.tag, tg.wt, tg.rest, m, seen);
        var p := AfterTag(fields, tg.tag, tg.wt, tg.rest, m, seen);
        if FindFrom(fields, 0, tg.tag).Some? {
          DecodeFieldFits(fields, FindFrom(fields, 0, tg.tag).value, tg.wt, tg.rest, m);
        }
        LoopFits(fields, p.rest, p.value.0, p.value.1);
      }
    }
  }

  /** pb_decode on arbitrary bytes: a success never leaves a value outside its C type or array. */
  lemma DecodedFits(fields: seq<Field>, s: seq<Byte>)
    requires WellFormed(fields) && Decode(fields, s).Good?
    ensures Fits(fields, Decode(fields, s).value)
  {
    hide WellFormed, DecodeLoop, Default, Fits;
    DefaultFits(fields);
    LoopFits(fields, s, Default(fields), {});
  }
}
