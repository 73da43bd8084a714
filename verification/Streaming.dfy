/** The decoder never looks past what it consumes: decoding a prefix and then the rest is decoding
    the whole. Everything about concatenated or interleaved wire data rests on this. */
module Streaming {
  import opened Common
  import opened Varint
  import opened Schema
  import opened Decoding

  /** q is p with t appended to what is left over. */
  ghost predicate Extends<T>(p: Parse<T>, q: Parse<T>, t: seq<Byte>)
  {
    p.Good? ==> q == Good(p.value, p.rest + t)
  }

  lemma ReadBytesExtends(s: seq<Byte>, n: nat, t: seq<Byte>)
    ensures Extends(ReadBytes(s, n), ReadBytes(s + t, n), t)
  {
    if |s| >= n {
      assert (s + t)[..n] == s[..n];
      assert (s + t)[n..] == s[n..] + t;
    }
  }

  lemma DecIntExtends(k: Kind, n: nat, s: seq<Byte>, t: seq<Byte>)
    ensures Extends(DecInt(k, n, s), DecInt(k, n, s + t), t)
  {
    hide DecodeVarintFrom, FromLittleEndian, Cast, ReadBytes, InRange;
    ReadBytesExtends(s, 4, t);
    ReadBytesExtends(s, 8, t);
    if DecodeVarint(s).Good? {
      DecodeVarintExtends(s, t, 0, 0);
    }
  }

  lemma DelimitedExtends(s: seq<Byte>, t: seq<Byte>)
    ensures Extends(Delimited(s), Delimited(s + t), t)
  {
    hide DecodeVarint32, ReadBytes;
    if DecodeVarint32(s).Good? {
      DecodeVarint32Extends(s, t);
      ReadBytesExtends(DecodeVarint32(s).rest, DecodeVarint32(s).value, t);
    }
  }

  lemma {:induction false} SkipVarintExtends(s: seq<Byte>, t: seq<Byte>)
    ensures Extends(SkipVarint(s), SkipVarint(s + t), t)
  {
    if s != [] {
      assert (s + t)[1..] == s[1..] + t;
      if s[0] >= 128 {
        SkipVarintExtends(s[1..], t);
      }
    }
  }

  lemma SkipFieldExtends(wt: nat, s: seq<Byte>, t: seq<Byte>)
    ensures Extends(SkipField(wt, s), SkipField(wt, s + t), t)
  {
    hide Delimited, SkipVarint, ReadBytes;
    SkipVarintExtends(s, t);
    ReadBytesExtends(s, 8, t);
    DelimitedExtends(s, t);
    ReadBytesExtends(s, 4, t);
  }

  lemma DecValueExtends(f: Field, s: seq<Byte>, cur: Value, t: seq<Byte>)
    ensures Extends(DecValue(f, s, cur), DecValue(f, s + t, cur), t)
  {
    hide Delimited, DecInt, DecodeNoInit, UpToNul, Default;
    DecIntExtends(f.kind, f.dataSize, s, t);
    DelimitedExtends(s, t);
  }

  lemma DecodeFieldExtends(f: Field, i: nat, wt: nat, s: seq<Byte>, m: Message, t: seq<Byte>)
    ensures Extends(DecodeField(f, i, wt, s, m), DecodeField(f, i, wt, s + t, m), t)
  {
    hide Delimited, DecValue, DecPacked, InitValue, Store;
    DelimitedExtends(s, t);
    DecValueExtends(f, s, if f.rule.OneOf? && f.kind.Sub? then InitValue(f) else CurOf(SlotAt(m, i)), t);
  }

  /** What the loop does after a tag: the continuation shared by the proofs below. */
  function AfterTag(fields: seq<Field>, tag: nat, wt: nat, s: seq<Byte>, m: Message, seen: set<nat>)
    : Parse<(Message, set<nat>)>
  {
    if fields == [] && tag == 0 then Bad
    else
      match FindFrom(fields, 0, tag)
      case None => (
        match SkipField(wt, s)
        case Bad => Bad
        case Good(_, rest) => Good((m, seen), rest)
      )
      case Some(i) =>
        match DecodeField(fields[i], i, wt, s, m)
        case Bad => Bad
        case Good(m', rest) => Good((m', Mark(fields, i, seen)), rest)
  }

  lemma AfterTagExtends(fields: seq<Field>, tag: nat, wt: nat, s: seq<Byte>, m: Message, seen: set<nat>, t: seq<Byte>)
    ensures Extends(AfterTag(fields, tag, wt, s, m, seen), AfterTag(fields, tag, wt, s + t, m, seen), t)
  {
    hide SkipField, DecodeField, Mark, FindFrom;
    SkipFieldExtends(wt, s, t);
    if FindFrom(fields, 0, tag).Some? {
      var i := FindFrom(fields, 0, tag).value;
      DecodeFieldExtends(fields[i], i, wt, s, m, t);
    }
  }

  function OneTurn(fields: seq<Field>, s: seq<Byte>, m: Message, seen: set<nat>): Parse<Progress>
  {
    match DecodeTag(s)
    case NoTag => Bad
    case Stop(rest) => Good(Progress(m, seen, true), rest)
    case Tagged(tag, wt, rest) =>
      match AfterTag(fields, tag, wt, rest, m, seen)
      case Bad => Bad
      case Good(p, rest') => DecodeLoop(fields, rest', p.0, p.1)
  }

  lemma LoopStep(fields: seq<Field>, s: seq<Byte>, m: Message, seen: set<nat>)
    requires s != []
    ensures DecodeLoop(fields, s, m, seen) == OneTurn(fields, s, m, seen)
  {
    hide SkipField, DecodeField, Mark, DecodeTag, FindFrom;
  }

  lemma AfterTagShrinks(fields: seq<Field>, tag: nat, wt: nat, s: seq<Byte>, m: Message, seen: set<nat>)
    ensures AfterTag(fields, tag, wt, s, m, seen).Good? ==> |AfterTag(fields, tag, wt, s, m, seen).rest| <= |s|
  {
    hide SkipField, DecodeField, Mark;
  }

  lemma DecodeTagExtends(s: seq<Byte>, t: seq<Byte>)
    requires DecodeTag(s).Tagged?
    ensures DecodeTag(s + t) == DecodeTag(s).(rest := DecodeTag(s).rest + t)
  {
    hide DecodeVarint32;
    DecodeVarint32Extends(s, t);
  }

  /** Decoding a run of whole fields and then t is decoding t from where the run left off. */
  lemma {:induction false} LoopConcat(fields: seq<Field>, s: seq<Byte>, t: seq<Byte>, m: Message, seen: set<nat>)
    requires DecodeLoop(fields, s, m, seen).Good?
    requires !DecodeLoop(fields, s, m, seen).value.stopped
    ensures DecodeLoop(fields, s + t, m, seen)
         == DecodeLoop(fields, t, DecodeLoop(fields, s, m, seen).value.m, DecodeLoop(fields, s, m, seen).value.seen)
    decreases |s|
  {
    if s == [] {
      assert s + t == t;
    } else {
      LoopStep(fields, s, m, seen);
      LoopStep(fields, s + t, m, seen);
      hide DecodeLoop, DecodeTag, AfterTag;
      DecodeTagExtends(s, t);
      var tg := DecodeTag(s);
      AfterTagExtends(fields, tg.tag, tg.wt, tg.rest, m, seen, t);
      AfterTagShrinks(fields, tg.tag, tg.wt, tg.rest, m, seen);
      var p := AfterTag(fields, tg.tag, tg.wt, tg.rest, m, seen);
      LoopConcat(fields, p.rest, t, p.value.0, p.value.1);
    }
  }
}
