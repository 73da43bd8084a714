/** What nanopb's decoder computes from a byte string: the functions its methods are proved against. */
module Decoding {
  import opened Common
  import opened Varint
  import opened Schema

  // ---- scalars ----

  function ToSigned(v: nat, range: nat): int
  {
    if v < range / 2 then v else v - range
  }

  function UnZigZag(v: nat): int
    requires v < U64
  {
    if v % 2 == 1 then ToSigned(U64 - 1 - v / 2, U64) else v / 2
  }

  function FromLittleEndian(b: seq<Byte>): nat
  {
    if b == [] then 0 else b[0] + 256 * FromLittleEndian(b[1..])
  }

  function ReadBytes(s: seq<Byte>, n: nat): (r: Parse<seq<Byte>>)
    ensures r.Good? ==> |r.rest| <= |s| && |r.value| == n
  {
    if |s| < n then Bad else Good(s[..n], s[n..])
  }

  function ReadInt(s: seq<Byte>, n: nat): (r: Parse<int>)
    ensures r.Good? ==> |r.rest| <= |s|
  {
    match ReadBytes(s, n)
    case Bad => Bad
    case Good(b, rest) => Good(FromLittleEndian(b), rest)
  }

  /** The value a 64-bit varint is cast to before the "integer too large" comparison. */
  function Cast(k: Kind, n: nat, v: nat): int
  {
    match k
    case VarInt => if n == 8 then ToSigned(v % U64, U64) else ToSigned(v % U32, U32)
    case SVarInt => UnZigZag(v % U64)
    case _ => v
  }

  /** pb_dec_varint, pb_dec_uvarint, pb_dec_svarint, pb_dec_fixed32, pb_dec_fixed64 */
  function DecInt(k: Kind, n: nat, s: seq<Byte>): (r: Parse<int>)
    ensures r.Good? ==> |r.rest| <= |s|
  {
    if k.Fixed32? then ReadInt(s, 4)
    else if k.Fixed64? then ReadInt(s, 8)
    else
      match DecodeVarint(s)
      case Bad => Bad
      case Good(v, rest) => if InRange(k, n, Cast(k, n, v)) then Good(Cast(k, n, v), rest) else Bad
  }

  // ---- length-delimited values ----

  /** A varint32 length and that many bytes: pb_make_string_substream. */
  function Delimited(s: seq<Byte>): (r: Parse<seq<Byte>>)
    ensures r.Good? ==> |r.rest| < |s| && |r.value| < |s|
  {
    match DecodeVarint32(s)
    case Bad => Bad
    case Good(n, rest) => ReadBytes(rest, n)
  }

  function UpToNul(b: seq<Byte>): seq<Byte>
  {
    if b == [] || b[0] == 0 then [] else [b[0]] + UpToNul(b[1..])
  }

  // ---- tags and skipping ----

  /** Stop is the zero tag (or end of input) that ends a message. */
  datatype TagResult = NoTag | Stop(rest: seq<Byte>) | Tagged(tag: nat, wt: nat, rest: seq<Byte>)

  function DecodeTag(s: seq<Byte>): (r: TagResult)
    ensures r.Tagged? ==> |r.rest| < |s|
    ensures r.Stop? ==> |r.rest| <= |s|
  {
    if s == [] then Stop([])
    else
      match DecodeVarint32(s)
      case Bad => NoTag
      case Good(t, rest) => if t == 0 then Stop(rest) else Tagged(t / 8, t % 8, rest)
  }

  function SkipVarint(s: seq<Byte>): (r: Parse<()>)
    ensures r.Good? ==> |r.rest| <= |s|
  {
    if s == [] then Bad else if s[0] >= 128 then SkipVarint(s[1..]) else Good((), s[1..])
  }

  function Skipped<T>(p: Parse<T>): Parse<()>
  {
    match p
    case Bad => Bad
    case Good(_, rest) => Good((), rest)
  }

  function SkipField(wt: nat, s: seq<Byte>): (r: Parse<()>)
    ensures r.Good? ==> |r.rest| <= |s|
  {
    if wt == 0 then SkipVarint(s)
    else if wt == 1 then Skipped(ReadBytes(s, 8))
    else if wt == 2 then Skipped(Delimited(s))
    else if wt == 5 then Skipped(ReadBytes(s, 4))
    else Bad
  }

  // ---- field lookup and required-field bookkeeping ----

  function FindFrom(fields: seq<Field>, i: nat, tag: nat): (r: Option<nat>)
    ensures r.Some? ==> i <= r.value < |fields| && fields[r.value].tag == tag
    decreases |fields| - i
  {
    if i >= |fields| then None
    else if fields[i].tag == tag then Some(i)
    else FindFrom(fields, i + 1, tag)
  }

  /** Number of required entries among the first n: required_field_index at position n. */
  function RequiredBefore(fields: seq<Field>, n: nat): (r: nat)
    requires n <= |fields|
  {
    if n == 0 then 0 else RequiredBefore(fields, n - 1) + if fields[n - 1].rule.Required? then 1 else 0
  }

  const MAX_REQUIRED: nat := 64

  /** The fields_seen bits after table entry i is met. */
  function Mark(fields: seq<Field>, i: nat, seen: set<nat>): set<nat>
    requires i < |fields|
  {
    var r := RequiredBefore(fields, i);
    if fields[i].rule.Required? && r < MAX_REQUIRED then seen + {r} else seen
  }

  predicate RequiredSeen(fields: seq<Field>, seen: set<nat>)
  {
    forall r: nat :: r < RequiredBefore(fields, |fields|) && r < MAX_REQUIRED ==> r in seen
  }

  // ---- values and fields ----

  function DecValue(f: Field, s: seq<Byte>, cur: Value): (r: Parse<Value>)
    ensures r.Good? ==> |r.rest| <= |s|
    decreases f, 1
  {
    if Packable(f.kind) then
      match DecInt(f.kind, f.dataSize, s)
      case Bad => Bad
      case Good(i, rest) => Good(IntV(i), rest)
    else
      match Delimited(s)
      case Bad => Bad
      case Good(body, rest) =>
        match f.kind
        case Bytes => if |body| > PB_SIZE_MAX || AllocSize(|body|) > f.dataSize then Bad else Good(BytesV(body), rest)
        case Str => if |body| + 1 > f.dataSize then Bad else Good(BytesV(UpToNul(body)), rest)
        case FixedBytes =>
          if |body| == 0 then Good(BytesV(Zeros(f.dataSize)), rest)
          else if |body| > PB_SIZE_MAX || |body| != f.dataSize then Bad
          else Good(BytesV(body), rest)
        case Sub(fs) =>
          match DecodeNoInit(fs, body, if f.rule.Repeated? then Default(fs) else MsgOf(cur))
          case Bad => Bad
          case Good(m, _) => Good(MsgV(m), rest)
  }

  /** The packed-array loop; the whole substream must be used up. */
  function DecPacked(f: Field, body: seq<Byte>, items: seq<Value>): (r: Option<seq<Value>>)
    decreases |body|
  {
    if body == [] then Some(items)
    else if |items| >= f.arraySize then None
    else
      match DecInt(f.kind, f.dataSize, body)
      case Bad => None
      case Good(i, rest) => if |rest| < |body| then DecPacked(f, rest, items + [IntV(i)]) else None
  }

  /** decode_static_field for table entry f in slot i */
  function DecodeField(f: Field, i: nat, wt: nat, s: seq<Byte>, m: Message): (r: Parse<Message>)
    ensures r.Good? ==> |r.rest| <= |s|
    decreases f, 2
  {
    var slot := SlotAt(m, i);
    if f.rule.Repeated? && wt == 2 && Packable(f.kind) then
      match Delimited(s)
      case Bad => Bad
      case Good(body, rest) =>
        match DecPacked(f, body, ItemsOf(slot))
        case None => Bad
        case Some(items) => Good(SetSlot(m, i, Rep(items)), rest)
    else if f.rule.Repeated? && |ItemsOf(slot)| >= f.arraySize then Bad
    else
      match DecValue(f, s, if f.rule.OneOf? && f.kind.Sub? then InitValue(f) else CurOf(slot))
      case Bad => Bad
      case Good(v, rest) => Good(Store(f, i, m, v), rest)
  }

  /** Where a decoded value goes. */
  function Store(f: Field, i: nat, m: Message, v: Value): Message
  {
    match f.rule
    case Optional => SetSlot(m, i, Opt(true, v))
    case Repeated => SetSlot(m, i, Rep(ItemsOf(SlotAt(m, i)) + [v]))
    case OneOf(g) => SetSlot(m, i, One(v)).(which := m.which[g := f.tag])
    case _ => SetSlot(m, i, One(v))
  }

  // ---- messages ----

  datatype Progress = Progress(m: Message, seen: set<nat>, stopped: bool)

  /** The field loop of pb_decode_noinit; `stopped` says a zero tag ended it. */
  function DecodeLoop(fields: seq<Field>, s: seq<Byte>, m: Message, seen: set<nat>): (r: Parse<Progress>)
    ensures r.Good? ==> |r.rest| <= |s|
    decreases fields, |s|
  {
    if s == [] then Good(Progress(m, seen, false), [])
    else
      match DecodeTag(s)
      case NoTag => Bad
      case Stop(rest) => Good(Progress(m, seen, true), rest)
      case Tagged(tag, wt, rest) =>
        if fields == [] && tag == 0 then Bad // the terminator entry is found and rejects the value
        else
          match FindFrom(fields, 0, tag)
          case None => (
            match SkipField(wt, rest)
            case Bad => Bad
            case Good(_, rest') => DecodeLoop(fields, rest', m, seen)
          )
          case Some(i) =>
            match DecodeField(fields[i], i, wt, rest, m)
            case Bad => Bad
            case Good(m', rest') => DecodeLoop(fields, rest', m', Mark(fields, i, seen))
  }

  function DecodeNoInit(fields: seq<Field>, s: seq<Byte>, m: Message): (r: Parse<Message>)
    ensures r.Good? ==> |r.rest| <= |s|
    decreases fields, |s| + 1
  {
    match DecodeLoop(fields, s, m, {})
    case Bad => Bad
    case Good(p, rest) => if RequiredSeen(fields, p.seen) then Good(p.m, rest) else Bad
  }

  function Decode(fields: seq<Field>, s: seq<Byte>): Parse<Message>
  {
    DecodeNoInit(fields, s, Default(fields))
  }

  /** pb_decode_delimited */
  function DecodeDelimited(fields: seq<Field>, s: seq<Byte>): Parse<Message>
  {
    match Delimited(s)
    case Bad => Bad
    case Good(body, rest) =>
      match Decode(fields, body)
      case Bad => Bad
      case Good(m, _) => Good(m, rest)
  }
}
