/** One producer thread and one consumer thread on a TPCircularBuffer, interleaved step by step:
    the counter is the only shared word that both write, and they write it atomically. */
module RingProtocol {
  import opened Common
  import opened Rings

  /** Inside ProduceBytes: k bytes copied; then the head moved but not yet the counter */
  datatype Producer = Ready | Copying(src: seq<Byte>, k: nat) | HeadMoved(src: seq<Byte>)

  /** Inside a read or a Clear: n bytes were available, `got` has been copied out;
      then the tail moved past `entries` but the counter not yet */
  datatype Consumer = Waiting | Looking(n: nat, got: seq<Byte>) | TailMoved(entries: seq<Option<Byte>>)

  /** `produced` and `removed` record what has been added to and taken off the counter:
      a removed byte either was read (Some) or was dropped unread (None). */
  datatype State = State(
    mem: seq<Byte>, tail: nat, head: nat, fill: int,
    producer: Producer, consumer: Consumer,
    produced: seq<Byte>, removed: seq<Option<Byte>>)

  /** The atomic steps; amounts and data are the callers' choice. */
  datatype Action =
    | ReadSpace(src: seq<Byte>) | CopyByte | SetHead | AddFill
    | ReadFill | ReadByte | SetTail(m: nat) | SubFill

  function Init(mem: seq<Byte>): State
  {
    State(mem, 0, 0, 0, Ready, Waiting, [], [])
  }

  /** The first m bytes leave the ring: those copied out, and then those nobody looked at. */
  function Leaving(got: seq<Byte>, m: nat): (e: seq<Option<Byte>>)
    ensures |e| == m
  {
    seq(m, i requires 0 <= i < m => if i < |got| then Some(got[i]) else None)
  }

  /** One step; an action that its thread is not ready for does nothing. */
  function Do(s: State, a: Action): (r: State)
    requires s.mem != []
    ensures |r.mem| == |s.mem|
  {
    var n := |s.mem|;
    match a
    case ReadSpace(src) =>
      if s.producer.Ready? && n - s.fill >= |src| then s.(producer := Copying(src, 0)) else s
    case CopyByte =>
      if s.producer.Copying? && s.producer.k < |s.producer.src| then
        s.(mem := s.mem[(s.head + s.producer.k) % n := s.producer.src[s.producer.k]],
           producer := Copying(s.producer.src, s.producer.k + 1))
      else s
    case SetHead =>
      if s.producer.Copying? && s.producer.k == |s.producer.src| then
        s.(head := (s.head + |s.producer.src|) % n, producer := HeadMoved(s.producer.src))
      else s
    case AddFill =>
      if s.producer.HeadMoved? then
        s.(fill := s.fill + |s.producer.src|, produced := s.produced + s.producer.src, producer := Ready)
      else s
    case ReadFill =>
      if s.consumer.Waiting? && s.fill > 0 then s.(consumer := Looking(s.fill, [])) else s
    case ReadByte =>
      if s.consumer.Looking? && |s.consumer.got| < s.consumer.n then
        s.(consumer := Looking(s.consumer.n, s.consumer.got + [s.mem[(s.tail + |s.consumer.got|) % n]]))
      else s
    case SetTail(m) =>
      if s.consumer.Looking? && m <= s.consumer.n then
        s.(tail := (s.tail + m) % n, consumer := TailMoved(Leaving(s.consumer.got, m)))
      else s
    case SubFill =>
      if s.consumer.TailMoved? then
        s.(fill := s.fill - |s.consumer.entries|, removed := s.removed + s.consumer.entries, consumer := Waiting)
      else s
  }

  function Run(s: State, actions: seq<Action>): (r: State)
    requires s.mem != []
    ensures |r.mem| == |s.mem|
    decreases |actions|
  {
    if actions == [] then s else Run(Do(s, actions[0]), actions[1..])
  }

  // ---- the invariant ----

  /** Bytes that were read are the ones produced at that place in the stream. */
  predicate Genuine(entries: seq<Option<Byte>>, produced: seq<Byte>, from: nat)
    requires from + |entries| <= |produced|
  {
    forall i :: 0 <= i < |entries| && entries[i].Some? ==> entries[i].value == produced[from + i]
  }

  /** Bytes the producer has claimed room for beyond those counted */
  function Claimed(p: Producer): nat
  {
    if p.Ready? then 0 else |p.src|
  }

  /** What the producer has written beyond those counted */
  function Written(p: Producer): seq<Byte>
  {
    match p
    case Ready => []
    case Copying(src, k) => if k <= |src| then src[..k] else []
    case HeadMoved(src) => src
  }

  predicate ProducerInv(s: State)
    requires s.mem != []
  {
    var at := |s.produced|;
    && s.head == Cell(at + (if s.producer.HeadMoved? then |s.producer.src| else 0), |s.mem|)
    && at + Claimed(s.producer) <= |s.removed| + |s.mem|
    && (s.producer.Copying? ==> s.producer.k <= |s.producer.src|)
    && Window(s.mem, at, |Written(s.producer)|) == Written(s.producer)
  }

  predicate ConsumerInv(s: State)
    requires s.mem != []
  {
    var at, n := |s.removed|, |s.mem|;
    match s.consumer
    case Waiting => s.tail == Cell(at, n)
    case Looking(avail, got) =>
      && s.tail == Cell(at, n) && |got| <= avail && at + avail <= |s.produced|
      && got == s.produced[at..at + |got|]
    case TailMoved(entries) =>
      && s.tail == Cell(at + |entries|, n) && at + |entries| <= |s.produced|
      && Genuine(entries, s.produced, at)
  }

  predicate Inv(s: State)
  {
    && s.mem != []
    && |s.removed| <= |s.produced| <= |s.removed| + |s.mem|
    && s.fill == |s.produced| - |s.removed|
    && Window(s.mem, |s.removed|, s.fill) == s.produced[|s.removed|..]
    && Genuine(s.removed, s.produced, 0)
    && ProducerInv(s)
    && ConsumerInv(s)
  }

  // ---- every step keeps it ----

  lemma CopyKeeps(s: State)
    requires Inv(s) && s.producer.Copying? && s.producer.k < |s.producer.src|
    ensures Inv(Do(s, CopyByte))
  {
    hide Window, Cell, Genuine;
    var n, k, at := |s.mem|, s.producer.k, |s.produced|;
    CellAdd(at, k, n);
    CellIsMod(s.head + k, n);
    WindowFrame(s.mem, |s.removed|, s.fill, at + k, s.producer.src[k]);
    WindowGrows(s.mem, at, k, s.producer.src[k]);
    assert s.producer.src[..k] + [s.producer.src[k]] == s.producer.src[..k + 1];
  }

  lemma SetHeadKeeps(s: State)
    requires Inv(s) && s.producer.Copying? && s.producer.k == |s.producer.src|
    ensures Inv(Do(s, SetHead))
  {
    hide Window, Cell, Genuine;
    var k, at := |s.producer.src|, |s.produced|;
    CellAdd(at, k, |s.mem|);
    CellIsMod(s.head + k, |s.mem|);
    assert s.producer.src[..k] == s.producer.src;
  }

  lemma AddKeeps(s: State)
    requires Inv(s) && s.producer.HeadMoved?
    ensures Inv(Do(s, AddFill))
  {
    hide Window, Cell, Genuine, ConsumerInv;
    var src, at := s.producer.src, |s.removed|;
    WindowSplit(s.mem, at, s.fill, |src|);
    NoCells(s.mem, |s.produced| + |src|);
    assert (s.produced + src)[at..] == s.produced[at..] + src;
    GenuineStill(s.removed, s.produced, src, 0);
    MoreToRead(s, Do(s, AddFill));
  }

  lemma GenuineStill(entries: seq<Option<Byte>>, produced: seq<Byte>, more: seq<Byte>, from: nat)
    requires from + |entries| <= |produced| && Genuine(entries, produced, from)
    ensures Genuine(entries, produced + more, from)
  {
  }

  lemma MoreToRead(s: State, r: State)
    requires s.mem != [] && ConsumerInv(s) && s.producer.HeadMoved?
    requires r == s.(fill := r.fill, produced := s.produced + s.producer.src, producer := Ready)
    ensures ConsumerInv(r)
  {
    hide Cell, Genuine;
    var at := |s.removed|;
    match s.consumer {
      case Waiting =>
      case Looking(n, got) => assert r.produced[at..at + |got|] == s.produced[at..at + |got|];
      case TailMoved(entries) => GenuineStill(entries, s.produced, s.producer.src, at);
    }
  }

  lemma NoCells<T>(mem: seq<T>, at: nat)
    requires mem != []
    ensures Window(mem, at, 0) == []
  {
  }

  lemma ReadKeeps(s: State)
    requires Inv(s) && s.consumer.Looking? && |s.consumer.got| < s.consumer.n
    ensures Inv(Do(s, ReadByte))
  {
    hide Cell, Genuine;
    var at, k := |s.removed|, |s.consumer.got|;
    CellAdd(at, k, |s.mem|);
    CellIsMod(s.tail + k, |s.mem|);
    assert Window(s.mem, at, s.fill)[k] == s.produced[at..][k];
  }

  lemma SetTailKeeps(s: State, m: nat)
    requires Inv(s) && s.consumer.Looking? && m <= s.consumer.n
    ensures Inv(Do(s, SetTail(m)))
  {
    hide Window, Cell;
    CellAdd(|s.removed|, m, |s.mem|);
    CellIsMod(s.tail + m, |s.mem|);
  }

  lemma SubKeeps(s: State)
    requires Inv(s) && s.consumer.TailMoved?
    ensures Inv(Do(s, SubFill))
  {
    hide Window, Cell;
    var at, m := |s.removed|, |s.consumer.entries|;
    WindowSplit(s.mem, at, m, s.fill - m);
    assert s.produced[at..][m..] == s.produced[at + m..];
  }

  lemma StepKeeps(s: State, a: Action)
    requires Inv(s)
    ensures Inv(Do(s, a))
  {
    hide Window, Cell, Genuine, Leaving;
    match a {
      case ReadSpace(src) => NoCells(s.mem, |s.produced|);
      case CopyByte => if s.producer.Copying? && s.producer.k < |s.producer.src| { CopyKeeps(s); }
      case SetHead => if s.producer.Copying? && s.producer.k == |s.producer.src| { SetHeadKeeps(s); }
      case AddFill => if s.producer.HeadMoved? { AddKeeps(s); }
      case ReadFill =>
      case ReadByte => if s.consumer.Looking? && |s.consumer.got| < s.consumer.n { ReadKeeps(s); }
      case SetTail(m) => if s.consumer.Looking? && m <= s.consumer.n { SetTailKeeps(s, m); }
      case SubFill => if s.consumer.TailMoved? { SubKeeps(s); }
    }
  }

  lemma {:induction false} RunKeeps(s: State, actions: seq<Action>)
    requires s.mem != [] && Inv(s)
    ensures Inv(Run(s, actions))
    decreases |actions|
  {
    hide Inv, Do;
    if actions != [] {
      StepKeeps(s, actions[0]);
      RunKeeps(Do(s, actions[0]), actions[1..]);
    }
  }

  // ---- what that means ----

  lemma InitInv(mem: seq<Byte>)
    requires mem != []
    ensures Inv(Init(mem))
  {
  }

  /** After any interleaving: the counter is within the ring, nothing is taken before it was
      produced, every byte read is the one produced at that place in the stream, and the bytes
      still counted are exactly the unread suffix. Head, tail and every sum the code forms
      from them stay below two lengths. */
  lemma SpscSafety(mem: seq<Byte>, actions: seq<Action>)
    requires mem != []
    ensures var r := Run(Init(mem), actions);
            && 0 <= r.fill <= |mem| && r.fill == |r.produced| - |r.removed|
            && |r.removed| <= |r.produced|
            && Genuine(r.removed, r.produced, 0)
            && Window(r.mem, |r.removed|, r.fill) == r.produced[|r.removed|..]
            && r.head + Claimed(r.producer) < 2 * |mem| && r.tail < |mem|
  {
    hide Window, Genuine;
    InitInv(mem);
    RunKeeps(Init(mem), actions);
  }

  function ReadOut(entries: seq<Option<Byte>>): (b: seq<Byte>)
    requires forall i :: 0 <= i < |entries| ==> entries[i].Some?
    ensures |b| == |entries|
  {
    seq(|entries|, i requires 0 <= i < |entries| => entries[i].value)
  }

  /** As long as the consumer drops nothing, what it has consumed is a prefix of what was produced. */
  lemma ConsumedIsPrefix(mem: seq<Byte>, actions: seq<Action>)
    requires mem != []
    requires forall i :: 0 <= i < |Run(Init(mem), actions).removed| ==> Run(Init(mem), actions).removed[i].Some?
    ensures ReadOut(Run(Init(mem), actions).removed) <= Run(Init(mem), actions).produced
  {
    hide Run, Init, Window;
    SpscSafety(mem, actions);
  }

  // ---- Clear against a running producer ----

  predicate ByProducer(a: Action)
  {
    a.ReadSpace? || a.CopyByte? || a.SetHead? || a.AddFill?
  }

  predicate AllByProducer(actions: seq<Action>)
  {
    actions != [] ==> ByProducer(actions[0]) && AllByProducer(actions[1..])
  }

  lemma {:induction false} RunBoth(s: State, a: seq<Action>, b: seq<Action>)
    requires s.mem != []
    ensures Run(s, a + b) == Run(Run(s, a), b)
    decreases |a|
  {
    hide Do;
    if a == [] {
      assert a + b == b;
    } else {
      assert (a + b)[1..] == a[1..] + b;
      RunBoth(Do(s, a[0]), a[1..], b);
    }
  }

  lemma RunOne(s: State, a: Action)
    requires s.mem != []
    ensures Run(s, [a]) == Do(s, a)
  {
    hide Do;
    assert [a][1..] == [];
  }

  lemma {:induction false} ProducerAlone(s: State, actions: seq<Action>)
    requires s.mem != [] && AllByProducer(actions)
    ensures var r := Run(s, actions);
            && r.consumer == s.consumer && r.removed == s.removed && r.tail == s.tail
            && s.produced <= r.produced && r.fill - s.fill == |r.produced| - |s.produced|
    decreases |actions|
  {
    if actions != [] {
      ProducerAlone(Do(s, actions[0]), actions[1..]);
    }
  }

  function Nothing(n: nat): (e: seq<Option<Byte>>)
  {
    seq(n, _ => None)
  }

  /** A Clear whose three steps are interleaved with any steps of the producer drops exactly the
      bytes that were visible when it read the counter, and keeps whatever arrived meanwhile. */
  lemma ClearDropsVisible(s: State, a: seq<Action>, b: seq<Action>)
    requires Inv(s) && s.consumer.Waiting? && s.fill > 0
    requires AllByProducer(a) && AllByProducer(b)
    ensures var r := Run(s, [ReadFill] + a + [SetTail(s.fill)] + b + [SubFill]);
            && r.removed == s.removed + Nothing(s.fill) && |r.removed| == |s.produced|
            && s.produced <= r.produced && r.fill == |r.produced| - |s.produced|
            && r.consumer.Waiting?
  {
    hide Window, Cell, Genuine, ProducerInv, Run;
    var s1 := Do(s, ReadFill);
    RunOne(s, ReadFill);
    var s2 := Run(s1, a);
    ProducerAlone(s1, a);
    RunBoth(s, [ReadFill], a);
    var s3 := Do(s2, SetTail(s.fill));
    RunOne(s2, SetTail(s.fill));
    RunBoth(s, [ReadFill] + a, [SetTail(s.fill)]);
    var s4 := Run(s3, b);
    ProducerAlone(s3, b);
    RunBoth(s, [ReadFill] + a + [SetTail(s.fill)], b);
    RunOne(s4, SubFill);
    RunBoth(s, [ReadFill] + a + [SetTail(s.fill)] + b, [SubFill]);
    assert Leaving([], s.fill) == Nothing(s.fill);
  }

  // ---- whole calls, whatever the other thread does meanwhile ----

  /** The steps of each thread, in order */
  function ProducerPart(actions: seq<Action>): seq<Action>
  {
    if actions == [] then []
    else (if ByProducer(actions[0]) then [actions[0]] else []) + ProducerPart(actions[1..])
  }

  function ConsumerPart(actions: seq<Action>): seq<Action>
  {
    if actions == [] then []
    else (if ByProducer(actions[0]) then [] else [actions[0]]) + ConsumerPart(actions[1..])
  }

  /** The rest of ProduceBytes when n bytes are still to be copied */
  function Producing(n: nat): (a: seq<Action>)
    ensures a != []
  {
    if n == 0 then [SetHead, AddFill] else [CopyByte] + Producing(n - 1)
  }

  /** The rest of a read when n bytes are still to be copied out, and m leave the ring */
  function Consuming(n: nat, m: nat): (a: seq<Action>)
    ensures a != []
  {
    if n == 0 then [SetTail(m), SubFill] else [ReadByte] + Consuming(n - 1, m)
  }

  lemma ConsumerAside(s: State, a: Action)
    requires s.mem != [] && !ByProducer(a)
    ensures Do(s, a).producer == s.producer && Do(s, a).produced == s.produced
  {
  }

  lemma ProducerAside(s: State, a: Action)
    requires s.mem != [] && ByProducer(a)
    ensures Do(s, a).consumer == s.consumer && Do(s, a).removed == s.removed && s.produced <= Do(s, a).produced
  {
  }

  lemma FirstOf(actions: seq<Action>, part: seq<Action>)
    requires actions != []
    ensures ProducerPart(actions) == part && part != [] && ByProducer(actions[0]) ==>
              actions[0] == part[0] && ProducerPart(actions[1..]) == part[1..]
    ensures !ByProducer(actions[0]) ==> ProducerPart(actions) == ProducerPart(actions[1..])
    ensures ConsumerPart(actions) == part && part != [] && !ByProducer(actions[0]) ==>
              actions[0] == part[0] && ConsumerPart(actions[1..]) == part[1..]
    ensures ByProducer(actions[0]) ==> ConsumerPart(actions) == ConsumerPart(actions[1..])
  {
  }

  lemma {:induction false} ProducerIdle(s: State, actions: seq<Action>)
    requires s.mem != [] && ProducerPart(actions) == []
    ensures Run(s, actions).producer == s.producer && Run(s, actions).produced == s.produced
    decreases |actions|
  {
    hide Do;
    if actions != [] {
      FirstOf(actions, []);
      ConsumerAside(s, actions[0]);
      ProducerIdle(Do(s, actions[0]), actions[1..]);
    }
  }

  lemma {:induction false} Adds(s: State, actions: seq<Action>, src: seq<Byte>)
    requires s.mem != [] && s.producer == HeadMoved(src) && ProducerPart(actions) == [AddFill]
    ensures Run(s, actions).produced == s.produced + src && Run(s, actions).producer.Ready?
    decreases |actions|
  {
    FirstOf(actions, [AddFill]);
    if ByProducer(actions[0]) {
      ProducerIdle(Do(s, AddFill), actions[1..]);
    } else {
      ConsumerAside(s, actions[0]);
      Adds(Do(s, actions[0]), actions[1..], src);
    }
  }

  lemma {:induction false} Finishes(s: State, actions: seq<Action>, src: seq<Byte>, k: nat)
    requires s.mem != [] && k <= |src| && s.producer == Copying(src, k)
    requires ProducerPart(actions) == Producing(|src| - k)
    ensures Run(s, actions).produced == s.produced + src && Run(s, actions).producer.Ready?
    decreases |actions|
  {
    FirstOf(actions, Producing(|src| - k));
    if !ByProducer(actions[0]) {
      ConsumerAside(s, actions[0]);
      Finishes(Do(s, actions[0]), actions[1..], src, k);
    } else if k < |src| {
      Finishes(Do(s, CopyByte), actions[1..], src, k + 1);
    } else {
      Adds(Do(s, SetHead), actions[1..], src);
    }
  }

  lemma {:induction false} Refuses(s: State, actions: seq<Action>, n: nat)
    requires s.mem != [] && s.producer.Ready? && (ProducerPart(actions) == Producing(n)
        || ProducerPart(actions) == [AddFill] || ProducerPart(actions) == [])
    ensures Run(s, actions).produced == s.produced && Run(s, actions).producer.Ready?
    decreases |actions|
  {
    if actions != [] {
      var part := ProducerPart(actions);
      FirstOf(actions, part);
      if !ByProducer(actions[0]) {
        ConsumerAside(s, actions[0]);
        Refuses(Do(s, actions[0]), actions[1..], n);
      } else {
        Refuses(Do(s, actions[0]), actions[1..], if n > 0 then n - 1 else 0);
      }
    }
  }

  lemma Admits(s: State, src: seq<Byte>)
    requires s.mem != [] && s.producer.Ready?
    ensures Do(s, ReadSpace(src)) == if s.fill + |src| <= |s.mem| then s.(producer := Copying(src, 0)) else s
  {
  }

  /** ProduceBytes, with any steps of the consumer between its own: the bytes are added, all of them, exactly
      when they fit the space that is free at its start; otherwise nothing is. */
  lemma ProducesExactly(s: State, src: seq<Byte>, actions: seq<Action>)
    requires s.mem != [] && s.producer.Ready? && ProducerPart(actions) == Producing(|src|)
    ensures var r := Run(s, [ReadSpace(src)] + actions);
            && r.produced == s.produced + (if s.fill + |src| <= |s.mem| then src else [])
            && r.producer.Ready?
  {
    hide *;
    Admits(s, src);
    RunBoth(s, [ReadSpace(src)], actions);
    RunOne(s, ReadSpace(src));
    if s.fill + |src| <= |s.mem| {
      Finishes(s.(producer := Copying(src, 0)), actions, src, 0);
    } else {
      Refuses(s, actions, |src|);
      assert s.produced + [] == s.produced;
    }
  }

  /** The next m bytes have left since `before`; of these the first j were read. */
  predicate Took(before: State, r: State, j: nat, m: nat)
  {
    var at := |before.removed|;
    && |r.removed| == at + m && r.removed[..at] == before.removed && at + m <= |before.produced|
    && var gone := r.removed[at..];
       forall i :: 0 <= i < m ==> gone[i] == if i < j then Some(before.produced[at + i]) else None
  }

  lemma {:induction false} ConsumerIdle(s: State, actions: seq<Action>)
    requires s.mem != [] && ConsumerPart(actions) == []
    ensures Run(s, actions).consumer == s.consumer && Run(s, actions).removed == s.removed
    decreases |actions|
  {
    hide Do;
    if actions != [] {
      FirstOf(actions, []);
      ProducerAside(s, actions[0]);
      ConsumerIdle(Do(s, actions[0]), actions[1..]);
    }
  }

  lemma {:induction false} Subtracts(s: State, actions: seq<Action>, e: seq<Option<Byte>>)
    requires s.mem != [] && s.consumer == TailMoved(e) && ConsumerPart(actions) == [SubFill]
    ensures Run(s, actions).removed == s.removed + e && Run(s, actions).consumer.Waiting?
    decreases |actions|
  {
    FirstOf(actions, [SubFill]);
    if ByProducer(actions[0]) {
      ProducerAside(s, actions[0]);
      Subtracts(Do(s, actions[0]), actions[1..], e);
    } else {
      ConsumerIdle(Do(s, SubFill), actions[1..]);
    }
  }

  lemma {:induction false} Reads(before: State, s: State, actions: seq<Action>, n: nat, j: nat, m: nat)
    requires Inv(s) && s.removed == before.removed && before.produced <= s.produced
    requires s.consumer.Looking? && s.consumer.n == |before.produced| - |before.removed| >= 0
    requires |s.consumer.got| + n == j <= s.consumer.n && m <= s.consumer.n
    requires ConsumerPart(actions) == Consuming(n, m)
    ensures Took(before, Run(s, actions), j, m) && Run(s, actions).consumer.Waiting?
    decreases |actions|
  {
    hide Window, Cell, Genuine, ProducerInv, Took;
    FirstOf(actions, Consuming(n, m));
    StepKeeps(s, actions[0]);
    if ByProducer(actions[0]) {
      ProducerAside(s, actions[0]);
      Reads(before, Do(s, actions[0]), actions[1..], n, j, m);
    } else if n > 0 {
      Reads(before, Do(s, ReadByte), actions[1..], n - 1, j, m);
    } else {
      Subtracts(Do(s, SetTail(m)), actions[1..], Leaving(s.consumer.got, m));
      TookIs(before, s, Run(s, actions), j, m);
    }
  }

  lemma TookIs(before: State, s: State, r: State, j: nat, m: nat)
    requires Inv(s) && s.removed == before.removed && before.produced <= s.produced && s.consumer.Looking?
    requires s.consumer.n == |before.produced| - |before.removed| >= 0 && |s.consumer.got| == j && m <= s.consumer.n
    requires r.removed == s.removed + Leaving(s.consumer.got, m)
    ensures Took(before, r, j, m)
  {
    hide Window, Cell, Genuine, ProducerInv;
    var at := |s.removed|;
    var gone := r.removed[at..];
    forall i | 0 <= i < m
      ensures gone[i] == if i < j then Some(before.produced[at + i]) else None
    {
      if i < j { assert s.consumer.got[i] == s.produced[at + i]; }
    }
  }

  /** Reading j bytes and consuming m, with any steps of the producer between: of the bytes that were queued at
      its start exactly the first m leave, and the first j that are read are those queued first. */
  lemma ConsumesExactly(s: State, j: nat, m: nat, actions: seq<Action>)
    requires Inv(s) && s.consumer.Waiting? && s.fill > 0 && j <= s.fill && m <= s.fill
    requires ConsumerPart(actions) == Consuming(j, m)
    ensures var r := Run(s, [ReadFill] + actions);
            Took(s, r, j, m) && r.consumer.Waiting?
  {
    hide Run, Window, Genuine, ProducerInv, Took, Consuming;
    RunBoth(s, [ReadFill], actions);
    RunOne(s, ReadFill);
    StepKeeps(s, ReadFill);
    Reads(s, Do(s, ReadFill), actions, j, j, m);
  }
}
