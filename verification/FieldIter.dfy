/** pb_field_iter_t: walking a field table together with pointers into the structure. */
module FieldIters {
  import opened Common
  import opened Schema
  import opened Decoding

  /** Entry n shares the storage of entry n - 1: both are oneof members and the table says so. */
  predicate InUnion(fields: seq<Field>, n: nat)
    requires n < |fields|
  {
    n > 0 && fields[n - 1].rule.OneOf? && fields[n].rule.OneOf? && fields[n].dataOffset == PB_SIZE_MAX
  }

  /** Bytes taken in the structure by one entry (all static). */
  function Span(f: Field): nat
  {
    if f.rule.Repeated? then f.dataSize * f.arraySize else f.dataSize
  }

  /** pData at position n */
  function DataAt(fields: seq<Field>, base: int, n: nat): int
    requires n < |fields|
  {
    if n == 0 then base + fields[0].dataOffset
    else if InUnion(fields, n) then DataAt(fields, base, n - 1)
    else DataAt(fields, base, n - 1) + Span(fields[n - 1]) + fields[n].dataOffset
  }

  /** pSize at position n: inside a union the pointer of the first member is kept. */
  function SizeAt(fields: seq<Field>, base: int, n: nat): int
    requires n < |fields|
  {
    if InUnion(fields, n) then SizeAt(fields, base, n - 1)
    else DataAt(fields, base, n) + fields[n].sizeOffset
  }

  class FieldIter {
    const fields: seq<Field>
    const base: int
    var pos: nat
    var requiredIndex: nat
    var pData: int
    var pSize: int

    /** Everything the iterator holds is determined by its position. */
    ghost predicate Valid()
      reads this
    {
      if fields == [] then pos == 0 && requiredIndex == 0
      else
        && pos < |fields| && requiredIndex == RequiredBefore(fields, pos)
        && pData == DataAt(fields, base, pos) && pSize == SizeAt(fields, base, pos)
    }

    constructor (fields: seq<Field>, base: int)
      ensures Valid() && this.fields == fields && this.base == base && pos == 0
    {
      this.fields, this.base := fields, base;
      pos, requiredIndex := 0, 0;
      pData, pSize := base, base;
      new;
      var _ := Begin();
    }

    /** pb_field_iter_begin */
    method Begin() returns (nonEmpty: bool)
      modifies this
      ensures Valid() && pos == 0 && nonEmpty == (fields != [])
    {
      pos, requiredIndex := 0, 0;
      if fields == [] {
        pData, pSize := base, base;
      } else {
        pData := base + fields[0].dataOffset;
        pSize := pData + fields[0].sizeOffset;
      }
      nonEmpty := fields != [];
    }

    /** pb_field_iter_next: false when it has wrapped to the start */
    method Next() returns (more: bool)
      requires Valid()
      modifies this
      ensures Valid()
      ensures more == (old(pos) + 1 < |fields|)
      ensures pos == if more then old(pos) + 1 else 0
    {
      if fields == [] {
        return false;
      }
      var prev := fields[pos];
      pos := pos + 1;
      if pos == |fields| {
        var _ := Begin();
        return false;
      }
      var f := fields[pos];
      if prev.rule.OneOf? && f.rule.OneOf? && f.dataOffset == PB_SIZE_MAX {
        return true;
      }
      var prevSize := prev.dataSize;
      if prev.rule.Repeated? {
        prevSize := prevSize * prev.arraySize;
      }
      if prev.rule.Required? {
        requiredIndex := requiredIndex + 1;
      }
      pData := pData + prevSize + f.dataOffset;
      pSize := pData + f.sizeOffset;
      return true;
    }

    /** pb_field_iter_find: for a table with distinct non-zero tags, stops on the entry with the tag,
        or comes back to where it was. (An empty table's terminator answers to tag 0.) */
    method Find(tag: nat) returns (found: bool)
      requires Valid() && WellFormed(fields)
      modifies this
      ensures Valid()
      ensures fields != [] ==> found == FindFrom(fields, 0, tag).Some?
      ensures fields == [] ==> found == (tag == 0)
      ensures found && fields != [] ==> FindFrom(fields, 0, tag) == Some(pos)
      ensures !found ==> pos == old(pos)
    {
      if fields == [] {
        return tag == 0;
      }
      var start := pos;
      ghost var steps := 0;
      while true
        invariant Valid() && fields != [] && steps < |fields|
        invariant pos == Cyclic(start, steps, |fields|)
        invariant forall k :: 0 <= k < steps ==> fields[Cyclic(start, k, |fields|)].tag != tag
        decreases |fields| - steps
      {
        if fields[pos].tag == tag {
          FoundIsUnique(fields, pos, tag);
          return true;
        }
        var _ := Next();
        steps := steps + 1;
        if pos == start {
          FullCircle(start, steps, |fields|);
          NotAnywhere(fields, start, tag);
          return false;
        }
        assert pos == Cyclic(start, steps, |fields|);
      }
    }
  }

  /** Position after k steps from start in a table of n entries. */
  function Cyclic(start: nat, k: nat, n: nat): (r: nat)
    requires start < n && k <= n
    ensures r < n
  {
    if start + k < n then start + k else start + k - n
  }

  lemma FullCircle(start: nat, k: nat, n: nat)
    requires start < n && 0 < k <= n && Cyclic(start, k, n) == start
    ensures k == n
  {
  }

  lemma {:induction false} FoundFrom(fields: seq<Field>, i: nat, tag: nat, p: nat)
    requires i <= p < |fields| && fields[p].tag == tag
    requires forall j :: i <= j < |fields| && j != p ==> fields[j].tag != tag
    ensures FindFrom(fields, i, tag) == Some(p)
    decreases p - i
  {
    if i < p { FoundFrom(fields, i + 1, tag, p); }
  }

  lemma FoundIsUnique(fields: seq<Field>, p: nat, tag: nat)
    requires WellFormed(fields) && p < |fields| && fields[p].tag == tag
    ensures FindFrom(fields, 0, tag) == Some(p)
  {
    hide WellFormedField;
    FoundFrom(fields, 0, tag, p);
  }

  lemma NotAnywhere(fields: seq<Field>, start: nat, tag: nat)
    requires start < |fields|
    requires forall k :: 0 <= k < |fields| ==> fields[Cyclic(start, k, |fields|)].tag != tag
    ensures FindFrom(fields, 0, tag) == None
  {
    forall p | 0 <= p < |fields|
      ensures fields[p].tag != tag
    {
      var k := if p >= start then p - start else p + |fields| - start;
      assert Cyclic(start, k, |fields|) == p;
    }
  }

  // ---- tables generated from a structure layout ----

  /** Where the compiler put each member, how many bytes it takes, and where its has_/_count/which_ companion is */
  datatype Layout = Layout(offset: seq<int>, size: seq<nat>, companion: seq<int>)

  /** Entry n is a further member of the union that entry n - 1 belongs to. */
  predicate SameUnion(fields: seq<Field>, n: nat)
    requires n < |fields|
  {
    n > 0 && fields[n].rule.OneOf? && fields[n - 1].rule == fields[n].rule
  }

  /** Bytes between the end of the member before entry n and entry n itself */
  function Gap(fields: seq<Field>, l: Layout, n: nat): int
    requires 0 < n < |fields| == |l.offset| == |l.size|
  {
    l.offset[n] - l.offset[n - 1] - l.size[n - 1]
  }

  /** What the PB_FIELD macros compute from the layout: the size of a member, or of one element of an array and
      the number of elements; PB_DATAOFFSET_UNION for further members of a union, which lie where its first
      member does, and the distance from the previous member for every other entry. */
  predicate GeneratedFrom(fields: seq<Field>, l: Layout)
  {
    && |l.offset| == |l.size| == |l.companion| == |fields|
    && forall n :: 0 <= n < |fields| ==> GeneratedEntry(fields, l, n)
  }

  predicate GeneratedEntry(fields: seq<Field>, l: Layout, n: nat)
    requires n < |fields| == |l.offset| == |l.size| == |l.companion|
  {
    && l.size[n] == (if fields[n].rule.Repeated? then fields[n].dataSize * fields[n].arraySize
                     else fields[n].dataSize)
    && fields[n].sizeOffset == l.companion[n] - l.offset[n]
    && if SameUnion(fields, n) then
         && fields[n].dataOffset == PB_SIZE_MAX
         && l.offset[n] == l.offset[n - 1] && l.companion[n] == l.companion[n - 1]
       else fields[n].dataOffset == if n == 0 then l.offset[0] else Gap(fields, l, n)
  }

  /** A union starts right behind another one, PB_SIZE_MAX bytes after the end of its last member. */
  predicate Mistakable(fields: seq<Field>, l: Layout, n: nat)
    requires n < |fields| == |l.offset| == |l.size|
  {
    && n > 0 && fields[n - 1].rule.OneOf? && fields[n].rule.OneOf? && !SameUnion(fields, n)
    && Gap(fields, l, n) == PB_SIZE_MAX
  }

  /** The iterator points at the declared member and its companion. */
  predicate PointsAt(fields: seq<Field>, l: Layout, base: int, n: nat)
    requires n < |fields| == |l.offset| == |l.companion|
  {
    DataAt(fields, base, n) == base + l.offset[n] && SizeAt(fields, base, n) == base + l.companion[n]
  }

  lemma {:induction false} UnmistakablePointers(fields: seq<Field>, l: Layout, base: int, n: nat)
    requires GeneratedFrom(fields, l) && n < |fields|
    requires forall k :: 0 <= k <= n ==> !Mistakable(fields, l, k)
    ensures PointsAt(fields, l, base, n)
  {
    assert GeneratedEntry(fields, l, n) && !Mistakable(fields, l, n);
    if n > 0 {
      assert GeneratedEntry(fields, l, n - 1);
      UnmistakablePointers(fields, l, base, n - 1);
    }
  }

  /** A mistakable entry is taken for a member of the union before it. */
  lemma MistakenPointers(fields: seq<Field>, l: Layout, base: int, n: nat)
    requires GeneratedFrom(fields, l) && n < |fields| && Mistakable(fields, l, n)
    ensures !PointsAt(fields, l, base, n - 1) || !PointsAt(fields, l, base, n)
  {
    assert GeneratedEntry(fields, l, n);
    assert InUnion(fields, n);
  }

  /** At every position the iterator points at the declared member and its companion, exactly when no
      union starts PB_SIZE_MAX bytes behind the last member of another. */
  lemma PointersMatchLayout(fields: seq<Field>, l: Layout, base: int)
    requires |l.offset| == |l.size| == |l.companion| == |fields| && GeneratedFrom(fields, l)
    ensures (forall n :: 0 <= n < |fields| ==> PointsAt(fields, l, base, n))
       <==> (forall n :: 0 <= n < |fields| ==> !Mistakable(fields, l, n))
  {
    hide PointsAt, Mistakable, GeneratedFrom;
    if forall n :: 0 <= n < |fields| ==> !Mistakable(fields, l, n) {
      forall n | 0 <= n < |fields|
        ensures PointsAt(fields, l, base, n)
      {
        UnmistakablePointers(fields, l, base, n);
      }
    } else {
      var n: nat :| n < |fields| && Mistakable(fields, l, n);
      NotFirst(fields, l, n);
      MistakenPointers(fields, l, base, n);
    }
  }

  lemma NotFirst(fields: seq<Field>, l: Layout, n: nat)
    requires n < |fields| == |l.offset| == |l.size|
    ensures Mistakable(fields, l, n) ==> n > 0
  {
  }

  /** Such a layout exists: a union of PB_SIZE_MAX bytes whose last member is one byte long, and right
      behind it the which_ variable and the storage of another. */
  function TwoUnions(): (seq<Field>, Layout)
  {
    var end := PB_SIZE_MAX + 2;
    ([Field(1, FixedBytes, OneOf(1), PB_SIZE_MAX, 0, 1, -1, None),
      Field(2, UVarInt, OneOf(1), 1, 0, PB_SIZE_MAX, -1, None),
      Field(3, UVarInt, OneOf(2), 1, 0, PB_SIZE_MAX, -1, None)],
     Layout([1, 1, end], [PB_SIZE_MAX, 1, 1], [0, 0, end - 1]))
  }

  /** There the iterator takes the second union for the first: it is off by the whole first union and
      the which_ variable. */
  lemma TwoUnionsAreMistaken(base: int)
    ensures var (fields, l) := TwoUnions();
            && WellFormed(fields) && GeneratedFrom(fields, l) && Mistakable(fields, l, 2)
            && DataAt(fields, base, 2) == base + l.offset[2] - (PB_SIZE_MAX + 1)
  {
    var (fields, l) := TwoUnions();
    assert SameUnion(fields, 1) && !SameUnion(fields, 2) && Gap(fields, l, 2) == PB_SIZE_MAX;
    assert GeneratedEntry(fields, l, 0) && GeneratedEntry(fields, l, 1) && GeneratedEntry(fields, l, 2);
    assert InUnion(fields, 1) && InUnion(fields, 2);
    assert DataAt(fields, base, 2) == DataAt(fields, base, 1) == DataAt(fields, base, 0);
  }
}
