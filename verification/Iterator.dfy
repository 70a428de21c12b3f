/** The cyclic field iterator (pb_common.c) and the structure layout it walks. */
module Iterator {
  import opened Wire
  import opened Schema

  /** Neighbouring oneof fields are members of one union. */
  predicate SameUnion(f: Field, g: Field) { f.htype.Oneof? && g.htype.Oneof? }

  /**
   `offs` are the offsets of the members in the C structure, and the data_offset of every
   entry is what PB_DATAOFFSET_FIRST and PB_DATAOFFSET_OTHER make of them.
   */
  ghost predicate Describes(t: seq<Field>, offs: seq<int>) {
    && |offs| == |t|
    && (t != [] ==> t[0].dataOffset == offs[0])
    && forall i :: 0 < i < |t| ==>
         if SameUnion(t[i - 1], t[i])
         then offs[i] == offs[i - 1] && t[i].dataOffset == t[i - 1].dataOffset
         else t[i].dataOffset == offs[i] - offs[i - 1] - MemberSize(t[i - 1])
  }

  /** Members that are not in a union never share storage. */
  lemma {:induction false} StorageIsDisjoint(t: seq<Field>, offs: seq<int>, j: nat, k: nat)
    requires Describes(t, offs) && j < k < |t|
    requires forall i :: 0 <= i < |t| ==> !t[i].htype.Oneof?
    ensures 0 <= offs[j] && offs[j] + MemberSize(t[j]) <= offs[k]
    ensures t[j].atype.Static? && t[j].htype.Repeated? ==> offs[j] + t[j].dataSize * t[j].arraySize <= offs[k]
    ensures t[j].atype.Callback? || (t[j].atype.Static? && !t[j].htype.Repeated?) ==> offs[j] + t[j].dataSize <= offs[k]
    decreases k
  {
    if k == 1 {
      assert !SameUnion(t[0], t[1]);
    } else {
      assert !SameUnion(t[k - 1], t[k]);
      if j < k - 1 { StorageIsDisjoint(t, offs, j, k - 1); } else { StorageIsDisjoint(t, offs, j - 1, j); }
    }
  }

  /** What AtStart says about the table is said about the structure. */
  lemma {:induction false} StartIsOffsetZero(t: seq<Field>, offs: seq<int>, k: nat)
    requires Describes(t, offs) && k < |t| && forall i :: 0 <= i < |t| ==> !t[i].htype.Oneof?
    ensures offs[k] >= 0 && (offs[k] == 0 <==> AtStart(t, k))
    decreases k
  {
    if k > 0 {
      assert !SameUnion(t[k - 1], t[k]);
      StartIsOffsetZero(t, offs, k - 1);
    }
  }

  /** The field has a has_ flag or a count of its own. */
  predicate HasSize(f: Field) {
    f.atype.Static? && (f.htype.Repeated? || (f.htype.Optional? && !Singular(f)))
  }

  /** The flag or count takes one byte in the gap before the data, where the generator puts it. */
  predicate SizePrecedes(f: Field) {
    HasSize(f) ==> 0 <= f.dataOffset + f.sizeOffset && f.sizeOffset <= -1
  }

  predicate SizesPrecede(t: seq<Field>) { forall i :: 0 <= i < |t| ==> SizePrecedes(t[i]) }

  /**
   The flag or count of field i, which pSize points to, shares no byte with the data of any
   field, nor with another flag or count.  A singular field has none: there pSize is pData.
   */
  lemma {:induction false} SizesAreDisjoint(t: seq<Field>, offs: seq<int>, i: nat, j: nat)
    requires Describes(t, offs) && SizesPrecede(t) && i < |t| && j < |t|
    requires forall k :: 0 <= k < |t| ==> !t[k].htype.Oneof?
    ensures var size := offs[i] + t[i].sizeOffset;
            && (HasSize(t[i]) ==> 0 <= size && (size < offs[j] || offs[j] + MemberSize(t[j]) <= size))
            && (HasSize(t[i]) && HasSize(t[j]) && i != j ==> size != offs[j] + t[j].sizeOffset)
            && (Singular(t[i]) ==> size == offs[i])
  {
    assert SizePrecedes(t[i]) && SizePrecedes(t[j]);
    GapBeforeData(t, offs, i);
    GapBeforeData(t, offs, j);
    if i < j { StorageIsDisjoint(t, offs, i, j); }
    if j < i { StorageIsDisjoint(t, offs, j, i); }
    if 0 < i && j < i - 1 { StorageIsDisjoint(t, offs, j, i - 1); }
    if 0 < j && i < j - 1 { StorageIsDisjoint(t, offs, i, j - 1); }
  }

  /** The bytes counted by data_offset lie behind the member before. */
  lemma {:induction false} GapBeforeData(t: seq<Field>, offs: seq<int>, i: nat)
    requires Describes(t, offs) && i < |t| && forall k :: 0 <= k < |t| ==> !t[k].htype.Oneof?
    ensures offs[i] - t[i].dataOffset == if i == 0 then 0 else offs[i - 1] + MemberSize(t[i - 1])
    ensures offs[i] >= t[i].dataOffset
  {
    StartIsOffsetZero(t, offs, i);
    if i > 0 {
      StartIsOffsetZero(t, offs, i - 1);
      assert !SameUnion(t[i - 1], t[i]);
    }
  }

  /** The offsets a table without unions describes. */
  ghost function Layout(t: seq<Field>, n: nat): (offs: seq<int>)
    requires n <= |t|
    ensures |offs| == n
  {
    if n == 0 then []
    else
      var before := Layout(t, n - 1);
      before + [t[n - 1].dataOffset + if n == 1 then 0 else before[n - 2] + MemberSize(t[n - 2])]
  }

  lemma {:induction false} LayoutIsDescribed(t: seq<Field>, n: nat)
    requires n <= |t| && forall i :: 0 <= i < |t| ==> !t[i].htype.Oneof?
    ensures Describes(t[..n], Layout(t, n))
    decreases n
  {
    if n > 0 {
      LayoutIsDescribed(t, n - 1);
      var s, offs := t[..n], Layout(t, n);
      forall i | 0 < i < n ensures s[i].dataOffset == offs[i] - offs[i - 1] - MemberSize(s[i - 1]) {
        if i < n - 1 {
          var s', offs' := t[..n - 1], Layout(t, n - 1);
          assert !SameUnion(s'[i - 1], s'[i]);
          assert s'[i].dataOffset == offs'[i] - offs'[i - 1] - MemberSize(s'[i - 1]);
        }
      }
      if n > 1 { assert s[0] == t[..n - 1][0]; }
    }
  }

  predicate Matches(f: Field, tag: nat) { f.tag == tag && !f.ltype.Extension? }

  /** pb_field_iter_t.  Position |table| is the terminator; only an empty table is left standing on it. */
  class FieldIter {
    const table: seq<Field>
    const destStruct: int
    ghost const offs: seq<int>
    var pos: nat
    var requiredFieldIndex: nat
    var pData: int
    var pSize: int

    /** Everything the iterator holds is determined by its position. */
    ghost predicate Valid()
      reads this
    {
      && Describes(table, offs)
      && (if table == [] then pos == 0 && pData == destStruct && requiredFieldIndex == 0
          else pos < |table|
               && pData == destStruct + offs[pos]
               && pSize == pData + table[pos].sizeOffset
               && requiredFieldIndex == RequiredBefore(table, pos))
    }

    /** An iterator on the first entry. */
    constructor (fields: seq<Field>, dest: int, ghost layout: seq<int>)
      requires Describes(fields, layout)
      ensures Valid() && table == fields && destStruct == dest && offs == layout && pos == 0
    {
      table, destStruct, offs := fields, dest, layout;
      new;
      var nonEmpty := Begin();
    }

    /** pb_field_iter_begin */
    method Begin() returns (nonEmpty: bool)
      requires Describes(table, offs)
      modifies this
      ensures Valid() && pos == 0
      ensures nonEmpty <==> table != []
    {
      pos := 0;
      requiredFieldIndex := 0;
      pData := destStruct + if table == [] then 0 else table[pos].dataOffset;
      pSize := pData + if table == [] then 0 else table[pos].sizeOffset;
      nonEmpty := table != [];
    }

    /** pb_field_iter_next: false when the iterator goes back to the first entry. */
    method Next() returns (more: bool)
      requires Valid()
      modifies this
      ensures Valid()
      ensures more <==> old(pos) + 1 < |table|
      ensures pos == if more then old(pos) + 1 else 0
    {
      if table == [] {
        return false;
      }
      var prev := table[pos];
      pos := pos + 1;
      if pos == |table| {
        var nonEmpty := Begin();
        return false;
      }
      var prevSize := prev.dataSize;
      if prev.htype.Oneof? && table[pos].htype.Oneof? {
        prevSize := 0;
        pData := pData - prev.dataOffset;
      } else if prev.atype.Static? && prev.htype.Repeated? {
        prevSize := prevSize * prev.arraySize;
      } else if prev.atype.Pointer? {
        prevSize := ADDRESS_SIZE;
      }
      if prev.htype.Required? {
        requiredFieldIndex := requiredFieldIndex + 1;
      }
      pData := pData + prevSize + table[pos].dataOffset;
      pSize := pData + table[pos].sizeOffset;
      more := true;
    }

    /**
     pb_field_iter_find: at most one lap from wherever the iterator stands.  On an empty
     table the terminator itself answers to tag 0.
     */
    method Find(tag: nat) returns (found: bool)
      requires Valid()
      modifies this
      ensures Valid()
      ensures table != [] ==> (found <==> exists j :: 0 <= j < |table| && Matches(table[j], tag))
      ensures table != [] && found ==> Matches(table[pos], tag)
      ensures table == [] ==> (found <==> tag == 0)
      ensures !found ==> pos == old(pos)
    {
      if table == [] {
        return tag == 0;
      }
      var start := pos;
      ghost var steps := 0;
      while true
        invariant Valid() && 0 <= steps < |table|
        invariant pos == Around(start, steps)
        invariant forall s :: 0 <= s < steps ==> !Matches(table[Around(start, s)], tag)
        decreases |table| - steps
      {
        if Matches(table[pos], tag) {
          return true;
        }
        var more := Next();
        steps := steps + 1;
        if pos == start {
          break;
        }
      }
      forall j | 0 <= j < |table| ensures !Matches(table[j], tag) {
        var s := if j >= start then j - start else j + |table| - start;
        assert Around(start, s) == j;
      }
      found := false;
    }

    /** The position `steps` entries behind `start`, going round. */
    ghost function Around(start: nat, steps: nat): (p: nat)
      requires start < |table| && steps <= |table|
      ensures steps < |table| ==> p < |table|
    {
      if start + steps < |table| then start + steps else start + steps - |table|
    }
  }

  /** With unique tags it does not matter where the search starts. */
  lemma {:induction false} FoundIsUnique(t: seq<Field>, tag: nat, pos: nat)
    requires UniqueTags(t) && pos < |t| && Matches(t[pos], tag)
    ensures Find(t, tag) == Some(pos)
  {
  }
}
