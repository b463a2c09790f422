/**
 The schema iterator of pb_common.c: it walks the descriptor array cyclically and keeps the
 address of the current field and the number of required fields before it.
 */
module FieldIterator {
  import opened Proto
  import opened Decoding

  /** The bytes a static field takes in the struct. */
  function Extent(f: Field): nat {
    if f.htype.Repeated? then f.dataSize * f.arraySize else f.dataSize
  }

  /** Where field `i` starts in the struct. */
  function Offset(fields: seq<Field>, i: nat): nat
    requires i < |fields|
  {
    if i == 0 then fields[0].dataOffset
    else Offset(fields, i - 1) + Extent(fields[i - 1]) + fields[i].dataOffset
  }

  /** sizeof the has_ flag or the _count of a field. */
  function WordSize(f: Field): nat {
    match f.htype
    case Required => 0
    case Optional => 1
    case Repeated => 2
  }

  /** Where the has_ flag or the _count of field `i` is. */
  function WordOffset(fields: seq<Field>, i: nat): int
    requires i < |fields|
  {
    Offset(fields, i) + fields[i].sizeOffset
  }

  /** The flag or count is in the gap between the field and the one before, as in the structs
      that the generator emits. */
  predicate WordInGap(f: Field) {
    WordSize(f) <= -f.sizeOffset <= f.dataOffset
  }

  /** The descriptor gives each field by the gap behind the one before, arrays counting in full: the
      iterator is where the struct has the fields, whatever their places `at` are. */
  lemma {:induction false} FollowsStruct(fields: seq<Field>, at: seq<nat>, i: nat)
    requires |at| == |fields| && i < |fields| && fields[0].dataOffset == at[0]
    requires forall k :: 0 < k < |at| ==>
               fields[k].dataOffset == at[k] - at[k - 1]
                 - fields[k - 1].dataSize * (if fields[k - 1].htype.Repeated? then fields[k - 1].arraySize else 1)
    ensures Offset(fields, i) == at[i]
  {
    if i > 0 {
      FollowsStruct(fields, at, i - 1);
    }
  }

  /** No two of the fields of a struct, and no flag or count and field, overlap. */
  lemma WordsDisjoint(fields: seq<Field>, i: nat, j: nat)
    requires i < |fields| && j < |fields| && WordInGap(fields[i])
    ensures j >= i ==> WordOffset(fields, i) + WordSize(fields[i]) <= Offset(fields, j)
    ensures j < i ==> Offset(fields, j) + Extent(fields[j]) <= WordOffset(fields, i)
    ensures j > i && WordInGap(fields[j]) ==> WordOffset(fields, i) + WordSize(fields[i]) <= WordOffset(fields, j)
  {
    hide Offset, Extent;
    if i < j {
      FieldsDisjoint(fields, i, j);
    } else if j < i {
      FieldsDisjoint(fields, j, i);
    }
  }

  /** Different fields of a struct do not overlap, and the later one's gap is behind the earlier. */
  lemma {:induction false} FieldsDisjoint(fields: seq<Field>, i: nat, j: nat)
    requires i < j < |fields|
    ensures Offset(fields, i) + Extent(fields[i]) + fields[j].dataOffset <= Offset(fields, j)
  {
    if i + 1 < j {
      FieldsDisjoint(fields, i, j - 1);
    }
  }

  /** The required-field index tells required fields apart. */
  lemma {:induction false} ReqCountMonotone(fields: seq<Field>, i: nat, j: nat)
    requires i <= j <= |fields|
    ensures ReqCount(fields, i) <= ReqCount(fields, j)
    ensures i < j && fields[i].htype.Required? ==> ReqCount(fields, i) < ReqCount(fields, j)
    decreases j
  {
    if i < j {
      ReqCountMonotone(fields, i, j - 1);
    }
  }

  class Iterator {
    const fields: seq<Field>
    const dest: int
    var pos: nat
    var pData: int
    var pSize: int
    var requiredIndex: nat

    /** `pos` is at the terminator only in a message type without fields. */
    ghost predicate Valid()
      reads this
    {
      if fields == [] then pos == 0 && requiredIndex == 0
      else
        && pos < |fields| && requiredIndex == ReqCount(fields, pos)
        && pData == dest + Offset(fields, pos) && pSize == dest + WordOffset(fields, pos)
    }

    /** pb_field_iter_begin */
    constructor (fields: seq<Field>, dest: int)
      ensures Valid() && pos == 0 && this.fields == fields && this.dest == dest
    {
      this.fields, this.dest := fields, dest;
      pos, requiredIndex := 0, 0;
      pData := if fields == [] then dest else dest + fields[0].dataOffset;
      pSize := if fields == [] then dest else dest + fields[0].dataOffset + fields[0].sizeOffset;
    }

    method Restart()
      modifies this
      ensures Valid() && pos == 0
    {
      pos, requiredIndex := 0, 0;
      pData := if fields == [] then dest else dest + fields[0].dataOffset;
      pSize := if fields == [] then pData else pData + fields[0].sizeOffset;
    }

    /** pb_field_iter_next: false when it wraps back to the first field. */
    method Next() returns (more: bool)
      requires Valid()
      modifies this
      ensures Valid()
      ensures fields == [] ==> !more && pos == old(pos)
      ensures fields != [] ==> more == (old(pos) + 1 < |fields|) && pos == if more then old(pos) + 1 else 0
    {
      if fields == [] {
        return false;
      }
      var prev := fields[pos];
      pos := pos + 1;
      if pos == |fields| {
        Restart();
        return false;
      }
      if prev.htype.Required? {
        requiredIndex := requiredIndex + 1;
      }
      pData := pData + Extent(prev) + fields[pos].dataOffset;
      pSize := pData + fields[pos].sizeOffset;
      return true;
    }

    /** The tag at the current position; the terminator's is zero. */
    function Tag(): nat
      requires Valid()
      reads this
    {
      if fields == [] then 0 else fields[pos].tag
    }

    /** pb_field_iter_find: the first match in cyclic order, after at most one lap. */
    method Search(tag: nat) returns (found: bool)
      requires Valid()
      modifies this
      ensures Valid()
      ensures fields == [] ==> found == (tag == 0)
      ensures fields != [] ==> found == Find(fields, old(pos), tag).Some?
      ensures fields != [] ==> pos == if found then Find(fields, old(pos), tag).value else old(pos)
    {
      var start := pos;
      ghost var k := 0;
      while true
        invariant Valid()
        invariant fields == [] ==> k == 0
        invariant fields != [] ==> k < |fields| && pos == Cyclic(|fields|, start, k)
        invariant fields != [] ==> Find(fields, start, tag) == FindFrom(fields, start, k, tag)
        decreases |fields| - k
      {
        if Tag() == tag {
          return true;
        }
        var _ := Next();
        k := k + 1;
        if pos == start {
          return false;
        }
      }
      return false;
    }
  }
}
