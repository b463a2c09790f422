/**
 What pb_encode puts on the wire (pb_encode.c), as a function of the schema and the message.
 A message is a sequence of records; each record is a key followed by its payload.
 */
module Encoding {
  import opened Words
  import opened Varint
  import opened Proto

  function Flatten(rs: seq<seq<byte>>): seq<byte> {
    if rs == [] then [] else rs[0] + Flatten(rs[1..])
  }

  /** PB_WT_*: 0 varint, 1 64 bit, 2 length-delimited, 5 32 bit. */
  function WireType(t: LType): nat {
    match t
    case TVarint => 0
    case TUVarint => 0
    case TSVarint => 0
    case TFixed32 => 5
    case TFixed64 => 1
    case TBytes => 2
    case TString => 2
    case TSubmessage(_) => 2
  }

  /** pb_encode_tag */
  function Key(tag: nat, wt: nat): (k: seq<byte>)
    requires wt < 8
    ensures |k| >= 1
  {
    Encode(tag * 8 + wt)
  }

  /** The length of the C string in `mem`: up to its first zero byte, if it has one. */
  function CLength(mem: seq<byte>): (n: nat)
    ensures n <= |mem|
    ensures 0 !in mem[..n]
    ensures n < |mem| ==> mem[n] == 0
  {
    if mem == [] || mem[0] == 0 then 0
    else
      var n := 1 + CLength(mem[1..]);
      assert mem[..n] == [mem[0]] + mem[1..][..n - 1];
      n
  }

  function Delimited(body: seq<byte>): (e: seq<byte>)
    ensures |e| >= 1
  {
    Encode(|body|) + body
  }

  /** None of the error returns of the encoder is reached for this value. */
  predicate ValOk(t: LType, size: nat, v: Val)
    requires ValTyped(t, size, v)
    decreases t
  {
    match t
    case TBytes => |v.data| + 2 <= size
    case TSubmessage(s) => MsgOk(s, v.slots)
    case _ => SizeOk(t, size)
  }

  predicate SlotOk(f: Field, slot: Slot)
    requires SlotTyped(f, slot)
    decreases f
  {
    match slot
    case One(v) => ValOk(f.ltype, f.dataSize, v)
    case Maybe(has, v) => has ==> ValOk(f.ltype, f.dataSize, v)
    case Many(items) => |items| <= f.arraySize && forall k :: 0 <= k < |items| ==> ValOk(f.ltype, f.dataSize, items[k])
  }

  predicate MsgOk(s: Schema, slots: seq<Slot>)
    requires MsgTyped(s, slots)
    decreases s
  {
    forall i :: 0 <= i < |slots| ==> SlotOk(s.fields[i], slots[i])
  }

  /** The payload that PB_ENCODERS[ltype] writes. */
  function EncVal(t: LType, size: nat, v: Val): (e: seq<byte>)
    requires ValTyped(t, size, v)
    ensures ValOk(t, size, v) ==> |e| >= 1
    decreases t, 0
  {
    match t
    case TVarint => Encode(ToU64(v.n))
    case TUVarint => if SizeOk(t, size) then Encode(v.n) else []
    case TSVarint => Encode(ZigZag(v.n))
    case TFixed32 => v.bytes
    case TFixed64 => v.bytes
    case TBytes => Delimited(v.data)
    case TString => Delimited(v.mem[..CLength(v.mem)])
    case TSubmessage(s) => Delimited(EncMsg(s, v.slots))
  }

  function EncItems(t: LType, size: nat, items: seq<Val>): seq<byte>
    requires forall k :: 0 <= k < |items| ==> ValTyped(t, size, items[k])
    decreases t, 1, |items|
  {
    if items == [] then [] else EncVal(t, size, items[0]) + EncItems(t, size, items[1..])
  }

  /** A key for the field's own wire type and one value. */
  function ValRecord(f: Field, v: Val): (r: seq<byte>)
    requires ValTyped(f.ltype, f.dataSize, v)
    decreases f, 0
  {
    Key(f.tag, WireType(f.ltype)) + EncVal(f.ltype, f.dataSize, v)
  }

  function ItemRecords(f: Field, items: seq<Val>): (rs: seq<seq<byte>>)
    requires forall k :: 0 <= k < |items| ==> ValTyped(f.ltype, f.dataSize, items[k])
    ensures |rs| == |items|
    decreases f, 1, |items|
  {
    if items == [] then [] else [ValRecord(f, items[0])] + ItemRecords(f, items[1..])
  }

  /** The records of one field: encode_basic_field and encode_array.  Arrays of scalars are
      always packed into one record. */
  function Records(f: Field, slot: Slot): seq<seq<byte>>
    requires SlotTyped(f, slot)
    decreases f, 2
  {
    match slot
    case One(v) => [ValRecord(f, v)]
    case Maybe(has, v) => if has then [ValRecord(f, v)] else []
    case Many(items) =>
      if items == [] then []
      else if Packable(f.ltype) then [Key(f.tag, 2) + Delimited(EncItems(f.ltype, f.dataSize, items))]
      else ItemRecords(f, items)
  }

  /** The records of fields i, i+1, ... in schema order. */
  function MsgRecords(s: Schema, slots: seq<Slot>, i: nat): seq<seq<byte>>
    requires MsgTyped(s, slots) && i <= |slots|
    decreases s, |slots| - i
  {
    if i == |slots| then [] else Records(s.fields[i], slots[i]) + MsgRecords(s, slots, i + 1)
  }

  /** pb_encode */
  function EncMsg(s: Schema, slots: seq<Slot>): seq<byte>
    requires MsgTyped(s, slots)
    decreases s, |slots| + 1
  {
    Flatten(MsgRecords(s, slots, 0))
  }

  lemma {:induction false} FlattenConcat(a: seq<seq<byte>>, b: seq<seq<byte>>)
    ensures Flatten(a + b) == Flatten(a) + Flatten(b)
  {
    if a == [] {
      assert a + b == b;
    } else {
      assert (a + b)[1..] == a[1..] + b;
      FlattenConcat(a[1..], b);
    }
  }
}
