/**
 Message descriptors and message structures of nanopb (pb.h): a schema is the pb_field_t array
 up to its terminator, a message is the C struct it describes, seen as values.
 */
module Proto {
  import opened Words
  import opened Varint

  datatype Option<+T> = None | Some(value: T)

  /** PB_LTYPE_*; the extension pseudo-type is not part of this model. */
  datatype LType =
    | TVarint | TUVarint | TSVarint | TFixed32 | TFixed64
    | TBytes | TString
    | TSubmessage(sub: Schema)

  /** PB_HTYPE_* */
  datatype HType = Required | Optional | Repeated

  /** pb_field_t of a static field: `dataOffset` counts from the end of the field before,
      `sizeOffset` from the field's data to its has_ flag or _count, `init` is the default value
      that `ptr` points at. */
  datatype Field = Field(tag: nat, ltype: LType, htype: HType, dataOffset: nat, sizeOffset: int, dataSize: nat,
                         arraySize: nat, init: Option<Val>)

  datatype Schema = Schema(fields: seq<Field>)

  /** The contents of one C variable.  `Text` is a char array up to the terminator the library
      wrote, or the whole array when it has none. */
  datatype Val =
    | Int(n: int)
    | Raw(bytes: seq<byte>)
    | Blob(data: seq<byte>)
    | Text(mem: seq<byte>)
    | Msg(slots: seq<Slot>)

  /** What the struct holds for one field: with the has_ flag or the _count of the field. */
  datatype Slot = One(v: Val) | Maybe(has: bool, v: Val) | Many(items: seq<Val>)

  /** LTYPE <= PB_LTYPE_LAST_PACKABLE */
  predicate Packable(t: LType) {
    t.TVarint? || t.TUVarint? || t.TSVarint? || t.TFixed32? || t.TFixed64?
  }

  /** The data_size values that the integer coders accept; other sizes are an error. */
  predicate SizeOk(t: LType, size: nat) {
    match t
    case TVarint => size in {1, 2, 4, 8}
    case TUVarint => size in {4, 8}
    case TSVarint => size in {4, 8}
    case _ => true
  }

  // ---- typing: every struct in memory satisfies this ----

  predicate ValTyped(t: LType, size: nat, v: Val)
    decreases t
  {
    match t
    case TVarint => v.Int? && (SizeOk(t, size) ==> InSigned(v.n, size))
    case TUVarint => v.Int? && (SizeOk(t, size) ==> 0 <= v.n < Span(size))
    case TSVarint => v.Int? && (SizeOk(t, size) ==> InSigned(v.n, size))
    case TFixed32 => v.Raw? && |v.bytes| == 4
    case TFixed64 => v.Raw? && |v.bytes| == 8
    case TBytes => v.Blob? && |v.data| < 0x1_0000
    case TString => v.Text? && |v.mem| <= size
    case TSubmessage(s) => v.Msg? && MsgTyped(s, v.slots)
  }

  predicate SlotTyped(f: Field, slot: Slot)
    decreases f
  {
    match f.htype
    case Required => slot.One? && ValTyped(f.ltype, f.dataSize, slot.v)
    case Optional => slot.Maybe? && ValTyped(f.ltype, f.dataSize, slot.v)
    case Repeated => slot.Many? && forall k :: 0 <= k < |slot.items| ==> ValTyped(f.ltype, f.dataSize, slot.items[k])
  }

  predicate MsgTyped(s: Schema, slots: seq<Slot>)
    decreases s
  {
    |slots| == |s.fields| && forall i :: 0 <= i < |slots| ==> SlotTyped(s.fields[i], slots[i])
  }

  // ---- descriptors ----

  /** How many of the first `n` fields are required: iter->required_field_index at position n. */
  function ReqCount(fields: seq<Field>, n: nat): (c: nat)
    requires n <= |fields|
    ensures c <= n
  {
    if n == 0 then 0
    else ReqCount(fields, n - 1) + if fields[n - 1].htype.Required? then 1 else 0
  }

  /** What the field counters and the required-field bitmap can hold: 16-bit tags, none zero
      (zero is the terminator), and fewer than 256 required fields; defaults have the field's type. */
  predicate Described(s: Schema)
    decreases s
  {
    && ReqCount(s.fields, |s.fields|) < 256
    && forall i :: 0 <= i < |s.fields| ==> FieldDescribed(s.fields[i])
  }

  predicate FieldDescribed(f: Field)
    decreases f
  {
    && 0 < f.tag < 0x1_0000 && f.dataSize < 0x1_0000 && f.arraySize < 0x1_0000
    && (f.init.Some? ==> ValTyped(f.ltype, f.dataSize, f.init.value))
    && (f.ltype.TSubmessage? ==> Described(f.ltype.sub))
  }

  /** A schema as the generator emits it: in addition the tags are distinct, at every level. */
  predicate WellFormed(s: Schema)
    decreases s
  {
    && Described(s)
    && (forall i, j :: 0 <= i < j < |s.fields| ==> s.fields[i].tag != s.fields[j].tag)
    && forall i :: 0 <= i < |s.fields| ==> FieldWellFormed(s.fields[i])
  }

  predicate FieldWellFormed(f: Field)
    decreases f
  {
    f.ltype.TSubmessage? ==> WellFormed(f.ltype.sub)
  }

  // ---- pb_message_set_to_defaults ----

  function Zero(t: LType): Val
    requires !t.TSubmessage?
  {
    match t
    case TVarint => Int(0)
    case TUVarint => Int(0)
    case TSVarint => Int(0)
    case TFixed32 => Raw([0, 0, 0, 0])
    case TFixed64 => Raw([0, 0, 0, 0, 0, 0, 0, 0])
    case TBytes => Blob([])
    case TString => Text([])
  }

  function DefaultVal(f: Field): (v: Val)
    requires FieldDescribed(f)
    ensures ValTyped(f.ltype, f.dataSize, v)
    decreases f, 0
  {
    if f.ltype.TSubmessage? then Msg(Defaults(f.ltype.sub))
    else if f.init.Some? then f.init.value
    else Zero(f.ltype)
  }

  function DefaultSlot(f: Field): (slot: Slot)
    requires FieldDescribed(f)
    ensures SlotTyped(f, slot)
    decreases f, 1
  {
    match f.htype
    case Required => One(DefaultVal(f))
    case Optional => Maybe(false, DefaultVal(f))
    case Repeated => Many([])
  }

  function Defaults(s: Schema): (slots: seq<Slot>)
    requires Described(s)
    ensures MsgTyped(s, slots)
    decreases s
  {
    seq(|s.fields|, i requires 0 <= i < |s.fields| => DefaultSlot(s.fields[i]))
  }
}
