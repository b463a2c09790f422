/**
 The encoder of pb_encode.c as it runs: an output stream over a byte buffer, or one that only
 counts.  Every operation is proved to append what Encoding says, or to fail exactly when the
 message is not encodable or the buffer is too small.
 */
module Encoder {
  import opened Words
  import opened Varint
  import opened Proto
  import opened Encoding
  import opened FieldIterator

  /** `b` with `e` written over it from `at` on. */
  ghost function Splice(b: seq<byte>, at: nat, e: seq<byte>): (r: seq<byte>)
    requires at + |e| <= |b|
    ensures |r| == |b|
    decreases |e|
  {
    if e == [] then b else Splice(b[at := e[0]], at + 1, e[1..])
  }

  /** Only the bytes from `at` to `at + |e|` change, and they become `e`. */
  lemma {:induction false} SpliceValue(b: seq<byte>, at: nat, e: seq<byte>)
    requires at + |e| <= |b|
    ensures Splice(b, at, e) == b[..at] + e + b[at + |e|..]
    decreases |e|
  {
    if e == [] {
      assert b == b[..at] + e + b[at..];
    } else {
      var b' := b[at := e[0]];
      SpliceValue(b', at + 1, e[1..]);
      assert b'[..at + 1] == b[..at] + [e[0]];
      assert [e[0]] + e[1..] == e;
      assert b'[at + |e|..] == b[at + |e|..];
    }
  }

  /** Writing twice in a row is writing the concatenation. */
  lemma {:induction false} SpliceTwice(b: seq<byte>, at: nat, e1: seq<byte>, e2: seq<byte>)
    requires at + |e1| + |e2| <= |b|
    ensures Splice(Splice(b, at, e1), at + |e1|, e2) == Splice(b, at, e1 + e2)
    decreases |e1|
  {
    if e1 == [] {
      assert e1 + e2 == e2;
    } else {
      assert (e1 + e2)[1..] == e1[1..] + e2;
      SpliceTwice(b[at := e1[0]], at + 1, e1[1..], e2);
    }
  }

  /** buf_write */
  method BufWrite(buf: array<byte>, at: nat, data: seq<byte>)
    requires at + |data| <= buf.Length
    modifies buf
    ensures buf[..] == Splice(old(buf[..]), at, data)
  {
    var i := 0;
    while i < |data|
      invariant i <= |data|
      invariant forall k :: 0 <= k < i ==> buf[at + k] == data[k]
      invariant forall k :: 0 <= k < at || at + i <= k < buf.Length ==> buf[k] == old(buf[k])
    {
      buf[at + i] := data[i];
      i := i + 1;
    }
    assert buf[..at] == old(buf[..at]) && buf[at..at + |data|] == data && buf[at + |data|..] == old(buf[at + |data|..]);
    assert buf[..] == buf[..at] + buf[at..at + |data|] + buf[at + |data|..];
    SpliceValue(old(buf[..]), at, data);
  }

  /** pb_ostream_t: without a buffer the stream is PB_OSTREAM_SIZING. */
  class OStream {
    const buf: array?<byte>
    var state: nat
    var maxSize: nat
    var bytesWritten: nat

    ghost predicate Valid()
      reads this
    {
      buf != null ==> bytesWritten <= maxSize && state + (maxSize - bytesWritten) <= buf.Length
    }

    ghost function Footprint(): set<object> {
      if buf == null then {this} else {this, buf}
    }

    /** Room for `n` more bytes. */
    predicate Fits(n: nat)
      reads this
    {
      buf == null || bytesWritten + n <= maxSize
    }

    ghost function Contents(): seq<byte>
      reads this, if buf == null then {} else {buf}
    {
      if buf == null then [] else buf[..]
    }

    /** From a stream at `at` over `b0` with `w0` of `m0` bytes written, `e` has been appended and
        nothing else of the buffer changed. */
    ghost predicate Holds(b0: seq<byte>, at: nat, w0: nat, m0: nat, e: seq<byte>)
      reads this, if buf == null then {} else {buf}
    {
      && bytesWritten == w0 + |e| && maxSize == m0
      && if buf == null then state == at
         else state == at + |e| && at + |e| <= |b0| && Contents() == Splice(b0, at, e)
    }

    /** Exactly `e` has been appended since. */
    twostate predicate Wrote(e: seq<byte>)
      reads this, if buf == null then {} else {buf}
    {
      Holds(old(Contents()), old(state), old(bytesWritten), old(maxSize), e)
    }

    lemma NothingYet()
      requires Valid()
      ensures Holds(Contents(), state, bytesWritten, maxSize, [])
    {
    }

    lemma HadRoom(b0: seq<byte>, at: nat, w0: nat, m0: nat, e: seq<byte>)
      requires Valid() && Holds(b0, at, w0, m0, e)
      ensures buf == null || w0 + |e| <= m0
    {
    }

    constructor FromBuffer(buf: array?<byte>, state: nat, size: nat)
      requires buf != null ==> state + size <= buf.Length
      ensures Valid() && this.buf == buf && this.state == state && maxSize == size && bytesWritten == 0
    {
      this.buf, this.state, this.maxSize, this.bytesWritten := buf, state, size, 0;
    }

    /** pb_write; a counting stream may be given no data. */
    method Write(data: seq<byte>, count: nat) returns (ok: bool)
      requires Valid() && (buf != null ==> |data| == count)
      modifies Footprint()
      ensures Valid()
      ensures ok == old(Fits(count))
      ensures ok ==> bytesWritten == old(bytesWritten) + count && maxSize == old(maxSize)
      ensures ok && |data| == count ==> Wrote(data)
      ensures ok && buf == null ==> state == old(state)
      ensures !ok ==> Wrote([])
    {
      if buf != null {
        if bytesWritten + count > maxSize {
          return false;
        }
        BufWrite(buf, state, data);
        state := state + count;
      }
      bytesWritten := bytesWritten + count;
      return true;
    }
  }

  lemma EncodeDigit(before: seq<byte>, v: nat)
    ensures v < 128 ==> v / 128 == 0 && v % 128 == v && Encode(v) == [v]
    ensures v >= 128 ==> v / 128 > 0 && before + Encode(v) == (before + [v % 128 + 128]) + Encode(v / 128)
  {
    if v >= 128 {
      Glue(before, [v % 128 + 128], Encode(v / 128));
    }
  }

  lemma Glue(a: seq<byte>, b: seq<byte>, c: seq<byte>)
    ensures a + (b + c) == (a + b) + c
  {
  }

  /** The loop of pb_encode_varint: fills its ten-byte buffer from the low end. */
  method FillVarint(buffer: array<byte>, value: nat) returns (n: nat)
    requires buffer.Length == 10 && 0 < value < U64
    modifies buffer
    ensures n <= 10 && buffer[..n] == Encode(value)
  {
    hide Encode;
    EncodedSize(value);
    var v: nat, i := value, 0;
    while v > 0
      invariant i <= 10
      invariant v > 0 ==> Encode(value) == buffer[..i] + Encode(v)
      invariant v == 0 ==> i > 0 && buffer[i - 1] >= 128 && Encode(value) == buffer[..i - 1] + [buffer[i - 1] - 128]
    {
      ghost var before := buffer[..i];
      EncodeDigit(before, v);
      buffer[i] := v % 128 + 128;
      assert buffer[..i] == before;
      assert buffer[..i + 1] == before + [v % 128 + 128];
      v := v / 128;
      i := i + 1;
    }
    ghost var before := buffer[..i - 1];
    buffer[i - 1] := buffer[i - 1] - 128;
    assert buffer[..i - 1] == before;
    assert buffer[..i] == before + [buffer[i - 1]];
    return i;
  }

  /** pb_encode_varint */
  method EncodeVarint(stream: OStream, value: nat) returns (ok: bool)
    requires stream.Valid() && value < U64
    modifies stream.Footprint()
    ensures stream.Valid()
    ensures ok == old(stream.Fits(|Encode(value)|))
    ensures ok ==> stream.Wrote(Encode(value))
  {
    if value == 0 {
      ok := stream.Write([0], 1);
      return;
    }
    var buffer := new byte[10];
    var n := FillVarint(buffer, value);
    ok := stream.Write(buffer[..n], n);
  }

  /** pb_encode_tag */
  method EncodeTag(stream: OStream, wt: nat, tag: nat) returns (ok: bool)
    requires stream.Valid() && wt < 8 && tag < 0x1_0000
    modifies stream.Footprint()
    ensures stream.Valid()
    ensures ok == old(stream.Fits(|Key(tag, wt)|))
    ensures ok ==> stream.Wrote(Key(tag, wt))
  {
    ok := EncodeVarint(stream, tag * 8 + wt);
  }

  /** pb_encode_string */
  method EncodeString(stream: OStream, data: seq<byte>) returns (ok: bool)
    requires stream.Valid() && |data| < U64
    modifies stream.Footprint()
    ensures stream.Valid()
    ensures ok == old(stream.Fits(|Delimited(data)|))
    ensures ok ==> stream.Wrote(Delimited(data))
  {
    ghost var b0, at := stream.Contents(), stream.state;
    ok := EncodeVarint(stream, |data|);
    if !ok {
      return;
    }
    ok := stream.Write(data, |data|);
    if ok && stream.buf != null {
      SpliceTwice(b0, at, Encode(|data|), data);
    }
  }

  /** The strnlen loop of pb_enc_string: past `mem` stands the terminator. */
  method StringLength(mem: seq<byte>, maxSize: nat) returns (size: nat)
    requires |mem| <= maxSize
    ensures size == CLength(mem)
  {
    size := 0;
    while size < maxSize && size < |mem| && mem[size] != 0
      invariant size <= |mem|
      invariant CLength(mem) == size + CLength(mem[size..])
    {
      assert mem[size..][1..] == mem[size + 1..];
      size := size + 1;
    }
  }

  /** PB_ENCODERS[ltype] */
  method EncodeVal(stream: OStream, f: Field, v: Val) returns (ok: bool)
    requires stream.Valid() && FieldDescribed(f)
    requires ValTyped(f.ltype, f.dataSize, v) && |EncVal(f.ltype, f.dataSize, v)| < U32
    modifies stream.Footprint()
    ensures stream.Valid()
    ensures ok == (ValOk(f.ltype, f.dataSize, v) && old(stream.Fits(|EncVal(f.ltype, f.dataSize, v)|)))
    ensures ok ==> stream.Wrote(EncVal(f.ltype, f.dataSize, v))
    decreases f, 0
  {
    match f.ltype
    case TVarint =>
      if !SizeOk(f.ltype, f.dataSize) {
        return false;
      }
      ok := EncodeVarint(stream, ToU64(v.n));
    case TUVarint =>
      if !SizeOk(f.ltype, f.dataSize) {
        return false;
      }
      ok := EncodeVarint(stream, v.n);
    case TSVarint =>
      if !SizeOk(f.ltype, f.dataSize) {
        return false;
      }
      ok := EncodeVarint(stream, ZigZag(v.n));
    case TFixed32 => ok := stream.Write(v.bytes, 4);
    case TFixed64 => ok := stream.Write(v.bytes, 8);
    case TBytes =>
      if |v.data| + 2 > f.dataSize {
        return false;
      }
      ok := EncodeString(stream, v.data);
    case TString =>
      var size := StringLength(v.mem, f.dataSize);
      ok := EncodeString(stream, v.mem[..size]);
    case TSubmessage(s) =>
      ok := EncodeSubmessage(stream, s, v.slots);
  }

  /** pb_encode_submessage: measures the message on a counting stream, then writes it through a
      substream of exactly that size. */
  method EncodeSubmessage(stream: OStream, s: Schema, slots: seq<Slot>) returns (ok: bool)
    requires stream.Valid() && Described(s) && MsgTyped(s, slots) && |EncMsg(s, slots)| < U32
    modifies stream.Footprint()
    ensures stream.Valid()
    ensures ok == (MsgOk(s, slots) && old(stream.Fits(|Delimited(EncMsg(s, slots))|)))
    ensures ok ==> stream.Wrote(Delimited(EncMsg(s, slots)))
    decreases s, 3
  {
    hide EncMsg, MsgOk, MsgTyped, Described, Encode, Splice;
    ghost var e := EncMsg(s, slots);
    ghost var b0, at := stream.Contents(), stream.state;
    var size := GetEncodedSize(s, slots);
    if size.None? {
      return false;
    }
    ok := EncodeVarint(stream, size.value);
    if !ok {
      return;
    }
    if stream.buf == null {
      ok := stream.Write([], size.value);
      return;
    }
    if stream.bytesWritten + size.value > stream.maxSize {
      return false;
    }
    var substream := new OStream.FromBuffer(stream.buf, stream.state, size.value);
    ok := EncodeMessage(substream, s, slots);
    stream.bytesWritten := stream.bytesWritten + substream.bytesWritten;
    stream.state := substream.state;
    if substream.bytesWritten != size.value {
      assert false;  // "submsg size changed"
      return false;
    }
    SpliceTwice(b0, at, Varint.Encode(size.value), e);
  }

  /** pb_get_encoded_size: the counting stream arrives at the number of bytes that encoding to a
      large enough buffer writes, and refuses the same messages. */
  method GetEncodedSize(s: Schema, slots: seq<Slot>) returns (size: Option<nat>)
    requires Described(s) && MsgTyped(s, slots) && |EncMsg(s, slots)| < U32
    ensures size == if MsgOk(s, slots) then Some(|EncMsg(s, slots)|) else None
    decreases s, 2
  {
    var stream := new OStream.FromBuffer(null, 0, 0);
    var ok := EncodeMessage(stream, s, slots);
    return if ok then Some(stream.bytesWritten) else None;
  }

  lemma EncItemsFrom(t: LType, size: nat, items: seq<Val>, i: nat)
    requires forall k :: 0 <= k < |items| ==> ValTyped(t, size, items[k])
    requires i < |items|
    ensures EncItems(t, size, items[i..]) == EncVal(t, size, items[i]) + EncItems(t, size, items[i + 1..])
  {
    assert items[i..][1..] == items[i + 1..];
  }

  /** The loops over a packed array in encode_array, on the counting and on the writing stream. */
  method EncodeItems(stream: OStream, f: Field, items: seq<Val>) returns (ok: bool)
    requires stream.Valid() && FieldDescribed(f) && Packable(f.ltype)
    requires forall k :: 0 <= k < |items| ==> ValTyped(f.ltype, f.dataSize, items[k])
    requires |EncItems(f.ltype, f.dataSize, items)| < U32
    modifies stream.Footprint()
    ensures stream.Valid()
    ensures ok == ((forall k :: 0 <= k < |items| ==> ValOk(f.ltype, f.dataSize, items[k]))
                   && old(stream.Fits(|EncItems(f.ltype, f.dataSize, items)|)))
    ensures ok ==> stream.Wrote(EncItems(f.ltype, f.dataSize, items))
    decreases f, 1
  {
    hide EncVal, ValOk, ValTyped, FieldDescribed, Splice;
    ghost var whole := EncItems(f.ltype, f.dataSize, items);
    ghost var b0, at := stream.Contents(), stream.state;
    ghost var done: seq<byte> := [];
    stream.NothingYet();
    var i := 0;
    assert items[0..] == items;
    while i < |items|
      invariant i <= |items| && stream.Valid()
      invariant done + EncItems(f.ltype, f.dataSize, items[i..]) == whole
      invariant stream.Wrote(done)
      invariant forall k :: 0 <= k < i ==> ValOk(f.ltype, f.dataSize, items[k])
    {
      EncItemsFrom(f.ltype, f.dataSize, items, i);
      ghost var e := EncVal(f.ltype, f.dataSize, items[i]);
      assert done + e + EncItems(f.ltype, f.dataSize, items[i + 1..]) == whole;
      ok := EncodeVal(stream, f, items[i]);
      if !ok {
        return;
      }
      if stream.buf != null {
        SpliceTwice(b0, at, done, e);
      }
      done := done + e;
      i := i + 1;
    }
    assert done == whole;
    return true;
  }

  lemma ItemRecordsFrom(f: Field, items: seq<Val>, i: nat)
    requires forall k :: 0 <= k < |items| ==> ValTyped(f.ltype, f.dataSize, items[k])
    requires i < |items|
    ensures Flatten(ItemRecords(f, items[i..])) == ValRecord(f, items[i]) + Flatten(ItemRecords(f, items[i + 1..]))
  {
    assert items[i..][1..] == items[i + 1..];
  }

  /** pb_encode_tag_for_field followed by the encoder of the value. */
  method EncodeRecord(stream: OStream, f: Field, v: Val) returns (ok: bool)
    requires stream.Valid() && FieldDescribed(f)
    requires ValTyped(f.ltype, f.dataSize, v) && |ValRecord(f, v)| < U32
    modifies stream.Footprint()
    ensures stream.Valid()
    ensures ok == (ValOk(f.ltype, f.dataSize, v) && old(stream.Fits(|ValRecord(f, v)|)))
    ensures ok ==> stream.Wrote(ValRecord(f, v))
    decreases f, 1
  {
    hide EncVal, ValTyped, ValOk, Encode, Splice;
    ghost var key, e := Key(f.tag, WireType(f.ltype)), EncVal(f.ltype, f.dataSize, v);
    ghost var b0, at := stream.Contents(), stream.state;
    ok := EncodeTag(stream, WireType(f.ltype), f.tag);
    if !ok {
      return;
    }
    ok := EncodeVal(stream, f, v);
    if ok && stream.buf != null {
      SpliceTwice(b0, at, key, e);
    }
  }

  /** The loop over an unpacked array in encode_array. */
  method EncodeItemRecords(stream: OStream, f: Field, items: seq<Val>) returns (ok: bool)
    requires stream.Valid() && FieldDescribed(f)
    requires forall k :: 0 <= k < |items| ==> ValTyped(f.ltype, f.dataSize, items[k])
    requires |Flatten(ItemRecords(f, items))| < U32
    modifies stream.Footprint()
    ensures stream.Valid()
    ensures ok == ((forall k :: 0 <= k < |items| ==> ValOk(f.ltype, f.dataSize, items[k]))
                   && old(stream.Fits(|Flatten(ItemRecords(f, items))|)))
    ensures ok ==> stream.Wrote(Flatten(ItemRecords(f, items)))
    decreases f, 2
  {
    hide ValRecord, ValOk, ValTyped, FieldDescribed, Splice;
    ghost var whole := Flatten(ItemRecords(f, items));
    ghost var b0, at := stream.Contents(), stream.state;
    ghost var done: seq<byte> := [];
    stream.NothingYet();
    var i := 0;
    assert items[0..] == items;
    while i < |items|
      invariant i <= |items| && stream.Valid()
      invariant done + Flatten(ItemRecords(f, items[i..])) == whole
      invariant stream.Wrote(done)
      invariant forall k :: 0 <= k < i ==> ValOk(f.ltype, f.dataSize, items[k])
    {
      ItemRecordsFrom(f, items, i);
      ghost var e := ValRecord(f, items[i]);
      assert done + e + Flatten(ItemRecords(f, items[i + 1..])) == whole;
      ok := EncodeRecord(stream, f, items[i]);
      if !ok {
        return;
      }
      if stream.buf != null {
        SpliceTwice(b0, at, done, e);
      }
      done := done + e;
      i := i + 1;
    }
    assert done == whole;
    return true;
  }

  lemma {:induction false} FixedItemsSize(f: Field, items: seq<Val>)
    requires f.ltype.TFixed32? || f.ltype.TFixed64?
    requires forall k :: 0 <= k < |items| ==> ValTyped(f.ltype, f.dataSize, items[k])
    ensures |EncItems(f.ltype, f.dataSize, items)| == if f.ltype.TFixed32? then 4 * |items| else 8 * |items|
  {
    if items != [] {
      FixedItemsSize(f, items[1..]);
    }
  }

  /** The size of a packed array: computed for the fixed-width types, measured for the others. */
  method PackedSize(f: Field, items: seq<Val>) returns (size: Option<nat>)
    requires FieldDescribed(f) && Packable(f.ltype)
    requires forall k :: 0 <= k < |items| ==> ValTyped(f.ltype, f.dataSize, items[k])
    requires |EncItems(f.ltype, f.dataSize, items)| < U32
    ensures size == if forall k :: 0 <= k < |items| ==> ValOk(f.ltype, f.dataSize, items[k])
                    then Some(|EncItems(f.ltype, f.dataSize, items)|) else None
    decreases f, 2
  {
    if f.ltype.TFixed32? {
      FixedItemsSize(f, items);
      return Some(4 * |items|);
    } else if f.ltype.TFixed64? {
      FixedItemsSize(f, items);
      return Some(8 * |items|);
    }
    var sizestream := new OStream.FromBuffer(null, 0, 0);
    var ok := EncodeItems(sizestream, f, items);
    return if ok then Some(sizestream.bytesWritten) else None;
  }

  /** The length and the items of a packed array; the length is that of what follows. */
  method EncodePackedBody(stream: OStream, f: Field, items: seq<Val>) returns (ok: bool)
    requires stream.Valid() && FieldDescribed(f) && Packable(f.ltype)
    requires forall k :: 0 <= k < |items| ==> ValTyped(f.ltype, f.dataSize, items[k])
    requires |EncItems(f.ltype, f.dataSize, items)| < U32
    modifies stream.Footprint()
    ensures stream.Valid()
    ensures ok == ((forall k :: 0 <= k < |items| ==> ValOk(f.ltype, f.dataSize, items[k]))
                   && old(stream.Fits(|Delimited(EncItems(f.ltype, f.dataSize, items))|)))
    ensures ok ==> stream.Wrote(Delimited(EncItems(f.ltype, f.dataSize, items)))
    decreases f, 3
  {
    hide EncItems, ValOk, ValTyped, Encode, FieldDescribed, Splice;
    ghost var body := EncItems(f.ltype, f.dataSize, items);
    ghost var b0, at := stream.Contents(), stream.state;
    var size := PackedSize(f, items);
    if size.None? {
      return false;
    }
    ok := EncodeVarint(stream, size.value);
    if !ok {
      return;
    }
    if stream.buf == null {
      ok := stream.Write([], size.value);
      return;
    }
    ok := EncodeItems(stream, f, items);
    if ok {
      SpliceTwice(b0, at, Varint.Encode(|body|), body);
    }
  }

  /** The packed branch of encode_array. */
  method EncodePacked(stream: OStream, f: Field, items: seq<Val>) returns (ok: bool)
    requires stream.Valid() && FieldDescribed(f) && Packable(f.ltype)
    requires forall k :: 0 <= k < |items| ==> ValTyped(f.ltype, f.dataSize, items[k])
    requires |EncItems(f.ltype, f.dataSize, items)| < U32
    modifies stream.Footprint()
    ensures stream.Valid()
    ensures ok == ((forall k :: 0 <= k < |items| ==> ValOk(f.ltype, f.dataSize, items[k]))
                   && old(stream.Fits(|Key(f.tag, 2) + Delimited(EncItems(f.ltype, f.dataSize, items))|)))
    ensures ok ==> stream.Wrote(Key(f.tag, 2) + Delimited(EncItems(f.ltype, f.dataSize, items)))
    decreases f, 4
  {
    ghost var e := Delimited(EncItems(f.ltype, f.dataSize, items));
    ghost var b0, at := stream.Contents(), stream.state;
    ok := EncodeTag(stream, 2, f.tag);
    if !ok {
      return;
    }
    ok := EncodePackedBody(stream, f, items);
    if ok && stream.buf != null {
      SpliceTwice(b0, at, Key(f.tag, 2), e);
    }
  }

  /** encode_basic_field with encode_array */
  method EncodeField(stream: OStream, f: Field, slot: Slot) returns (ok: bool)
    requires stream.Valid() && FieldDescribed(f) && SlotTyped(f, slot)
    requires |Flatten(Records(f, slot))| < U32
    modifies stream.Footprint()
    ensures stream.Valid()
    ensures ok == (SlotOk(f, slot) && old(stream.Fits(|Flatten(Records(f, slot))|)))
    ensures ok ==> stream.Wrote(Flatten(Records(f, slot)))
    decreases f, 5
  {
    match slot
    case One(v) =>
      assert Flatten([ValRecord(f, v)]) == ValRecord(f, v);
      ok := EncodeRecord(stream, f, v);
    case Maybe(has, v) =>
      if has {
        assert Flatten([ValRecord(f, v)]) == ValRecord(f, v);
        ok := EncodeRecord(stream, f, v);
      } else {
        ok := true;
      }
    case Many(items) =>
      if |items| == 0 {
        return true;
      }
      if |items| > f.arraySize {
        return false;
      }
      if Packable(f.ltype) {
        ghost var rec := Key(f.tag, 2) + Delimited(EncItems(f.ltype, f.dataSize, items));
        assert Flatten([rec]) == rec;
        ok := EncodePacked(stream, f, items);
      } else {
        ok := EncodeItemRecords(stream, f, items);
      }
  }

  lemma MsgRecordsFrom(s: Schema, slots: seq<Slot>, i: nat, done: seq<byte>)
    requires MsgTyped(s, slots) && i < |slots|
    ensures done + Flatten(MsgRecords(s, slots, i))
         == done + Flatten(Records(s.fields[i], slots[i])) + Flatten(MsgRecords(s, slots, i + 1))
  {
    FlattenConcat(Records(s.fields[i], slots[i]), MsgRecords(s, slots, i + 1));
  }

  lemma {:induction false} RecordsFit(s: Schema, slots: seq<Slot>, j: nat, i: nat)
    requires MsgTyped(s, slots) && j <= i < |slots|
    ensures |Flatten(Records(s.fields[i], slots[i]))| <= |Flatten(MsgRecords(s, slots, j))|
    decreases i - j
  {
    MsgRecordsFrom(s, slots, j, []);
    if j < i {
      RecordsFit(s, slots, j + 1, i);
    }
  }

  /** The first `n` fields reach no error return. */
  ghost predicate FirstOk(s: Schema, slots: seq<Slot>, n: nat)
    requires MsgTyped(s, slots) && n <= |slots|
  {
    forall k :: 0 <= k < n ==> SlotOk(s.fields[k], slots[k])
  }

  lemma FirstOkStep(s: Schema, slots: seq<Slot>, i: nat)
    requires MsgTyped(s, slots) && i <= |slots|
    ensures FirstOk(s, slots, 0) && (FirstOk(s, slots, |slots|) <==> MsgOk(s, slots))
    ensures i < |slots| && FirstOk(s, slots, i) && SlotOk(s.fields[i], slots[i]) ==> FirstOk(s, slots, i + 1)
    ensures i < |slots| && !SlotOk(s.fields[i], slots[i]) ==> !MsgOk(s, slots)
  {
    hide SlotOk;
  }

  lemma WholeMessage(s: Schema, slots: seq<Slot>)
    requires MsgTyped(s, slots)
    ensures EncMsg(s, slots) == Flatten(MsgRecords(s, slots, 0)) && Flatten(MsgRecords(s, slots, |slots|)) == []
  {
  }

  /** encode_field at one position of the schema, after the fields before it. */
  method EncodeAt(stream: OStream, s: Schema, slots: seq<Slot>, i: nat,
                  ghost b0: seq<byte>, ghost at: nat, ghost w0: nat, ghost m0: nat, ghost done: seq<byte>)
      returns (ok: bool)
    requires stream.Valid() && Described(s) && MsgTyped(s, slots) && |EncMsg(s, slots)| < U32
    requires i < |slots| && stream.Holds(b0, at, w0, m0, done)
    modifies stream.Footprint()
    ensures stream.Valid()
    ensures ok == (SlotOk(s.fields[i], slots[i])
                   && (stream.buf == null || w0 + |done| + |Flatten(Records(s.fields[i], slots[i]))| <= m0))
    ensures ok ==> stream.Holds(b0, at, w0, m0, done + Flatten(Records(s.fields[i], slots[i])))
    decreases s, 0
  {
    RecordsFit(s, slots, 0, i);
    ok := EncodeField(stream, s.fields[i], slots[i]);
    if ok && stream.buf != null {
      SpliceTwice(b0, at, done, Flatten(Records(s.fields[i], slots[i])));
    }
  }

  /** pb_encode: walks the schema with the iterator and writes each field.  It succeeds exactly
      when no field has an error and the buffer has room, and then writes the encoding. */
  method EncodeMessage(stream: OStream, s: Schema, slots: seq<Slot>) returns (ok: bool)
    requires stream.Valid() && Described(s) && MsgTyped(s, slots) && |EncMsg(s, slots)| < U32
    modifies stream.Footprint()
    ensures stream.Valid()
    ensures ok == (MsgOk(s, slots) && old(stream.Fits(|EncMsg(s, slots)|)))
    ensures ok ==> stream.Wrote(EncMsg(s, slots))
    decreases s, 1
  {
    hide Records, SlotOk, SlotTyped, ReqCount, Offset, Extent, FieldDescribed, Splice, OStream.Holds;
    hide MsgRecords, Flatten, MsgOk, FirstOk, EncMsg;
    ghost var whole := EncMsg(s, slots);
    ghost var b0, at, w0, m0 := stream.Contents(), stream.state, stream.bytesWritten, stream.maxSize;
    ghost var done: seq<byte> := [];
    stream.NothingYet();
    var iter := new Iterator(s.fields, 0);
    if s.fields == [] {
      WholeMessage(s, slots);
      FirstOkStep(s, slots, 0);
      return true;
    }
    var more := true;
    ghost var i := 0;
    assert done + whole == whole;
    WholeMessage(s, slots);
    FirstOkStep(s, slots, 0);
    while more
      invariant i <= |slots| && stream.Valid() && iter.Valid() && iter.fields == s.fields && fresh(iter)
      invariant more ==> i < |slots| && iter.pos == i
      invariant !more ==> i == |slots|
      invariant done + Flatten(MsgRecords(s, slots, i)) == whole
      invariant stream.Holds(b0, at, w0, m0, done)
      invariant FirstOk(s, slots, i)
      decreases |slots| - i
    {
      ghost var e := Flatten(Records(s.fields[i], slots[i]));
      MsgRecordsFrom(s, slots, i, done);
      FirstOkStep(s, slots, i);
      ok := EncodeAt(stream, s, slots, iter.pos, b0, at, w0, m0, done);
      if !ok {
        return;
      }
      done := done + e;
      more := iter.Next();
      i := i + 1;
    }
    assert done == whole;
    stream.HadRoom(b0, at, w0, m0, whole);
    return true;
  }
}
