/**
 The decoder of pb_decode.c as it runs: an input stream over a byte buffer whose pointer and
 byte count advance with every read, substreams that share the buffer, the schema iterator and
 the required-field bitmap.  Every operation is proved to do what Decoding says.
 */
module Decoder {
  import opened Words
  import opened Varint
  import opened Proto
  import opened Encoding
  import opened Decoding
  import opened FieldIterator
  import opened RequiredBitmap

  /** pb_istream_t over a memory buffer. */
  class IStream {
    const buf: seq<byte>
    var state: nat
    var bytesLeft: nat

    ghost predicate Valid()
      reads this
    {
      state + bytesLeft <= |buf|
    }

    /** What the stream may still deliver. */
    ghost function Window(): (w: seq<byte>)
      requires Valid()
      reads this
      ensures |w| == bytesLeft
    {
      buf[state..state + bytesLeft]
    }

    /** The pointer has moved by `n`, and `rest` is left. */
    twostate predicate Moved(n: nat, rest: seq<byte>)
      reads this
    {
      Valid() && state == old(state) + n && Window() == rest
    }

    /** pb_istream_from_buffer */
    constructor (buf: seq<byte>, state: nat, size: nat)
      requires state + size <= |buf|
      ensures Valid() && this.buf == buf && this.state == state && bytesLeft == size
    {
      this.buf, this.state, this.bytesLeft := buf, state, size;
    }

    /** pb_read */
    method Read(count: nat) returns (ok: bool, data: seq<byte>)
      requires Valid()
      modifies this
      ensures ok == (count <= old(bytesLeft))
      ensures ok ==> data == old(Window())[..count] && Moved(count, old(Window())[count..])
      ensures !ok ==> Moved(0, old(Window()))
    {
      if bytesLeft < count {
        return false, [];
      }
      data := buf[state..state + count];
      state := state + count;
      bytesLeft := bytesLeft - count;
      return true, data;
    }

    /** pb_readbyte */
    method ReadByte() returns (ok: bool, b: byte)
      requires Valid()
      modifies this
      ensures ok == (old(bytesLeft) > 0)
      ensures ok ==> b == old(Window())[0] && Moved(1, old(Window())[1..])
      ensures !ok ==> Moved(0, old(Window()))
    {
      if bytesLeft == 0 {
        return false, 0;
      }
      b := buf[state];
      state := state + 1;
      bytesLeft := bytesLeft - 1;
      return true, b;
    }

    /** The pointer moves along with the bytes taken. */
    twostate predicate Took(rest: seq<byte>)
      requires old(Valid())
      reads this
    {
      |rest| <= old(bytesLeft) && Moved(old(bytesLeft) - |rest|, rest)
    }
  }

  /** The first byte of a varint fits the register unshifted. */
  lemma FirstByte(w: seq<byte>, width: nat)
    requires w != [] && width >= 7
    ensures DecodeFrom(w, width, 0, 0)
         == if w[0] >= 128 then DecodeFrom(w[1..], width, 7, w[0] % 128) else Got(w[0], w[1..])
  {
    Pow2Seven(0);
    Pow2Monotone(7, width);
    LowSmall(w[0] % 128, width);
  }

  /** One byte of a varint. */
  lemma VarintStep(w: seq<byte>, width: nat, bitpos: nat, acc: nat)
    ensures bitpos >= width || w == [] ==> DecodeFrom(w, width, bitpos, acc) == Bad(w)
    ensures bitpos < width && w != [] ==>
              var acc' := acc + Low(Shl(w[0] % 128, bitpos), width);
              DecodeFrom(w, width, bitpos, acc)
                == if w[0] >= 128 then DecodeFrom(w[1..], width, bitpos + 7, acc') else Got(acc', w[1..])
  {
  }

  /** pb_decode_varint32: the first byte apart, then the loop. */
  method DecodeVarint32(stream: IStream) returns (ok: bool, dest: nat)
    requires stream.Valid()
    modifies stream
    ensures match Decode32(old(stream.Window()))
            case Got(v, rest) => ok && dest == v && stream.Took(rest)
            case Bad(rest) => !ok && stream.Took(rest)
  {
    hide DecodeFrom, Low, Shl;
    ghost var w := stream.Window();
    VarintStep(w, 32, 0, 0);
    var b: byte;
    ok, b := stream.ReadByte();
    if !ok {
      return false, 0;
    }
    FirstByte(w, 32);
    if b < 0x80 {
      return true, b;
    }
    var bitpos, result: nat := 7, b % 128;
    while true
      invariant stream.Valid() && stream.Took(stream.Window())
      invariant Decode32(w) == DecodeFrom(stream.Window(), 32, bitpos, result)
      decreases stream.bytesLeft
    {
      VarintStep(stream.Window(), 32, bitpos, result);
      if bitpos >= 32 {
        return false, 0;
      }
      ok, b := stream.ReadByte();
      if !ok {
        return false, 0;
      }
      result := result + Low(Shl(b % 128, bitpos), 32);
      bitpos := bitpos + 7;
      if b < 0x80 {
        return true, result;
      }
    }
    assert false;
  }

  /** pb_decode_varint */
  method DecodeVarint(stream: IStream) returns (ok: bool, dest: nat)
    requires stream.Valid()
    modifies stream
    ensures match Decode64(old(stream.Window()))
            case Got(v, rest) => ok && dest == v && stream.Took(rest)
            case Bad(rest) => !ok && stream.Took(rest)
  {
    hide DecodeFrom, Low, Shl;
    ghost var w := stream.Window();
    var bitpos, result: nat := 0, 0;
    while true
      invariant stream.Valid() && stream.Took(stream.Window())
      invariant Decode64(w) == DecodeFrom(stream.Window(), 64, bitpos, result)
      decreases stream.bytesLeft
    {
      VarintStep(stream.Window(), 64, bitpos, result);
      if bitpos >= 64 {
        return false, 0;
      }
      var b: byte;
      ok, b := stream.ReadByte();
      if !ok {
        return false, 0;
      }
      result := result + Low(Shl(b % 128, bitpos), 64);
      bitpos := bitpos + 7;
      if b < 0x80 {
        return true, result;
      }
    }
    assert false;
  }

  /** pb_skip_varint */
  method DoSkipVarint(stream: IStream) returns (ok: bool)
    requires stream.Valid()
    modifies stream
    ensures match SkipVarint(old(stream.Window()))
            case Some(rest) => ok && stream.Took(rest)
            case None => !ok
  {
    ghost var w := stream.Window();
    while true
      invariant stream.Valid() && stream.Took(stream.Window())
      invariant SkipVarint(w) == SkipVarint(stream.Window())
      decreases stream.bytesLeft
    {
      var b: byte;
      ok, b := stream.ReadByte();
      if !ok {
        return;
      }
      if b < 0x80 {
        return true;
      }
    }
    assert false;
  }

  /** pb_skip_string and pb_skip_field */
  method SkipField(stream: IStream, wt: nat) returns (ok: bool)
    requires stream.Valid()
    modifies stream
    ensures match Skip(old(stream.Window()), wt)
            case Some(rest) => ok && stream.Took(rest)
            case None => !ok
  {
    var data: seq<byte>;
    if wt == 0 {
      ok := DoSkipVarint(stream);
    } else if wt == 1 {
      ok, data := stream.Read(8);
    } else if wt == 2 {
      var n: nat;
      ok, n := DecodeVarint32(stream);
      if ok {
        ok, data := stream.Read(n);
      }
    } else if wt == 5 {
      ok, data := stream.Read(4);
    } else {
      ok := false;
    }
  }

  /** pb_decode_tag */
  method DecodeTag(stream: IStream) returns (ok: bool, wt: nat, tag: nat, eof: bool)
    requires stream.Valid()
    modifies stream
    ensures match DecKey(old(stream.Window()))
            case KeyRead(t, n, rest) => ok && !eof && wt == t && tag == n && stream.Took(rest)
            case End(rest) => !ok && eof && wt == 0 && tag == 0 && stream.Took(rest)
            case BadKey => !ok && !eof && wt == 0 && tag == 0
  {
    wt, tag, eof := 0, 0, false;
    var temp: nat;
    ok, temp := DecodeVarint32(stream);
    if !ok {
      eof := stream.bytesLeft == 0;
      return;
    }
    if temp == 0 {
      eof, ok := true, false;
      return;
    }
    wt, tag := temp % 8, temp / 8;
  }

  /** pb_make_string_substream: the substream shares the buffer and the pointer; the parent
      keeps what lies behind it. */
  method MakeSubstream(stream: IStream) returns (ok: bool, sub: IStream, ghost n: nat)
    requires stream.Valid()
    modifies stream
    ensures fresh(sub) && sub.Valid()
    ensures match DecLength(old(stream.Window()))
            case Got(size, rest) =>
              && ok && n == |old(stream.Window())| - |rest|
              && sub.buf == stream.buf && sub.state == stream.state == old(stream.state) + n
              && sub.Window() == rest[..size]
              && stream.bytesLeft == |rest| - size
              && stream.state + |rest| <= |stream.buf| && stream.buf[stream.state..stream.state + |rest|] == rest
            case Bad(_) => !ok
  {
    var size: nat;
    ghost var w := stream.Window();
    n := 0;
    ok, size := DecodeVarint32(stream);
    if !ok || stream.bytesLeft < size {
      sub := new IStream(stream.buf, stream.state, 0);
      return false, sub, 0;
    }
    n := |w| - stream.bytesLeft;
    sub := new IStream(stream.buf, stream.state, size);
    ghost var rest := stream.Window();
    assert sub.Window() == rest[..size];
    stream.bytesLeft := stream.bytesLeft - size;
  }

  /** pb_dec_varint, pb_dec_uvarint and pb_dec_svarint */
  method DecodeInt(stream: IStream, f: Field, ghost was: Val) returns (ok: bool, v: Val)
    requires stream.Valid() && FieldDescribed(f)
    requires f.ltype.TVarint? || f.ltype.TUVarint? || f.ltype.TSVarint?
    modifies stream
    ensures match DecVal(f, old(stream.Window()), was)
            case Done(x, used, rest) => ok && v == x && stream.Moved(used, rest)
            case Fail => !ok
  {
    var value: nat;
    Decode64Bound(stream.Window());
    ok, value := DecodeVarint(stream);
    if !ok || !SizeOk(f.ltype, f.dataSize) {
      return false, Int(0);
    }
    match f.ltype
    case TVarint => v := Int(ToSigned(value, f.dataSize));
    case TUVarint => v := Int(value % Span(f.dataSize));
    case TSVarint => v := Int(ToSigned(ToU64(UnZigZag(value)), f.dataSize));
  }

  lemma Decode64Bound(w: seq<byte>)
    ensures Decode64(w).Got? ==> Decode64(w).value < U64
  {
    if Decode64(w).Got? {
      Decode64Range(w);
    }
  }

  /** pb_dec_bytes and pb_dec_string */
  method DecodeBytes(stream: IStream, f: Field, ghost was: Val) returns (ok: bool, v: Val)
    requires stream.Valid() && FieldDescribed(f)
    requires f.ltype.TBytes? || f.ltype.TString?
    modifies stream
    ensures match DecVal(f, old(stream.Window()), was)
            case Done(x, used, rest) => ok && v == x && stream.Moved(used, rest)
            case Fail => !ok
  {
    var size: nat;
    var data: seq<byte>;
    ok, size := DecodeVarint32(stream);
    if !ok {
      return false, Int(0);
    }
    if f.ltype.TBytes? {
      if size > 0xFFFF || size + 2 > f.dataSize {
        return false, Int(0);
      }
    } else if size + 1 > f.dataSize {
      return false, Int(0);
    }
    ok, data := stream.Read(size);
    v := if f.ltype.TBytes? then Blob(data) else Text(data);
  }

  /** pb_dec_fixed32 and pb_dec_fixed64 */
  method DecodeFixed(stream: IStream, f: Field, ghost was: Val) returns (ok: bool, v: Val)
    requires stream.Valid() && FieldDescribed(f)
    requires f.ltype.TFixed32? || f.ltype.TFixed64?
    modifies stream
    ensures match DecVal(f, old(stream.Window()), was)
            case Done(x, used, rest) => ok && v == x && stream.Moved(used, rest)
            case Fail => !ok
  {
    var data: seq<byte>;
    ok, data := stream.Read(if f.ltype.TFixed32? then 4 else 8);
    v := Raw(data);
  }

  /** PB_DECODERS[ltype] */
  method DecodeVal(stream: IStream, f: Field, was: Val) returns (ok: bool, v: Val)
    requires stream.Valid() && FieldDescribed(f)
    requires f.ltype.TSubmessage? ==> ValTyped(f.ltype, f.dataSize, was)
    modifies stream
    ensures match DecVal(f, old(stream.Window()), was)
            case Done(x, used, rest) => ok && v == x && stream.Moved(used, rest)
            case Fail => !ok
    decreases f, 1
  {
    match f.ltype
    case TVarint => ok, v := DecodeInt(stream, f, was);
    case TUVarint => ok, v := DecodeInt(stream, f, was);
    case TSVarint => ok, v := DecodeInt(stream, f, was);
    case TFixed32 => ok, v := DecodeFixed(stream, f, was);
    case TFixed64 => ok, v := DecodeFixed(stream, f, was);
    case TBytes => ok, v := DecodeBytes(stream, f, was);
    case TString => ok, v := DecodeBytes(stream, f, was);
    case TSubmessage(_) => ok, v := DecodeSubmessage(stream, f, was);
  }

  /** pb_close_string_substream: the parent's pointer moves to where the substream stopped. */
  method CloseSubstream(stream: IStream, sub: IStream, ghost size: nat, ghost rest: seq<byte>)
    requires sub != stream && stream.state + |rest| <= |stream.buf|
             && stream.buf[stream.state..stream.state + |rest|] == rest
    requires size <= |rest| && stream.bytesLeft == |rest| - size
    requires stream.state <= sub.state <= stream.state + size
    modifies stream
    ensures stream.Valid() && stream.state == sub.state
    ensures stream.Window() == rest[sub.state - old(stream.state)..sub.state - old(stream.state) + |rest| - size]
  {
    SliceOfSlice(stream.buf, stream.state, rest, sub.state - stream.state, stream.bytesLeft);
    stream.state := sub.state;
  }

  lemma SliceOfSlice(buf: seq<byte>, at: nat, rest: seq<byte>, used: nat, left: nat)
    requires at + |rest| <= |buf| && buf[at..at + |rest|] == rest && used + left <= |rest|
    ensures buf[at + used..at + used + left] == rest[used..used + left]
  {
    forall j | 0 <= j < |rest| ensures rest[j] == buf[at + j] {
      assert buf[at..at + |rest|][j] == rest[j];
    }
  }

  /** pb_dec_submessage */
  method DecodeSubmessage(stream: IStream, f: Field, was: Val) returns (ok: bool, v: Val)
    requires stream.Valid() && FieldDescribed(f) && f.ltype.TSubmessage?
    requires ValTyped(f.ltype, f.dataSize, was)
    modifies stream
    ensures match DecVal(f, old(stream.Window()), was)
            case Done(x, used, rest) => ok && v == x && stream.Moved(used, rest)
            case Fail => !ok
    decreases f, 0
  {
    hide DecVal, DecLength, DecLoop, MsgTyped;
    ghost var w := stream.Window();
    var sub: IStream;
    ghost var n: nat;
    LengthGot(f, w, was);
    ok, sub, n := MakeSubstream(stream);
    if !ok {
      return false, was;
    }
    ghost var size, rest := DecLength(w).value, DecLength(w).rest;
    SubmessageIs(f, w, was, size, rest);
    var slots: seq<Slot>;
    ok, slots := DecodeNoInit(sub, f.ltype.sub, was.slots);
    if !ok {
      return false, was;
    }
    CloseSubstream(stream, sub, size, rest);
    return true, Msg(slots);
  }

  /** What the next value `r` in the window means for the array. */
  ghost predicate Popped(f: Field, w: seq<byte>, items: seq<Val>, r: Dec<Val>)
    requires FieldDescribed(f) && Packable(f.ltype)
    requires forall k :: 0 <= k < |items| ==> ValTyped(f.ltype, f.dataSize, items[k])
    requires r.Done? ==> ValTyped(f.ltype, f.dataSize, r.value)
  {
    DecPacked(f, w, items) == if r.Fail? then None else DecPacked(f, r.rest, items + [r.value])
  }

  /** One round of the loop over a packed array. */
  lemma PackedStep(f: Field, w: seq<byte>, items: seq<Val>)
    requires FieldDescribed(f) && Packable(f.ltype)
    requires forall k :: 0 <= k < |items| ==> ValTyped(f.ltype, f.dataSize, items[k])
    ensures w == [] ==> DecPacked(f, w, items) == Some(items)
    ensures w != [] && |items| >= f.arraySize ==> DecPacked(f, w, items) == None
    ensures w != [] && |items| < f.arraySize ==> Popped(f, w, items, DecVal(f, w, DefaultVal(f)))
  {
  }

  /** The body of that loop. */
  method DecodePackedItem(sub: IStream, f: Field, items: seq<Val>) returns (ok: bool, items': seq<Val>)
    requires sub.Valid() && sub.bytesLeft > 0 && FieldDescribed(f) && Packable(f.ltype) && |items| < f.arraySize
    requires forall k :: 0 <= k < |items| ==> ValTyped(f.ltype, f.dataSize, items[k])
    modifies sub
    ensures !ok ==> DecPacked(f, old(sub.Window()), items).None?
    ensures ok ==> sub.Valid() && sub.bytesLeft < old(sub.bytesLeft)
    ensures ok ==> sub.state + sub.bytesLeft == old(sub.state + sub.bytesLeft)
    ensures ok ==> forall k :: 0 <= k < |items'| ==> ValTyped(f.ltype, f.dataSize, items'[k])
    ensures ok ==> DecPacked(f, old(sub.Window()), items) == DecPacked(f, sub.Window(), items')
    decreases f, 2
  {
    hide DecVal, DecPacked, DefaultVal, ValTyped, FieldDescribed;
    PackedStep(f, sub.Window(), items);
    var item: Val;
    ok, item := DecodeVal(sub, f, DefaultVal(f));
    items' := if ok then items + [item] else items;
  }

  /** The packed branch of decode_static_field. */
  method DecodePacked(stream: IStream, f: Field, items: seq<Val>) returns (ok: bool, items': seq<Val>)
    requires stream.Valid() && FieldDescribed(f) && Packable(f.ltype)
    requires forall k :: 0 <= k < |items| ==> ValTyped(f.ltype, f.dataSize, items[k])
    modifies stream
    ensures var w := old(stream.Window());
            match DecLength(w)
            case Bad(_) => !ok
            case Got(n, rest) =>
              match DecPacked(f, rest[..n], items)
              case None => !ok
              case Some(r) => ok && items' == r && stream.Moved(|w| - |rest| + n, rest[n..])
    decreases f, 3
  {
    hide DecVal, DecPacked, DefaultVal, ValTyped, FieldDescribed, DecLength;
    ghost var w := stream.Window();
    var sub: IStream;
    ghost var n: nat;
    items' := items;
    ok, sub, n := MakeSubstream(stream);
    if !ok {
      return;
    }
    ghost var size, rest := DecLength(w).value, DecLength(w).rest;
    var status := true;
    while sub.bytesLeft > 0 && |items'| < f.arraySize
      invariant sub.Valid() && sub.buf == stream.buf && fresh(sub) && stream.state + size == sub.state + sub.bytesLeft
      invariant status ==> forall k :: 0 <= k < |items'| ==> ValTyped(f.ltype, f.dataSize, items'[k])
      invariant status ==> DecPacked(f, rest[..size], items) == DecPacked(f, sub.Window(), items')
      invariant stream.state == old(stream.state) + n && stream.bytesLeft == |rest| - size
      decreases sub.bytesLeft
    {
      status, items' := DecodePackedItem(sub, f, items');
      if !status {
        return false, items';
      }
    }
    PackedStep(f, sub.Window(), items');
    if sub.bytesLeft != 0 {
      return false, items';  // array overflow
    }
    CloseSubstream(stream, sub, size, rest);
    return true, items';
  }

  /** decode_static_field */
  method DecodeField(stream: IStream, wt: nat, f: Field, slot: Slot) returns (ok: bool, slot': Slot)
    requires stream.Valid() && FieldDescribed(f) && SlotTyped(f, slot)
    modifies stream
    ensures match DecSlot(f, wt, old(stream.Window()), slot)
            case Done(x, used, rest) => ok && slot' == x && stream.Moved(used, rest)
            case Fail => !ok
    decreases f, 4
  {
    var v: Val;
    match slot
    case One(was) =>
      ok, v := DecodeVal(stream, f, was);
      slot' := One(v);
    case Maybe(_, was) =>
      ok, v := DecodeVal(stream, f, was);
      slot' := Maybe(true, v);
    case Many(items) =>
      if wt == 2 && Packable(f.ltype) {
        var items': seq<Val>;
        ok, items' := DecodePacked(stream, f, items);
        slot' := Many(items');
      } else if |items| >= f.arraySize {
        return false, slot;  // array overflow
      } else {
        var init := InitialVal(f);
        ok, v := DecodeVal(stream, f, init);
        slot' := Many(items + [v]);
      }
  }

  /** The body of the loop in pb_message_set_to_defaults for one variable. */
  method InitialVal(f: Field) returns (v: Val)
    requires FieldDescribed(f)
    ensures v == DefaultVal(f)
    decreases f, 0
  {
    if f.ltype.TSubmessage? {
      var slots := SetToDefaults(f.ltype.sub);
      return Msg(slots);
    }
    return if f.init.Some? then f.init.value else Zero(f.ltype);
  }

  /** pb_message_set_to_defaults */
  method SetToDefaults(s: Schema) returns (slots: seq<Slot>)
    requires Described(s)
    ensures slots == Defaults(s)
    decreases s
  {
    slots := [];
    var iter := new Iterator(s.fields, 0);
    var more := s.fields != [];
    while more
      invariant iter.Valid() && iter.fields == s.fields && |slots| <= |s.fields|
      invariant more ==> |slots| < |s.fields| && iter.pos == |slots|
      invariant !more ==> |slots| == |s.fields|
      invariant forall i :: 0 <= i < |slots| ==> slots[i] == DefaultSlot(s.fields[i])
      decreases |s.fields| - |slots|
    {
      var f := s.fields[iter.pos];
      if f.htype.Repeated? {
        slots := slots + [Many([])];
      } else {
        var v := InitialVal(f);
        slots := slots + [if f.htype.Optional? then Maybe(false, v) else One(v)];
      }
      more := iter.Next();
    }
  }

  /** The final check of pb_decode_noinit: walks the iterator to the end to count the required
      fields, then tests the bitmap. */
  method CheckRequired(iter: Iterator, s: Schema, bits: array<bv8>, ghost seen: set<nat>) returns (ok: bool)
    requires Described(s) && iter.Valid() && iter.fields == s.fields
    requires bits.Length == 32 && Represents(s.fields, bits[..], seen)
    modifies iter
    ensures ok <==> AllRequired(s, seen)
  {
    var count, lastRequired := iter.requiredIndex, true;
    var more := true;
    while more
      invariant iter.Valid()
      invariant s.fields == [] ==> count == 0
      invariant more && s.fields != [] ==> iter.pos < |s.fields|
      invariant !more && s.fields != [] ==>
                  count == ReqCount(s.fields, |s.fields| - 1) && lastRequired == s.fields[|s.fields| - 1].htype.Required?
      decreases more, |s.fields| - iter.pos
    {
      count := iter.requiredIndex;
      lastRequired := s.fields == [] || s.fields[iter.pos].htype.Required?;
      more := iter.Next();
    }
    assert s.fields != [] ==> FieldDescribed(s.fields[iter.pos]);
    if lastRequired && iter.Tag() != 0 {
      count := count + 1;
    }
    assert count == ReqCount(s.fields, |s.fields|);
    ok := AllSeen(bits, count);
    FullRepresents(s.fields, bits[..], seen);
    assert ok <==> forall q :: 0 <= q < ReqCount(s.fields, |s.fields|) ==> IsSet(bits[..], q);
  }

  /** Sets the bit of the field under the iterator, if it is required. */
  method NoteRequired(iter: Iterator, s: Schema, bits: array<bv8>, ghost seen: set<nat>) returns (ghost seen': set<nat>)
    requires Described(s) && iter.Valid() && iter.fields == s.fields && s.fields != []
    requires bits.Length == 32 && Represents(s.fields, bits[..], seen)
    modifies bits
    ensures seen' == if s.fields[iter.pos].htype.Required? then seen + {iter.pos} else seen
    ensures Represents(s.fields, bits[..], seen')
  {
    seen' := seen;
    if s.fields[iter.pos].htype.Required? {
      ghost var before := bits[..];
      ReqCountMonotone(s.fields, iter.pos, |s.fields|);
      MarkSeen(bits, iter.requiredIndex);
      MarkRepresents(s.fields, before, bits[..], seen, iter.pos);
      seen' := seen + {iter.pos};
    }
  }

  lemma FindNothing(start: nat, tag: nat)
    ensures Find([], start, tag).None?
  {
  }

  datatype Status = Continue | EndOfMessage | Error

  /** One round of the loop in pb_decode_noinit. */
  method DecodeOne(stream: IStream, s: Schema, iter: Iterator, bits: array<bv8>, slots: seq<Slot>, ghost seen: set<nat>)
      returns (status: Status, slots': seq<Slot>, ghost seen': set<nat>)
    requires stream.Valid() && stream.bytesLeft > 0 && Described(s) && MsgTyped(s, slots)
    requires iter.Valid() && iter.fields == s.fields
    requires bits.Length == 32 && Represents(s.fields, bits[..], seen)
    modifies stream, iter, bits
    ensures !status.Error? ==> stream.Valid() && iter.Valid() && Represents(s.fields, bits[..], seen')
    ensures !status.Error? ==> stream.state >= old(stream.state) && MsgTyped(s, slots')
    ensures status.Continue? ==> stream.bytesLeft < old(stream.bytesLeft)
    ensures var r := DecLoop(s, old(iter.pos), seen, slots, old(stream.Window()));
            match status
            case Continue => r == Advance(stream.state - old(stream.state), DecLoop(s, iter.pos, seen', slots', stream.Window()))
            case EndOfMessage => seen' == seen && slots' == slots && r == Finish(s, seen, slots, stream.state - old(stream.state), stream.Window())
            case Error => r == Fail
    decreases s, 0
  {
    hide DecKey, Skip, Find, DecSlot, Represents, AllRequired, DecLoop, ReqCount, Offset, Extent, SlotTyped, FieldDescribed;
    slots', seen' := slots, seen;
    ghost var w, it := stream.Window(), iter.pos;
    var ok, wt, tag, eof := DecodeTag(stream);
    if !ok {
      LoopEnds(s, it, seen, slots, w);
      return if eof then EndOfMessage else Error, slots, seen;
    }
    FindNothing(it, tag);
    var found := iter.Search(tag);
    if !found {
      LoopSkips(s, it, seen, slots, w);
      ok := SkipField(stream, wt);
      return if ok then Continue else Error, slots, seen;
    }
    if s.fields == [] {
      // the terminator's descriptor: no integer has data_size zero
      LoopSkips(s, it, seen, slots, w);
      return Error, slots, seen;
    }
    LoopTakes(s, it, seen, slots, w, iter.pos);
    seen' := NoteRequired(iter, s, bits, seen);
    var slot;
    ok, slot := DecodeField(stream, wt, s.fields[iter.pos], slots[iter.pos]);
    if !ok {
      return Error, slots, seen';
    }
    slots' := slots[iter.pos := slot];
    return Continue, slots', seen';
  }

  /** pb_decode_noinit */
  method DecodeNoInit(stream: IStream, s: Schema, dest: seq<Slot>) returns (ok: bool, slots: seq<Slot>)
    requires stream.Valid() && Described(s) && MsgTyped(s, dest)
    modifies stream
    ensures match DecLoop(s, 0, {}, dest, old(stream.Window()))
            case Done(x, used, rest) => ok && slots == x && stream.Moved(used, rest)
            case Fail => !ok
    decreases s
  {
    hide DecLoop, MsgTyped, Represents, ReqCount, Offset, Extent, AllRequired;
    slots := dest;
    var bits := new bv8[32](_ => 0);
    var iter := new Iterator(s.fields, 0);
    ghost var seen: set<nat> := {};
    ghost var w := stream.Window();
    NoneSeen(s.fields, bits[..]);
    var status := Continue;
    while status.Continue? && stream.bytesLeft > 0
      invariant stream.Valid() && iter.Valid() && !status.Error?
      invariant bits.Length == 32 && Represents(s.fields, bits[..], seen)
      invariant stream.state >= old(stream.state) && MsgTyped(s, slots)
      invariant DecLoop(s, 0, {}, dest, w)
             == Advance(stream.state - old(stream.state),
                        if status.Continue? then DecLoop(s, iter.pos, seen, slots, stream.Window())
                        else Finish(s, seen, slots, 0, stream.Window()))
      decreases status.Continue?, stream.bytesLeft
    {
      status, slots, seen := DecodeOne(stream, s, iter, bits, slots, seen);
      if status.Error? {
        return false, slots;
      }
    }
    LoopEmpty(s, iter.pos, seen, slots);
    ok := CheckRequired(iter, s, bits, seen);
  }

  lemma NoneSeen(fields: seq<Field>, bits: seq<bv8>)
    requires |bits| == 32 && ReqCount(fields, |fields|) < 256 && forall i :: 0 <= i < 32 ==> bits[i] == 0
    ensures Represents(fields, bits, {})
  {
    forall q | 0 <= q < 256 ensures !IsSet(bits, q) {
      assert bits[q / 8] == 0;
    }
    forall i | 0 <= i < |fields| && fields[i].htype.Required? ensures !SeenAt(fields, bits, i) {
      ReqCountMonotone(fields, i, |fields|);
    }
  }

  /** pb_decode: accepts exactly what DecMsg accepts, with the same message, and leaves the
      stream where DecMsg says. */
  method Decode(stream: IStream, s: Schema) returns (ok: bool, slots: seq<Slot>)
    requires stream.Valid() && Described(s)
    modifies stream
    ensures match DecMsg(s, old(stream.Window()))
            case Done(x, used, rest) => ok && slots == x && stream.Moved(used, rest)
            case Fail => !ok
  {
    var init := SetToDefaults(s);
    ok, slots := DecodeNoInit(stream, s, init);
  }
}
