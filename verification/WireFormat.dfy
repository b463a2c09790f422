/**
 What the bytes of a record mean: the keys and wire types as numbers, integers in base 128, and
 how a reader without the field gets past the record.
 */
module WireFormat {
  import opened Words
  import opened Varint
  import opened Proto
  import opened Encoding
  import opened Decoding
  import opened Layout
  import opened RoundTrip

  // ---- integers ----

  /** A cast to a signed type gives the one value of the type that is the same modulo its span. */
  lemma CastMeaning(u: nat, size: IntSize)
    ensures InSigned(ToSigned(u, size), size) && ToSigned(u, size) % Span(size) == u % Span(size)
  {
    if size == 1 {
    } else if size == 2 {
    } else if size == 4 {
    } else {
    }
  }

  lemma Distribute(a: int, b: int, m: int)
    ensures (a - b) * m == a * m - b * m
  {
  }

  lemma SmallMultiple(d: int, m: int)
    requires -m < d * m < m
    ensures d == 0
  {
    if d >= 1 {
      MulOrder(1, d, m);
    } else if d <= -1 {
      MulOrder(1, -d, m);
      Distribute(0, d, m);
    }
  }

  lemma ModUnique(u: int, m: nat, q: int, r: nat)
    requires r < m && u == q * m + r
    ensures u % m == r
  {
    var p := u / m;
    assert u == p * m + u % m;
    Distribute(q, p, m);
    SmallMultiple(q - p, m);
  }

  lemma ModOfMod(u: int, m: nat, k: nat)
    requires m > 0 && k > 0
    ensures u % (k * m) % m == u % m
  {
    var big := k * m;
    var q, r := u / big, u % big;
    assert u == q * big + r && q * big == q * k * m;
    assert (q * k + r / m) * m == q * k * m + r / m * m;
    ModUnique(u, m, q * k + r / m, r % m);
  }

  lemma SpanDivides(u: int, size: IntSize)
    ensures u % U64 % Span(size) == u % Span(size)
  {
    if size == 1 {
      ModOfMod(u, 0x100, 0x100_0000_0000_0000);
    } else if size == 2 {
      ModOfMod(u, 0x1_0000, 0x1_0000_0000_0000);
    } else if size == 4 {
      ModOfMod(u, U32, U32);
    } else {
      ModOfMod(u, U64, 1);
    }
  }

  /** pb_dec_varint on any varint, as short as possible or not: the value of the field's type that
      is the same modulo its span. */
  lemma SignedMeaning(f: Field, b: seq<byte>, x: seq<byte>, was: Val)
    requires FieldDescribed(f) && f.ltype.TVarint? && f.dataSize in {1, 2, 4, 8} && OneVarint(b) && |b| <= 10
    ensures var r := DecVal(f, b + x, was);
            && r.Done? && r.value.Int? && r.used == |b| && r.rest == x
            && InSigned(r.value.n, f.dataSize) && r.value.n % Span(f.dataSize) == Base128(b) % Span(f.dataSize)
  {
    hide ToSigned, InSigned, Span, OneVarint, Decode64, FieldDescribed;
    Meaning64(b, x);
    CastMeaning(Base128(b) % U64, f.dataSize);
    SpanDivides(Base128(b), f.dataSize);
  }

  /** pb_dec_uvarint likewise. */
  lemma UnsignedMeaning(f: Field, b: seq<byte>, x: seq<byte>, was: Val)
    requires FieldDescribed(f) && f.ltype.TUVarint? && f.dataSize in {4, 8} && OneVarint(b) && |b| <= 10
    ensures DecVal(f, b + x, was) == Done(Int(Base128(b) % Span(f.dataSize)), |b|, x)
  {
    hide Span, OneVarint, Decode64, FieldDescribed;
    Meaning64(b, x);
    SpanDivides(Base128(b), f.dataSize);
  }

  /** pb_dec_svarint: even words are the numbers from zero up, odd ones from minus one down. */
  lemma ZigZagMeaning(f: Field, b: seq<byte>, x: seq<byte>, was: Val)
    requires FieldDescribed(f) && f.ltype.TSVarint? && f.dataSize in {4, 8} && OneVarint(b) && |b| <= 10
    ensures var r, u := DecVal(f, b + x, was), Base128(b) % U64;
            && r.Done? && r.value.Int? && r.used == |b| && r.rest == x && InSigned(r.value.n, f.dataSize)
            && r.value.n % Span(f.dataSize) == (if u % 2 == 1 then -(u / 2) - 1 else u / 2) % Span(f.dataSize)
  {
    hide ToSigned, InSigned, Span, OneVarint, Decode64, FieldDescribed, UnZigZag;
    Meaning64(b, x);
    var u := Base128(b) % U64;
    UnZigZagValue(u);
    CastMeaning(ToU64(UnZigZag(u)), f.dataSize);
    SpanDivides(UnZigZag(u), f.dataSize);
  }

  /** Fields of other sizes are refused on both sides. */
  lemma OtherSizes(f: Field, w: seq<byte>, was: Val, v: Val)
    requires FieldDescribed(f) && ValTyped(f.ltype, f.dataSize, v)
    requires f.ltype.TVarint? || f.ltype.TUVarint? || f.ltype.TSVarint?
    requires f.dataSize !in if f.ltype.TVarint? then {1, 2, 4, 8} else {4, 8}
    ensures DecVal(f, w, was) == Fail && !ValOk(f.ltype, f.dataSize, v)
  {
    hide Decode64, FieldDescribed;
  }

  /** An integer that fits both types arrives when the two sides disagree on its size. */
  lemma Resized(f: Field, g: Field, n: int, x: seq<byte>, was: Val)
    requires FieldDescribed(g) && f.ltype == g.ltype && (g.ltype.TVarint? || g.ltype.TUVarint? || g.ltype.TSVarint?)
    requires SizeOk(f.ltype, f.dataSize) && SizeOk(g.ltype, g.dataSize)
    requires ValTyped(f.ltype, f.dataSize, Int(n)) && ValTyped(g.ltype, g.dataSize, Int(n))
    ensures var e := EncVal(f.ltype, f.dataSize, Int(n));
            DecVal(g, e + x, was) == Done(Int(n), |e|, x)
  {
    hide Encode, DecVal, FieldDescribed, ZigZag;
    var v := Int(n);
    assert EncVal(f.ltype, f.dataSize, v) == EncVal(g.ltype, g.dataSize, v);
    IntegerSize(g.ltype, g.dataSize, v);
    ValRoundTrip(g, v, was, x);
  }

  lemma IntegerSize(t: LType, size: nat, v: Val)
    requires (t.TVarint? || t.TUVarint? || t.TSVarint?) && SizeOk(t, size) && ValTyped(t, size, v)
    ensures |EncVal(t, size, v)| <= 10
  {
    hide Encode;
    match t
    case TVarint => EncodedSize(ToU64(v.n));
    case TUVarint => EncodedSize(v.n);
    case TSVarint => EncodedSize(ZigZag(v.n));
  }

  // ---- records as bytes ----

  function Plain(tag: nat, t: LType, size: nat): Field {
    Field(tag, t, Required, 0, 0, size, 0, None)
  }

  lemma KeyBytes()
    ensures Key(1, 0) == [0x08] && Key(1, 1) == [0x09] && Key(1, 5) == [0x0D]
    ensures Key(2, 2) == [0x12] && Key(3, 2) == [0x1A] && Key(4, 2) == [0x22]
  {
  }

  lemma NumberBytes()
    ensures Encode(2) == [2] && Encode(3) == [3] && Encode(6) == [6]
    ensures Encode(150) == [0x96, 1] && Encode(270) == [0x8E, 2] && Encode(86942) == [0x9E, 0xA7, 5]
  {
    assert Encode(679) == [0xA7] + Encode(5);
  }

  lemma ScalarBytes()
    ensures ValRecord(Plain(1, TUVarint, 4), Int(150)) == [0x08, 0x96, 0x01]
    ensures ValRecord(Plain(1, TSVarint, 4), Int(-2)) == [0x08, 0x03]
  {
    hide Encode, Key, ZigZag;
    KeyBytes();
    NumberBytes();
    ZigZagValue(-2);
  }

  lemma FixedBytes()
    ensures ValRecord(Plain(1, TFixed32, 4), Raw([1, 2, 3, 4])) == [0x0D, 1, 2, 3, 4]
    ensures ValRecord(Plain(1, TFixed64, 8), Raw([1, 2, 3, 4, 5, 6, 7, 8])) == [0x09, 1, 2, 3, 4, 5, 6, 7, 8]
  {
    hide Encode, Key;
    KeyBytes();
  }

  /** A string goes out up to its first zero. */
  lemma StringBytes()
    ensures ValRecord(Plain(2, TBytes, 8), Blob([7, 8])) == [0x12, 2, 7, 8]
    ensures ValRecord(Plain(2, TString, 8), Text([0x61, 0x62, 0, 0x63])) == [0x12, 2, 0x61, 0x62]
  {
    hide Encode, Key, CLength;
    KeyBytes();
    NumberBytes();
    CutAtZero();
  }

  lemma CutAtZero()
    ensures CLength([0x61, 0x62, 0, 0x63]) == 2
  {
    var m: seq<byte> := [0x61, 0x62, 0, 0x63];
    assert m[1..][1..] == [0, 0x63] && CLength([0, 0x63]) == 0;
  }

  lemma NestedBytes()
    ensures ValRecord(Plain(3, TSubmessage(Schema([Plain(1, TUVarint, 4)])), 4), Msg([One(Int(150))]))
         == [0x1A, 3, 0x08, 0x96, 0x01]
  {
    hide Encode, Key, ValRecord, MsgRecords;
    KeyBytes();
    NumberBytes();
    ScalarBytes();
    var f, v := Plain(3, TSubmessage(Schema([Plain(1, TUVarint, 4)])), 4), Msg([One(Int(150))]);
    NestedRecords();
    OneRecord([0x08, 0x96, 0x01]);
    NestedRecord(f, v);
  }

  lemma NestedRecord(f: Field, v: Val)
    requires ValTyped(f.ltype, f.dataSize, v) && f.ltype.TSubmessage?
    ensures ValRecord(f, v) == Key(f.tag, 2) + Delimited(EncMsg(f.ltype.sub, v.slots))
    ensures EncMsg(f.ltype.sub, v.slots) == Flatten(MsgRecords(f.ltype.sub, v.slots, 0))
  {
  }

  lemma NestedRecords()
    ensures MsgRecords(Schema([Plain(1, TUVarint, 4)]), [One(Int(150))], 0) == [ValRecord(Plain(1, TUVarint, 4), Int(150))]
  {
    hide ValRecord;
    var s, m := Schema([Plain(1, TUVarint, 4)]), [One(Int(150))];
    assert MsgRecords(s, m, 1) == [];
  }

  lemma PackedBytes()
    ensures var f := Field(4, TUVarint, Repeated, 0, 0, 4, 3, None);
            Records(f, Many([Int(3), Int(270), Int(86942)])) == [[0x22, 6, 3, 0x8E, 2, 0x9E, 0xA7, 5]]
  {
    hide Encode, Key, Records;
    KeyBytes();
    NumberBytes();
    var a, b, c := [Int(3), Int(270), Int(86942)], [Int(270), Int(86942)], [Int(86942)];
    assert a[1..] == b && b[1..] == c && c[1..] == [];
    assert EncItems(TUVarint, 4, c) == [0x9E, 0xA7, 5];
    assert EncItems(TUVarint, 4, b) == [0x8E, 2, 0x9E, 0xA7, 5];
    assert EncItems(TUVarint, 4, a) == [3, 0x8E, 2, 0x9E, 0xA7, 5];
    var f := Field(4, TUVarint, Repeated, 0, 0, 4, 3, None);
    PackedIs(f, a);
    var body := EncItems(f.ltype, f.dataSize, a);
    assert body == [3, 0x8E, 2, 0x9E, 0xA7, 5];
    assert Delimited(body) == [6, 3, 0x8E, 2, 0x9E, 0xA7, 5];
    assert Key(f.tag, 2) + Delimited(body) == [0x22, 6, 3, 0x8E, 2, 0x9E, 0xA7, 5];
  }

  lemma PackedIs(f: Field, items: seq<Val>)
    requires SlotTyped(f, Many(items)) && Packable(f.ltype) && items != []
    ensures Records(f, Many(items)) == [Key(f.tag, 2) + Delimited(EncItems(f.ltype, f.dataSize, items))]
  {
  }

  // ---- the records of a message ----

  /** Integers and values of fixed size. */
  predicate IsScalar(t: LType) {
    match t
    case TBytes => false
    case TString => false
    case TSubmessage(_) => false
    case _ => true
  }

  /** Present values make one record each, arrays of scalars one in all, and nothing is written for
      what is absent or empty. */
  lemma RecordCount(f: Field, slot: Slot)
    requires SlotTyped(f, slot)
    ensures |Records(f, slot)| == match slot
                                  case One(_) => 1
                                  case Maybe(has, _) => if has then 1 else 0
                                  case Many(items) => if IsScalar(f.ltype) && |items| > 1 then 1 else |items|
  {
    hide ValTyped, EncVal, EncItems;
  }

  lemma {:induction false} RecordsOfPrefix(s: Schema, m: seq<Slot>, t: Schema, n: seq<Slot>, i: nat)
    requires MsgTyped(s, m) && MsgTyped(t, n) && i <= |m| && |n| == |m| + 1
    requires t.fields[..|m|] == s.fields && n[..|m|] == m
    ensures MsgRecords(t, n, i) == MsgRecords(s, m, i) + Records(t.fields[|m|], n[|m|])
    decreases |m| - i
  {
    hide Records, SlotTyped;
    if i < |m| {
      assert t.fields[i] == s.fields[i] && n[i] == m[i];
      RecordsOfPrefix(s, m, t, n, i + 1);
    } else {
      assert MsgRecords(t, n, i + 1) == [];
    }
  }

  /** Fields are written in the order of the schema: a field behind the others goes out behind them. */
  lemma SchemaOrder(s: Schema, m: seq<Slot>, f: Field, slot: Slot)
    requires MsgTyped(s, m) && SlotTyped(f, slot)
    ensures var t := Schema(s.fields + [f]);
            MsgTyped(t, m + [slot]) && EncMsg(t, m + [slot]) == EncMsg(s, m) + Flatten(Records(f, slot))
  {
    hide Records, SlotTyped;
    var t, n := Schema(s.fields + [f]), m + [slot];
    assert forall i :: 0 <= i < |m| ==> t.fields[i] == s.fields[i] && n[i] == m[i];
    RecordsOfPrefix(s, m, t, n, 0);
    FlattenConcat(MsgRecords(s, m, 0), Records(f, slot));
  }

  // ---- getting past a record ----

  lemma SkipsEncoded(n: nat, x: seq<byte>)
    ensures SkipVarint(Encode(n) + x) == Some(x)
  {
    hide OneVarint, Encode, SkipVarint;
    EncodeFormat(n);
    SkipsVarint(Encode(n));
    SkipVarintExtend(Encode(n), x);
    assert [] + x == x;
  }

  lemma SkipsDelimited(body: seq<byte>, x: seq<byte>)
    requires |body| < U32
    ensures Skip(Delimited(body) + x, 2) == Some(x)
  {
    hide Delimited, DecLength;
    DelimitedRead(body, x);
    assert (body + x)[|body|..] == x;
  }

  /** The wire type in the key is that of the payload: pb_skip_field gets exactly past it. */
  lemma OwnSkips(t: LType, size: nat, v: Val, x: seq<byte>)
    requires ValTyped(t, size, v) && ValOk(t, size, v) && |EncVal(t, size, v)| < U32
    ensures Skip(EncVal(t, size, v) + x, WireType(t)) == Some(x)
  {
    hide Delimited, Encode, SkipVarint, DecLength, EncMsg, ZigZag, MsgOk, MsgTyped, CLength;
    var e := EncVal(t, size, v);
    assert (e + x)[|e|..] == x;
    match t
    case TVarint => SkipsEncoded(ToU64(v.n), x);
    case TUVarint => SkipsEncoded(v.n, x);
    case TSVarint => SkipsEncoded(ZigZag(v.n), x);
    case TBytes => BodyShort(v.data); SkipsDelimited(v.data, x);
    case TString => BodyShort(v.mem[..CLength(v.mem)]); SkipsDelimited(v.mem[..CLength(v.mem)], x);
    case TSubmessage(s) => BodyShort(EncMsg(s, v.slots)); SkipsDelimited(EncMsg(s, v.slots), x);
    case _ =>
  }

  lemma BodyShort(body: seq<byte>)
    ensures |body| < |Delimited(body)|
  {
  }

  /** Every record of a field is skipped by a reader whose schema does not have the tag. */
  lemma PieceSkippable(s: Schema, f: Field, p: Piece)
    requires FieldDescribed(f) && PieceOk(f, p) && (p.Single? ==> p.wt == WireType(f.ltype))
    requires forall i :: 0 <= i < |s.fields| ==> s.fields[i].tag != f.tag
    ensures Skippable(s, PieceRecord(f, p))
  {
    hide EncVal, EncItems, Delimited, Skip, ValTyped, ValOk, DecKey;
    FindComplete(s.fields, 0, f.tag);
    match p
    case Single(wt, v) =>
      var e := EncVal(f.ltype, f.dataSize, v);
      RecordRead(f, wt, e);
      OwnSkips(f.ltype, f.dataSize, v, []);
      assert e + [] == e;
    case Packed(vs) =>
      var e := Delimited(EncItems(f.ltype, f.dataSize, vs));
      RecordRead(f, 2, e);
      SkipsDelimited(EncItems(f.ltype, f.dataSize, vs), []);
      assert e + [] == e;
  }
}
