/**
 pb_decode after pb_encode, for every schema, every nesting and every message the encoder
 accepts: the message comes back in canonical form, and comes back unchanged exactly when it
 fits its descriptor.
 */
module RoundTrip {
  import opened Words
  import opened Varint
  import opened Proto
  import opened Encoding
  import opened Decoding
  import opened Layout

  // ---- what can be transmitted ----

  /** Every string that is sent ends inside its array, so the receiver has room for the zero. */
  predicate ValTerminated(t: LType, size: nat, v: Val)
    requires ValTyped(t, size, v)
    decreases t
  {
    match t
    case TString => CLength(v.mem) < size
    case TSubmessage(s) => MsgTerminated(s, v.slots)
    case _ => true
  }

  predicate SlotTerminated(f: Field, slot: Slot)
    requires SlotTyped(f, slot)
    decreases f
  {
    match slot
    case One(v) => ValTerminated(f.ltype, f.dataSize, v)
    case Maybe(has, v) => has ==> ValTerminated(f.ltype, f.dataSize, v)
    case Many(items) => forall k :: 0 <= k < |items| ==> ValTerminated(f.ltype, f.dataSize, items[k])
  }

  predicate MsgTerminated(s: Schema, slots: seq<Slot>)
    requires MsgTyped(s, slots)
    decreases s
  {
    forall i :: 0 <= i < |slots| ==> SlotTerminated(s.fields[i], slots[i])
  }

  /** What the wire carries of a message: strings up to their first zero, and nothing of an
      absent optional field, which the receiver finds at its default. */
  function CanonVal(t: LType, size: nat, v: Val): (c: Val)
    requires ValTyped(t, size, v) && (t.TSubmessage? ==> Described(t.sub))
    ensures ValTyped(t, size, c)
    decreases t
  {
    match t
    case TString => Text(v.mem[..CLength(v.mem)])
    case TSubmessage(s) => Msg(CanonMsg(s, v.slots))
    case _ => v
  }

  function CanonSlot(f: Field, slot: Slot): (c: Slot)
    requires SlotTyped(f, slot) && FieldDescribed(f)
    ensures SlotTyped(f, c)
    decreases f
  {
    match slot
    case One(v) => One(CanonVal(f.ltype, f.dataSize, v))
    case Maybe(has, v) => if has then Maybe(true, CanonVal(f.ltype, f.dataSize, v)) else Maybe(false, DefaultVal(f))
    case Many(items) => Many(CanonItems(f, items))
  }

  function CanonItems(f: Field, items: seq<Val>): (c: seq<Val>)
    requires FieldDescribed(f)
    requires forall k :: 0 <= k < |items| ==> ValTyped(f.ltype, f.dataSize, items[k])
    ensures |c| == |items|
    ensures forall k :: 0 <= k < |items| ==> ValTyped(f.ltype, f.dataSize, c[k])
    ensures forall k :: 0 <= k < |items| ==> c[k] == CanonVal(f.ltype, f.dataSize, items[k])
    decreases f, 0, |items|
  {
    seq(|items|, k requires 0 <= k < |items| => CanonVal(f.ltype, f.dataSize, items[k]))
  }

  function CanonMsg(s: Schema, slots: seq<Slot>): (c: seq<Slot>)
    requires MsgTyped(s, slots) && Described(s)
    ensures MsgTyped(s, c)
    ensures forall i :: 0 <= i < |c| ==> c[i] == CanonSlot(s.fields[i], slots[i])
    decreases s
  {
    seq(|slots|, i requires 0 <= i < |slots| => CanonSlot(s.fields[i], slots[i]))
  }

  // ---- values ----

  lemma SignedRoundTrip(f: Field, v: Val, was: Val)
    requires FieldDescribed(f) && f.ltype.TVarint?
    requires ValTyped(f.ltype, f.dataSize, v) && SizeOk(f.ltype, f.dataSize)
    ensures var e := EncVal(f.ltype, f.dataSize, v);
            DecVal(f, e, was) == Done(v, |e|, [])
  {
    var e := EncVal(f.ltype, f.dataSize, v);
    assert e + [] == e;
    RoundTrip64(ToU64(v.n), []);
    SignExtendRoundTrip(v.n, f.dataSize);
  }

  lemma CastSmall(u: nat, size: IntSize)
    requires u < Span(size)
    ensures u < U64 && u % Span(size) == u
  {
  }

  lemma UnsignedRoundTrip(f: Field, v: Val, was: Val)
    requires FieldDescribed(f) && f.ltype.TUVarint?
    requires ValTyped(f.ltype, f.dataSize, v) && SizeOk(f.ltype, f.dataSize)
    ensures var e := EncVal(f.ltype, f.dataSize, v);
            DecVal(f, e, was) == Done(v, |e|, [])
  {
    var e := EncVal(f.ltype, f.dataSize, v);
    assert e + [] == e;
    RoundTrip64(v.n, []);
    CastSmall(v.n, f.dataSize);
  }

  lemma ZigZagFieldRoundTrip(f: Field, v: Val, was: Val)
    requires FieldDescribed(f) && f.ltype.TSVarint?
    requires ValTyped(f.ltype, f.dataSize, v) && SizeOk(f.ltype, f.dataSize)
    ensures var e := EncVal(f.ltype, f.dataSize, v);
            DecVal(f, e, was) == Done(v, |e|, [])
  {
    var e := EncVal(f.ltype, f.dataSize, v);
    assert e + [] == e;
    assert InSigned(v.n, 8);
    RoundTrip64(ZigZag(v.n), []);
    ZigZagRoundTrip(v.n);
    SignExtendRoundTrip(v.n, f.dataSize);
  }

  /** A bytes field takes as many bytes as its array has room for behind the size. */
  lemma BytesOutcome(f: Field, data: seq<byte>, was: Val, x: seq<byte>)
    requires FieldDescribed(f) && f.ltype.TBytes? && |data| < U32
    ensures var e := Delimited(data);
            DecVal(f, e + x, was)
              == if |data| < 0x1_0000 && |data| + 2 <= f.dataSize then Done(Blob(data), |e|, x) else Fail
  {
    DelimitedRead(data, x);
    TakeDrop(data, x, |data|);
    assert data[..|data|] == data && data[|data|..] + x == x;
  }

  /** A string comes back up to its first zero, or is refused when its array has none. */
  lemma StringOutcome(f: Field, v: Val, was: Val, x: seq<byte>)
    requires FieldDescribed(f) && f.ltype.TString? && ValTyped(f.ltype, f.dataSize, v)
    ensures var e, body := EncVal(f.ltype, f.dataSize, v), v.mem[..CLength(v.mem)];
            DecVal(f, e + x, was) == if |body| < f.dataSize then Done(Text(body), |e|, x) else Fail
  {
    var body := v.mem[..CLength(v.mem)];
    DelimitedRead(body, x);
    TakeDrop(body, x, |body|);
    assert body[..|body|] == body && body[|body|..] + x == x;
  }

  lemma SubmessageOutcome(f: Field, body: seq<byte>, was: Val, x: seq<byte>)
    requires FieldDescribed(f) && f.ltype.TSubmessage? && was == DefaultVal(f)
    requires |body| < U32
    requires match DecMsg(f.ltype.sub, body)
             case Done(_, used, rest) => used == |body| && rest == []
             case Fail => true
    ensures var w := Delimited(body);
            DecVal(f, w + x, was) == match DecMsg(f.ltype.sub, body)
                                     case Done(slots, _, _) => Done(Msg(slots), |w|, x)
                                     case Fail => Fail
  {
    DelimitedRead(body, x);
    TakeDrop(body, x, |body|);
    assert body[..|body|] == body && body[|body|..] + x == x;
    assert (body + x)[|body|..|body| + |body + x| - |body|] == (body + x)[|body|..];
  }

  /** The decoder of one value after its encoder, for a destination in its initial state. */
  lemma {:induction false} ValAlone(f: Field, v: Val, was: Val)
    requires FieldDescribed(f) && FieldWellFormed(f)
    requires ValTyped(f.ltype, f.dataSize, v) && ValOk(f.ltype, f.dataSize, v)
    requires ValTerminated(f.ltype, f.dataSize, v)
    requires |EncVal(f.ltype, f.dataSize, v)| < U32
    requires f.ltype.TSubmessage? ==> was == DefaultVal(f)
    ensures var e := EncVal(f.ltype, f.dataSize, v);
            DecVal(f, e, was) == Done(CanonVal(f.ltype, f.dataSize, v), |e|, [])
    decreases f, 0
  {
    var e := EncVal(f.ltype, f.dataSize, v);
    assert e + [] == e;
    match f.ltype
    case TFixed32 => assert e[..4] == e;
    case TFixed64 => assert e[..8] == e;
    case TBytes => BytesOutcome(f, v.data, was, []);
    case TString => StringOutcome(f, v, was, []);
    case TSubmessage(sub) =>
      MsgRoundTrip(sub, v.slots);
      SubmessageOutcome(f, EncMsg(sub, v.slots), was, []);
    case TVarint => SignedRoundTrip(f, v, was);
    case TUVarint => UnsignedRoundTrip(f, v, was);
    case TSVarint => ZigZagFieldRoundTrip(f, v, was);
  }

  // ---- the ways to write a field ----

  /** A record for a field: one value under any wire type, or, for an array of scalars, any
      number of values packed under wire type 2. */
  datatype Piece = Single(wt: nat, v: Val) | Packed(vs: seq<Val>)

  predicate PieceOk(f: Field, p: Piece) {
    match p
    case Single(wt, v) =>
      && wt < 8 && (f.htype.Repeated? && Packable(f.ltype) ==> wt != 2)
      && ValTyped(f.ltype, f.dataSize, v) && ValOk(f.ltype, f.dataSize, v) && |EncVal(f.ltype, f.dataSize, v)| < U32
    case Packed(vs) =>
      && f.htype.Repeated? && Packable(f.ltype)
      && (forall k :: 0 <= k < |vs| ==> ValTyped(f.ltype, f.dataSize, vs[k]) && ValOk(f.ltype, f.dataSize, vs[k]))
      && |EncItems(f.ltype, f.dataSize, vs)| < U32
  }

  function PieceRecord(f: Field, p: Piece): seq<byte>
    requires PieceOk(f, p)
  {
    match p
    case Single(wt, v) => Key(f.tag, wt) + EncVal(f.ltype, f.dataSize, v)
    case Packed(vs) => Key(f.tag, 2) + Delimited(EncItems(f.ltype, f.dataSize, vs))
  }

  function PieceItems(p: Piece): seq<Val> {
    match p
    case Single(_, v) => [v]
    case Packed(vs) => vs
  }

  predicate PiecesOk(f: Field, ps: seq<Piece>) {
    forall k :: 0 <= k < |ps| ==> PieceOk(f, ps[k])
  }

  function PieceRecords(f: Field, ps: seq<Piece>): (rs: seq<seq<byte>>)
    requires PiecesOk(f, ps)
    ensures |rs| == |ps|
  {
    if ps == [] then [] else [PieceRecord(f, ps[0])] + PieceRecords(f, ps[1..])
  }

  function AllItems(ps: seq<Piece>): seq<Val> {
    if ps == [] then [] else PieceItems(ps[0]) + AllItems(ps[1..])
  }

  /** The records write the array: all items in order, in any mixture of single and packed records. */
  ghost predicate SpellsItems(f: Field, rs: seq<seq<byte>>, ps: seq<Piece>, items: seq<Val>) {
    PiecesOk(f, ps) && rs == PieceRecords(f, ps) && AllItems(ps) == items
  }

  /** The records write the value last, under any wire type; a scalar may be written before. */
  ghost predicate SpellsLast(f: Field, rs: seq<seq<byte>>, ps: seq<Piece>, v: Val) {
    && PiecesOk(f, ps) && rs == PieceRecords(f, ps) && ps != []
    && (forall k :: 0 <= k < |ps| ==> ps[k].Single?) && ps[|ps| - 1].v == v
    && (|ps| > 1 ==> !f.ltype.TSubmessage?)
    && forall k :: 0 <= k < |ps| - 1 ==> ValTerminated(f.ltype, f.dataSize, ps[k].v)
  }

  /** The records are one of the ways to write what the field holds. */
  ghost predicate Spells(f: Field, rs: seq<seq<byte>>, slot: Slot) {
    match slot
    case One(v) => exists ps :: SpellsLast(f, rs, ps, v)
    case Maybe(has, v) => if has then exists ps :: SpellsLast(f, rs, ps, v) else rs == []
    case Many(items) => exists ps :: SpellsItems(f, rs, ps, items)
  }

  predicate ItemsTyped(f: Field, items: seq<Val>) {
    forall k :: 0 <= k < |items| ==> ValTyped(f.ltype, f.dataSize, items[k])
  }

  lemma {:induction false} AllItemsTyped(f: Field, ps: seq<Piece>)
    requires PiecesOk(f, ps)
    ensures ItemsTyped(f, AllItems(ps))
  {
    hide ValTyped, ValOk, EncVal, EncItems;
    if ps != [] {
      AllItemsTyped(f, ps[1..]);
    }
  }

  lemma RecordRead(f: Field, wt: nat, payload: seq<byte>)
    requires FieldDescribed(f) && wt < 8
    ensures DecKey(Key(f.tag, wt) + payload) == KeyRead(wt, f.tag, payload)
  {
    KeyRoundTrip(f.tag, wt, payload);
  }

  // ---- arrays ----

  /** A packed body adds its items, or is refused if the array would overflow. */
  lemma {:induction false} PackedOutcome(f: Field, before: seq<Val>, items: seq<Val>)
    requires FieldDescribed(f) && FieldWellFormed(f) && Packable(f.ltype)
    requires ItemsTyped(f, before) && |before| <= f.arraySize
    requires forall k :: 0 <= k < |items| ==> ValTyped(f.ltype, f.dataSize, items[k]) && ValOk(f.ltype, f.dataSize, items[k])
    requires |EncItems(f.ltype, f.dataSize, items)| < U32
    ensures DecPacked(f, EncItems(f.ltype, f.dataSize, items), before)
         == if |before| + |items| <= f.arraySize then Some(before + items) else None
    decreases f, 1, |items|
  {
    hide ValTyped, ValOk, FieldDescribed, FieldWellFormed, DecVal, EncVal, DefaultVal;
    if items == [] {
      assert before + items == before;
    } else if |before| < f.arraySize {
      var e, x := EncVal(f.ltype, f.dataSize, items[0]), EncItems(f.ltype, f.dataSize, items[1..]);
      ValAlone(f, items[0], DefaultVal(f));
      ValExtend(f, e, x, DefaultVal(f));
      assert [] + x == x;
      assert before + items == before + [items[0]] + items[1..];
      PackedOutcome(f, before + [items[0]], items[1..]);
    }
  }

  /** What a packed record is read as, whatever follows it. */
  lemma PackedRead(f: Field, vs: seq<Val>, before: seq<Val>, x: seq<byte>)
    requires FieldDescribed(f) && f.htype.Repeated? && ItemsTyped(f, before) && PieceOk(f, Packed(vs))
    ensures var body := EncItems(f.ltype, f.dataSize, vs);
            DecSlot(f, 2, Delimited(body) + x, Many(before))
              == match DecPacked(f, body, before)
                 case None => Fail
                 case Some(items) => Done(Many(items), |Delimited(body)|, x)
  {
    hide ValTyped, ValOk, EncItems, EncVal, DecVal, DecPacked;
    var body := EncItems(f.ltype, f.dataSize, vs);
    DelimitedRead(body, x);
    TakeDrop(body, x, |body|);
    assert body[..|body|] == body && body[|body|..] + x == x;
  }

  /** One record adds its items to the array. */
  lemma {:induction false} PieceTaken(f: Field, before: seq<Val>, p: Piece)
    requires FieldDescribed(f) && FieldWellFormed(f) && f.htype.Repeated? && PieceOk(f, p)
    requires ItemsTyped(f, before) && |before| + |PieceItems(p)| <= f.arraySize
    requires SlotTerminated(f, Many(PieceItems(p)))
    ensures RecordStep(f, PieceRecord(f, p), Many(before)) == Some(Many(before + CanonItems(f, PieceItems(p))))
    decreases f, 1
  {
    hide EncVal, DecVal, ValTyped, ValOk, CanonVal, FieldWellFormed, DefaultVal, FieldDescribed, EncItems;
    match p
    case Single(wt, v) =>
      assert PieceItems(p)[0] == v;
      ValAlone(f, v, DefaultVal(f));
      RecordRead(f, wt, EncVal(f.ltype, f.dataSize, v));
      CanonOne(f, v);
    case Packed(vs) =>
      var body := EncItems(f.ltype, f.dataSize, vs);
      RecordRead(f, 2, Delimited(body));
      PackedOutcome(f, before, vs);
      PackedRead(f, vs, before, []);
      assert Delimited(body) + [] == Delimited(body);
      PackedCanon(f, vs);
  }

  lemma CanonOne(f: Field, v: Val)
    requires FieldDescribed(f) && ValTyped(f.ltype, f.dataSize, v)
    ensures CanonItems(f, [v]) == [CanonVal(f.ltype, f.dataSize, v)]
  {
    assert CanonItems(f, [v])[0] == CanonVal(f.ltype, f.dataSize, [v][0]);
  }

  lemma PackedCanon(f: Field, vs: seq<Val>)
    requires FieldDescribed(f) && Packable(f.ltype) && ItemsTyped(f, vs)
    ensures CanonItems(f, vs) == vs
  {
  }

  /** Any mixture of records adds all its items in order. */
  lemma {:induction false} PiecesTaken(f: Field, before: seq<Val>, ps: seq<Piece>)
    requires FieldDescribed(f) && FieldWellFormed(f) && f.htype.Repeated? && PiecesOk(f, ps)
    requires ItemsTyped(f, before) && |before| + |AllItems(ps)| <= f.arraySize
    requires ItemsTyped(f, AllItems(ps)) && SlotTerminated(f, Many(AllItems(ps)))
    ensures RunSlot(f, PieceRecords(f, ps), Many(before)) == Some(Many(before + CanonItems(f, AllItems(ps))))
    decreases f, 2, |ps|
  {
    hide RecordStep, PieceRecord, PieceOk, FieldDescribed, FieldWellFormed, ValTerminated, ValTyped, CanonVal;
    if ps == [] {
      assert before + CanonItems(f, []) == before;
    } else {
      var head, rest := PieceItems(ps[0]), AllItems(ps[1..]);
      ItemsParts(f, head, rest);
      PieceTaken(f, before, ps[0]);
      PiecesTaken(f, before + CanonItems(f, head), ps[1..]);
      assert before + (CanonItems(f, head) + CanonItems(f, rest)) == before + CanonItems(f, head) + CanonItems(f, rest);
    }
  }

  lemma ItemsParts(f: Field, a: seq<Val>, b: seq<Val>)
    requires FieldDescribed(f) && ItemsTyped(f, a + b)
    ensures ItemsTyped(f, a) && ItemsTyped(f, b) && CanonItems(f, a + b) == CanonItems(f, a) + CanonItems(f, b)
    ensures f.htype.Repeated? ==>
              (SlotTerminated(f, Many(a + b)) <==> SlotTerminated(f, Many(a)) && SlotTerminated(f, Many(b)))
  {
    hide ValTyped, CanonVal, ValTerminated;
    assert forall k :: 0 <= k < |a| ==> (a + b)[k] == a[k];
    assert forall k :: 0 <= k < |b| ==> (a + b)[|a| + k] == b[k];
  }

  // ---- single values ----

  /** What a field that is not an array holds after a value was read. */
  function Holding(f: Field, v: Val): Slot {
    if f.htype.Required? then One(v) else Maybe(true, v)
  }

  /** Records of single values leave the last one. */
  lemma {:induction false} LastTaken(f: Field, slot: Slot, ps: seq<Piece>)
    requires FieldDescribed(f) && FieldWellFormed(f) && !f.htype.Repeated? && SlotTyped(f, slot) && PiecesOk(f, ps)
    requires ps != [] && forall k :: 0 <= k < |ps| ==> ps[k].Single? && ValTerminated(f.ltype, f.dataSize, ps[k].v)
    requires f.ltype.TSubmessage? ==> |ps| == 1 && slot.v == DefaultVal(f)
    ensures RunSlot(f, PieceRecords(f, ps), slot)
         == Some(Holding(f, CanonVal(f.ltype, f.dataSize, ps[|ps| - 1].v)))
    decreases f, 2, |ps|
  {
    hide EncVal, DecVal, ValTyped, ValOk, ValTerminated, CanonVal, FieldWellFormed, DefaultVal, FieldDescribed;
    var wt, v := ps[0].wt, ps[0].v;
    ValAlone(f, v, slot.v);
    RecordRead(f, wt, EncVal(f.ltype, f.dataSize, v));
    if |ps| > 1 {
      LastTaken(f, Holding(f, CanonVal(f.ltype, f.dataSize, v)), ps[1..]);
    } else {
      assert PieceRecords(f, ps)[1..] == [];
    }
  }

  // ---- fields ----

  /** The records of a field, written in whatever way, restore it from its initial state. */
  lemma {:induction false} SpelledTaken(f: Field, rs: seq<seq<byte>>, slot: Slot)
    requires FieldDescribed(f) && FieldWellFormed(f) && SlotTyped(f, slot) && Spells(f, rs, slot)
    requires SlotTerminated(f, slot) && (slot.Many? ==> |slot.items| <= f.arraySize)
    ensures RunSlot(f, rs, DefaultSlot(f)) == Some(CanonSlot(f, slot))
    decreases f, 3
  {
    hide RunSlot, PieceRecords, PiecesOk, ValTyped, ValTerminated, CanonVal, DefaultVal, FieldDescribed, FieldWellFormed;
    match slot
    case One(v) =>
      var ps :| SpellsLast(f, rs, ps, v);
      LastTaken(f, DefaultSlot(f), ps);
    case Maybe(has, v) =>
      if has {
        var ps :| SpellsLast(f, rs, ps, v);
        LastTaken(f, DefaultSlot(f), ps);
      } else {
        NothingRun(f, DefaultSlot(f));
      }
    case Many(items) =>
      var ps :| SpellsItems(f, rs, ps, items);
      PiecesTaken(f, [], ps);
      assert [] + CanonItems(f, items) == CanonItems(f, items);
  }

  lemma NothingRun(f: Field, slot: Slot)
    requires FieldDescribed(f) && SlotTyped(f, slot)
    ensures RunSlot(f, [], slot) == Some(slot)
  {
  }

  /** The pieces the encoder writes. */
  function OwnPieces(f: Field, items: seq<Val>): seq<Piece> {
    if items == [] then []
    else if Packable(f.ltype) then [Packed(items)]
    else [Single(WireType(f.ltype), items[0])] + OwnPieces(f, items[1..])
  }

  lemma {:induction false} OwnItems(f: Field, items: seq<Val>)
    requires f.htype.Repeated? && ItemsTyped(f, items) && !Packable(f.ltype)
    requires forall k :: 0 <= k < |items| ==> ValOk(f.ltype, f.dataSize, items[k])
    requires |Flatten(ItemRecords(f, items))| < U32
    ensures SpellsItems(f, ItemRecords(f, items), OwnPieces(f, items), items)
    decreases |items|
  {
    hide ValTyped, ValOk, EncVal;
    if items != [] {
      OwnItems(f, items[1..]);
      assert items == [items[0]] + items[1..];
      var ps, rest := OwnPieces(f, items), OwnPieces(f, items[1..]);
      assert ps[1..] == rest && PieceOk(f, ps[0]);
      forall k | 0 <= k < |ps| ensures PieceOk(f, ps[k]) {
        assert k > 0 ==> ps[k] == rest[k - 1];
      }
    }
  }

  /** The encoder's way is one of them. */
  lemma OwnSpelling(f: Field, slot: Slot)
    requires SlotTyped(f, slot) && SlotOk(f, slot) && |Flatten(Records(f, slot))| < U32
    ensures Spells(f, Records(f, slot), slot)
  {
    hide ValTyped, ValOk, EncVal, EncItems, ItemRecords;
    match slot
    case One(v) => OwnLast(f, v);
    case Maybe(has, v) => if has { OwnLast(f, v); }
    case Many(items) =>
      if items != [] && !Packable(f.ltype) {
        OwnItems(f, items);
      } else {
        OwnPacked(f, items);
      }
  }

  lemma OwnLast(f: Field, v: Val)
    requires !f.htype.Repeated? && ValTyped(f.ltype, f.dataSize, v) && ValOk(f.ltype, f.dataSize, v)
    requires |Flatten([ValRecord(f, v)])| < U32
    ensures SpellsLast(f, [ValRecord(f, v)], [Single(WireType(f.ltype), v)], v)
  {
    hide ValTyped, ValOk, EncVal, ValTerminated;
    var ps := [Single(WireType(f.ltype), v)];
    assert ps[1..] == [];
  }

  lemma OwnPacked(f: Field, items: seq<Val>)
    requires f.htype.Repeated? && SlotTyped(f, Many(items)) && SlotOk(f, Many(items)) && |Flatten(Records(f, Many(items)))| < U32
    requires items == [] || Packable(f.ltype)
    ensures SpellsItems(f, Records(f, Many(items)), OwnPieces(f, items), items)
  {
    hide ValTyped, ValOk, EncVal, EncItems;
    if items != [] {
      var body := EncItems(f.ltype, f.dataSize, items);
      assert Records(f, Many(items)) == [Key(f.tag, 2) + Delimited(body)];
      OneRecord(Key(f.tag, 2) + Delimited(body));
      OnePiece(f, Packed(items));
    }
  }

  lemma OneRecord(r: seq<byte>)
    ensures Flatten([r]) == r
  {
    assert [r][1..] == [] && r + [] == r;
  }

  lemma OnePiece(f: Field, p: Piece)
    requires PieceOk(f, p)
    ensures PiecesOk(f, [p]) && PieceRecords(f, [p]) == [PieceRecord(f, p)] && AllItems([p]) == PieceItems(p)
  {
    assert [p][1..] == [] && PieceItems(p) + [] == PieceItems(p);
  }

  /** Decoding the records the encoder writes for a field restores it from its initial state. */
  lemma {:induction false} SlotRoundTrip(f: Field, slot: Slot)
    requires FieldDescribed(f) && FieldWellFormed(f)
    requires SlotTyped(f, slot) && SlotOk(f, slot) && SlotTerminated(f, slot)
    requires |Flatten(Records(f, slot))| < U32
    ensures RunSlot(f, Records(f, slot), DefaultSlot(f)) == Some(CanonSlot(f, slot))
    decreases f, 4
  {
    hide RunSlot, Records, Spells, ValOk;
    OwnSpelling(f, slot);
    SpelledTaken(f, Records(f, slot), slot);
  }

  // ---- the records of a message ----

  lemma {:induction false} ProjectConcat(s: Schema, i: nat, a: seq<seq<byte>>, b: seq<seq<byte>>)
    ensures Project(s, i, a + b) == Project(s, i, a) + Project(s, i, b)
  {
    if a == [] {
      assert a + b == b;
    } else {
      assert (a + b)[1..] == a[1..] + b;
      ProjectConcat(s, i, a[1..], b);
    }
  }

  lemma {:induction false} ProjectSame(s: Schema, i: nat, t: Option<nat>, rs: seq<seq<byte>>)
    requires forall k :: 0 <= k < |rs| ==> Target(s, rs[k]) == t
    ensures Project(s, i, rs) == if t == Some(i) then rs else []
  {
    if rs != [] {
      ProjectSame(s, i, t, rs[1..]);
    }
  }

  lemma {:induction false} ItemRecordsAt(f: Field, items: seq<Val>, k: nat)
    requires forall k :: 0 <= k < |items| ==> ValTyped(f.ltype, f.dataSize, items[k])
    requires k < |items|
    ensures ItemRecords(f, items)[k] == ValRecord(f, items[k])
  {
    if k > 0 {
      ItemRecordsAt(f, items[1..], k - 1);
    }
  }

  /** Every record that the encoder writes for a field carries its tag: a receiver with schema `r`
      takes it for the field it has under that tag. */
  lemma RecordsTarget(r: Schema, f: Field, slot: Slot)
    requires FieldDescribed(f) && SlotTyped(f, slot)
    ensures forall k :: 0 <= k < |Records(f, slot)| ==> Target(r, Records(f, slot)[k]) == Find(r.fields, 0, f.tag)
  {
    hide Find, EncVal, EncItems, ValTyped, FieldDescribed;
    forall k | 0 <= k < |Records(f, slot)| ensures Target(r, Records(f, slot)[k]) == Find(r.fields, 0, f.tag) {
      match slot
      case One(v) => RecordRead(f, WireType(f.ltype), EncVal(f.ltype, f.dataSize, v));
      case Maybe(_, v) => RecordRead(f, WireType(f.ltype), EncVal(f.ltype, f.dataSize, v));
      case Many(items) =>
        if Packable(f.ltype) {
          RecordRead(f, 2, Delimited(EncItems(f.ltype, f.dataSize, items)));
        } else {
          ItemRecordsAt(f, items, k);
          RecordRead(f, WireType(f.ltype), EncVal(f.ltype, f.dataSize, items[k]));
        }
    }
  }

  lemma ProjectNone(s: Schema, i: nat)
    ensures Project(s, i, []) == []
  {
  }

  /** Among the records of fields j, j+1, ... a receiver finds for its field `i` those of the
      sender's field with the same tag. */
  lemma {:induction false} MsgRecordsProject(s: Schema, slots: seq<Slot>, j: nat, r: Schema, i: nat)
    requires WellFormed(s) && MsgTyped(s, slots) && j <= |slots|
    requires WellFormed(r) && i < |r.fields|
    ensures Project(r, i, MsgRecords(s, slots, j))
         == match Find(s.fields, 0, r.fields[i].tag)
            case Some(k) => if k < j then [] else Records(s.fields[k], slots[k])
            case None => []
    decreases |slots| - j
  {
    hide Target, Records, WellFormed, Described, FieldWellFormed, FieldDescribed, SlotTyped, Project, Find;
    ProjectNone(r, i);
    if j < |slots| {
      var rs := Records(s.fields[j], slots[j]);
      DescribedField(s, j);
      RecordsTarget(r, s.fields[j], slots[j]);
      ProjectConcat(r, i, rs, MsgRecords(s, slots, j + 1));
      ProjectSame(r, i, Find(r.fields, 0, s.fields[j].tag), rs);
      MsgRecordsProject(s, slots, j + 1, r, i);
      SameTag(s, j, r, i);
    } else {
      FindInside(s, r.fields[i].tag);
    }
  }

  lemma DescribedField(s: Schema, j: nat)
    requires WellFormed(s) && j < |s.fields|
    ensures Described(s) && FieldDescribed(s.fields[j]) && FieldWellFormed(s.fields[j])
  {
  }

  lemma FindInside(s: Schema, tag: nat)
    ensures Find(s.fields, 0, tag).Some? ==> Find(s.fields, 0, tag).value < |s.fields|
  {
  }

  lemma SameTag(s: Schema, j: nat, r: Schema, i: nat)
    requires WellFormed(s) && j < |s.fields| && WellFormed(r) && i < |r.fields|
    ensures Find(r.fields, 0, s.fields[j].tag) == Some(i) <==> Find(s.fields, 0, r.fields[i].tag) == Some(j)
  {
    hide Described, FieldWellFormed;
    if s.fields[j].tag == r.fields[i].tag {
      FindUnique(s, 0, j);
      FindUnique(r, 0, i);
    }
  }

  lemma {:induction false} MsgRecordsTarget(s: Schema, slots: seq<Slot>, j: nat)
    requires WellFormed(s) && MsgTyped(s, slots) && j <= |slots|
    ensures forall k :: 0 <= k < |MsgRecords(s, slots, j)| ==> Target(s, MsgRecords(s, slots, j)[k]).Some?
    decreases |slots| - j
  {
    hide Target, Records, WellFormed, Described, FieldWellFormed, FieldDescribed, SlotTyped, Find;
    if j < |slots| {
      DescribedField(s, j);
      RecordsTarget(s, s.fields[j], slots[j]);
      FindUnique(s, 0, j);
      MsgRecordsTarget(s, slots, j + 1);
    }
  }

  lemma {:induction false} MsgRecordsSize(s: Schema, slots: seq<Slot>, j: nat, i: nat)
    requires MsgTyped(s, slots) && j <= i < |slots|
    ensures |Flatten(Records(s.fields[i], slots[i]))| <= |Flatten(MsgRecords(s, slots, j))|
    decreases |slots| - j
  {
    FlattenConcat(Records(s.fields[j], slots[j]), MsgRecords(s, slots, j + 1));
    if j < i {
      MsgRecordsSize(s, slots, j + 1, i);
    }
  }

  // ---- values in a stream ----

  /** The decoder of one value behind its encoder, whatever bytes follow. */
  lemma ValRoundTrip(f: Field, v: Val, was: Val, x: seq<byte>)
    requires FieldDescribed(f) && FieldWellFormed(f)
    requires ValTyped(f.ltype, f.dataSize, v) && ValOk(f.ltype, f.dataSize, v)
    requires ValTerminated(f.ltype, f.dataSize, v)
    requires |EncVal(f.ltype, f.dataSize, v)| < U32
    requires f.ltype.TSubmessage? ==> was == DefaultVal(f)
    ensures var e := EncVal(f.ltype, f.dataSize, v);
            DecVal(f, e + x, was) == Done(CanonVal(f.ltype, f.dataSize, v), |e|, x)
  {
    hide DecVal, EncVal, ValOk, ValTerminated, CanonVal, FieldWellFormed;
    ValAlone(f, v, was);
    ValExtend(f, EncVal(f.ltype, f.dataSize, v), x, was);
    assert [] + x == x;
  }

  // ---- messages ----

  /** What the encoder accepts, with a size that fits size_t. */
  predicate Sendable(s: Schema, slots: seq<Slot>) {
    WellFormed(s) && MsgTyped(s, slots) && MsgOk(s, slots) && |EncMsg(s, slots)| < U32
  }

  /** No array holds more than the receiver has room for. */
  predicate Roomy(f: Field, slot: Slot) {
    slot.Many? ==> |slot.items| <= f.arraySize
  }

  predicate MsgRoomy(s: Schema, slots: seq<Slot>)
    requires MsgTyped(s, slots)
  {
    forall i :: 0 <= i < |slots| ==> Roomy(s.fields[i], slots[i])
  }

  /** The records write the message: those for each field are one of the ways to write it, and
      what else there is can be skipped. */
  ghost predicate SpellsMsg(s: Schema, rs: seq<seq<byte>>, slots: seq<Slot>)
    requires MsgTyped(s, slots)
  {
    && AllKnown(s, rs)
    && forall i :: 0 <= i < |s.fields| ==> Spells(s.fields[i], Project(s, i, rs), slots[i])
  }

  /** The records of a message restore it, however its fields are written, in whatever order
      across fields, with skippable records on top. */
  lemma {:induction false} AnyLayoutRoundTrip(s: Schema, slots: seq<Slot>, rs: seq<seq<byte>>)
    requires WellFormed(s) && MsgTyped(s, slots) && MsgTerminated(s, slots) && MsgRoomy(s, slots)
    requires SpellsMsg(s, rs, slots)
    ensures DecMsg(s, Flatten(rs)) == Done(CanonMsg(s, slots), |Flatten(rs)|, [])
    decreases s, 0
  {
    hide Spells, RunSlot, AllKnown, Project;
    forall i | 0 <= i < |s.fields|
      ensures RunSlot(s.fields[i], Project(s, i, rs), Defaults(s)[i]) == Some(CanonSlot(s.fields[i], slots[i]))
      ensures s.fields[i].htype.Required? ==> Project(s, i, rs) != []
    {
      SpelledTaken(s.fields[i], Project(s, i, rs), slots[i]);
      if s.fields[i].htype.Required? {
        SpelledSomething(s.fields[i], Project(s, i, rs), slots[i]);
      }
    }
    assert RunAll(s, Defaults(s), rs) == CanonMsg(s, slots);
    LoopOnMessage(s, Defaults(s), rs);
  }

  lemma SpelledSomething(f: Field, rs: seq<seq<byte>>, slot: Slot)
    requires SlotTyped(f, slot) && Spells(f, rs, slot) && f.htype.Required?
    ensures rs != []
  {
    var ps :| SpellsLast(f, rs, ps, slot.v);
  }

  /** The encoder's layout is one of them. */
  lemma OwnLayout(s: Schema, slots: seq<Slot>)
    requires Sendable(s, slots)
    ensures SpellsMsg(s, MsgRecords(s, slots, 0), slots) && MsgRoomy(s, slots)
  {
    hide Spells, Records, Project;
    MsgRecordsTarget(s, slots, 0);
    forall i | 0 <= i < |s.fields|
      ensures Spells(s.fields[i], Project(s, i, MsgRecords(s, slots, 0)), slots[i]) && Roomy(s.fields[i], slots[i])
    {
      MsgRecordsProject(s, slots, 0, s, i);
      FindUnique(s, 0, i);
      MsgRecordsSize(s, slots, 0, i);
      OwnSpelling(s.fields[i], slots[i]);
    }
  }

  /** Decoding what pb_encode wrote succeeds, consumes every byte and gives the message back in
      canonical form. */
  lemma {:induction false} MsgRoundTrip(s: Schema, slots: seq<Slot>)
    requires Sendable(s, slots) && MsgTerminated(s, slots)
    ensures DecMsg(s, EncMsg(s, slots)) == Done(CanonMsg(s, slots), |EncMsg(s, slots)|, [])
    decreases s, 1
  {
    OwnLayout(s, slots);
    AnyLayoutRoundTrip(s, slots, MsgRecords(s, slots, 0));
  }
}
