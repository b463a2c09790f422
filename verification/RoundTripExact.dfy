/**
 Exactly when pb_decode undoes pb_encode: which messages come back at all, and which come back
 unchanged.
 */
module RoundTripExact {
  import opened Words
  import opened Varint
  import opened Proto
  import opened Encoding
  import opened Decoding
  import opened Layout
  import opened RoundTrip

  // ---- an unterminated string makes the receiver refuse the message ----

  lemma {:induction false} ValFailure(f: Field, v: Val, was: Val, x: seq<byte>)
    requires FieldDescribed(f) && FieldWellFormed(f)
    requires ValTyped(f.ltype, f.dataSize, v) && ValOk(f.ltype, f.dataSize, v)
    requires !ValTerminated(f.ltype, f.dataSize, v)
    requires |EncVal(f.ltype, f.dataSize, v)| < U32
    requires f.ltype.TSubmessage? ==> was == DefaultVal(f)
    ensures DecVal(f, EncVal(f.ltype, f.dataSize, v) + x, was) == Fail
    decreases f, 0
  {
    if f.ltype.TSubmessage? {
      MsgFailure(f.ltype.sub, v.slots);
      SubmessageOutcome(f, EncMsg(f.ltype.sub, v.slots), was, x);
    } else {
      StringOutcome(f, v, was, x);
    }
  }

  // ---- fields that are refused ----

  predicate Taken(f: Field, before: seq<Val>, items: seq<Val>)
    requires ItemsTyped(f, items)
  {
    |before| + |items| <= f.arraySize && forall k :: 0 <= k < |items| ==> ValTerminated(f.ltype, f.dataSize, items[k])
  }

  /** A record that overfills the array or has an unterminated string. */
  lemma {:induction false} PieceRefused(f: Field, before: seq<Val>, p: Piece)
    requires FieldDescribed(f) && FieldWellFormed(f) && f.htype.Repeated? && PieceOk(f, p)
    requires ItemsTyped(f, before) && |before| <= f.arraySize
    requires ItemsTyped(f, PieceItems(p)) && !Taken(f, before, PieceItems(p))
    ensures Refused(f, PieceRecord(f, p), Many(before)) && RecordStep(f, PieceRecord(f, p), Many(before)).None?
    decreases f, 1
  {
    hide EncVal, DecVal, ValTyped, ValOk, CanonVal, FieldWellFormed, DefaultVal, FieldDescribed, EncItems;
    match p {
    case Single(wt, v) =>
      var e := EncVal(f.ltype, f.dataSize, v);
      RecordRead(f, wt, e);
      forall x: seq<byte> ensures DecSlot(f, wt, e + x, Many(before)).Fail? {
        if |before| < f.arraySize {
          assert PieceItems(p)[0] == v;
          ValFailure(f, v, DefaultVal(f), x);
        }
      }
    case Packed(vs) =>
      var body := EncItems(f.ltype, f.dataSize, vs);
      RecordRead(f, 2, Delimited(body));
      PackedOutcome(f, before, vs);
      forall x: seq<byte> ensures DecSlot(f, 2, Delimited(body) + x, Many(before)).Fail? {
        PackedRead(f, vs, before, x);
      }
    }
    NotBoth(f, PieceRecord(f, p), Many(before));
  }

  /** An array of any mixture of records takes all items in order, or is refused, and that if and
      only if it overflows or a string has no end. */
  lemma {:induction false} PiecesOutcome(f: Field, before: seq<Val>, ps: seq<Piece>)
    requires FieldDescribed(f) && FieldWellFormed(f) && f.htype.Repeated? && PiecesOk(f, ps)
    requires ItemsTyped(f, before) && |before| <= f.arraySize && ItemsTyped(f, AllItems(ps))
    ensures AllSettled(f, PieceRecords(f, ps), Many(before))
    ensures RunSlot(f, PieceRecords(f, ps), Many(before))
         == if Taken(f, before, AllItems(ps)) then Some(Many(before + CanonItems(f, AllItems(ps)))) else None
    decreases f, 2, |ps|
  {
    hide Refused, RecordStep, PieceRecord, PieceOk, FieldDescribed, FieldWellFormed, ValTerminated, ValTyped, CanonVal;
    if ps == [] {
      assert before + CanonItems(f, []) == before;
    } else {
      var head, rest := PieceItems(ps[0]), AllItems(ps[1..]);
      ItemsParts(f, head, rest);
      if Taken(f, before, head) {
        var after := before + CanonItems(f, head);
        PieceTaken(f, before, ps[0]);
        PiecesOutcome(f, after, ps[1..]);
        assert before + (CanonItems(f, head) + CanonItems(f, rest)) == after + CanonItems(f, rest);
      } else {
        PieceRefused(f, before, ps[0]);
      }
    }
  }

  /** Single values of which the last has no end. */
  lemma {:induction false} LastRefused(f: Field, slot: Slot, ps: seq<Piece>)
    requires FieldDescribed(f) && FieldWellFormed(f) && !f.htype.Repeated? && SlotTyped(f, slot) && PiecesOk(f, ps)
    requires ps != [] && forall k :: 0 <= k < |ps| ==> ps[k].Single?
    requires forall k :: 0 <= k < |ps| - 1 ==> ValTerminated(f.ltype, f.dataSize, ps[k].v)
    requires !ValTerminated(f.ltype, f.dataSize, ps[|ps| - 1].v)
    requires f.ltype.TSubmessage? ==> |ps| == 1 && slot.v == DefaultVal(f)
    ensures AllSettled(f, PieceRecords(f, ps), slot) && RunSlot(f, PieceRecords(f, ps), slot).None?
    decreases f, 2, |ps|
  {
    hide EncVal, DecVal, ValTyped, ValOk, ValTerminated, CanonVal, FieldWellFormed, DefaultVal, FieldDescribed;
    var wt, v := ps[0].wt, ps[0].v;
    var e := EncVal(f.ltype, f.dataSize, v);
    RecordRead(f, wt, e);
    if |ps| > 1 {
      ValAlone(f, v, slot.v);
      LastRefused(f, Holding(f, CanonVal(f.ltype, f.dataSize, v)), ps[1..]);
    } else {
      forall x: seq<byte> ensures DecSlot(f, wt, e + x, slot).Fail? {
        ValFailure(f, v, slot.v, x);
      }
      NotBoth(f, PieceRecord(f, ps[0]), slot);
    }
  }

  /** What a field in its initial state makes of its records, however they are written: its
      canonical value, or it is refused for an unterminated string or too many items. */
  lemma {:induction false} SpelledOutcome(f: Field, rs: seq<seq<byte>>, slot: Slot)
    requires FieldDescribed(f) && FieldWellFormed(f) && SlotTyped(f, slot) && Spells(f, rs, slot)
    ensures AllSettled(f, rs, DefaultSlot(f))
    ensures RunSlot(f, rs, DefaultSlot(f))
         == if SlotTerminated(f, slot) && Roomy(f, slot) then Some(CanonSlot(f, slot)) else None
    decreases f, 3
  {
    hide RunSlot, AllSettled, ValTerminated, PieceRecords, DefaultVal;
    if SlotTerminated(f, slot) && Roomy(f, slot) {
      SpelledTaken(f, rs, slot);
      RunSettled(f, rs, DefaultSlot(f));
    } else {
      match slot
      case One(v) =>
        var ps :| SpellsLast(f, rs, ps, v);
        LastRefused(f, DefaultSlot(f), ps);
      case Maybe(_, v) =>
        var ps :| SpellsLast(f, rs, ps, v);
        LastRefused(f, DefaultSlot(f), ps);
      case Many(items) =>
        var ps :| SpellsItems(f, rs, ps, items);
        PiecesOutcome(f, [], ps);
    }
  }

  /** The outcome of decoding the records of a message, however its fields are written, in
      whatever order across fields, with skippable records on top: it comes back in canonical
      form, or is refused for a string or an array. */
  lemma {:induction false} AnyLayoutOutcome(s: Schema, m: seq<Slot>, rs: seq<seq<byte>>)
    requires WellFormed(s) && MsgTyped(s, m) && SpellsMsg(s, rs, m)
    ensures DecMsg(s, Flatten(rs))
         == if MsgTerminated(s, m) && MsgRoomy(s, m) then Done(CanonMsg(s, m), |Flatten(rs)|, []) else Fail
    decreases s, 0
  {
    hide AllKnown, Spells, Project, DecLoop, RunSlot, AllSettled, SlotTerminated, Roomy;
    if MsgTerminated(s, m) && MsgRoomy(s, m) {
      AnyLayoutRoundTrip(s, m, rs);
    } else {
      forall i | 0 <= i < |s.fields|
        ensures AllSettled(s.fields[i], Project(s, i, rs), Defaults(s)[i])
        ensures RunSlot(s.fields[i], Project(s, i, rs), Defaults(s)[i]).Some? ==>
                  SlotTerminated(s.fields[i], m[i]) && Roomy(s.fields[i], m[i])
      {
        SpelledOutcome(s.fields[i], Project(s, i, rs), m[i]);
      }
      DecodeRecords(s, rs);
    }
  }

  lemma {:induction false} MsgFailure(s: Schema, m: seq<Slot>)
    requires Sendable(s, m) && !MsgTerminated(s, m)
    ensures DecMsg(s, EncMsg(s, m)) == Fail
    decreases s, 1
  {
    hide SpellsMsg;
    OwnLayout(s, m);
    AnyLayoutOutcome(s, m, MsgRecords(s, m, 0));
  }

  const CHAR_FIELD := Field(1, TString, Required, 0, 0, 1, 0, None)

  /** A message that is sent and never received: a string of one letter in an array of one. */
  lemma FullStringRefused()
    ensures var s, m := Schema([CHAR_FIELD]), [One(Text([65]))];
            Sendable(s, m) && !MsgTerminated(s, m) && DecMsg(s, EncMsg(s, m)) == Fail
  {
    var s, m: seq<Slot> := Schema([CHAR_FIELD]), [One(Text([65]))];
    assert s.fields[0] == CHAR_FIELD && m[0] == One(Text([65]));
    assert ReqCount(s.fields, 0) == 0 && ReqCount(s.fields, 1) == 1;
    assert !SlotTerminated(s.fields[0], m[0]) by {
      CLengthWhole([65]);
    }
    SmallMessage(s, m);
    assert FieldDescribed(CHAR_FIELD) && FieldWellFormed(CHAR_FIELD) && SlotOk(CHAR_FIELD, m[0]);
    MsgFailure(s, m);
  }

  lemma SmallMessage(s: Schema, m: seq<Slot>)
    requires s == Schema([CHAR_FIELD]) && m == [One(Text([65]))] && MsgTyped(s, m)
    ensures |EncMsg(s, m)| == 3
  {
    CLengthWhole([65]);
    assert MsgRecords(s, m, 1) == [] && MsgRecords(s, m, 0) == Records(CHAR_FIELD, m[0]);
    assert Key(1, 2) == [10] && Encode(1) == [1];
  }

  // ---- messages that fit ----

  /** Strings have no zero and leave room for one. */
  predicate ValFits(t: LType, size: nat, v: Val)
    requires ValTyped(t, size, v)
    decreases t
  {
    match t
    case TString => |v.mem| < size && 0 !in v.mem
    case TSubmessage(s) => MsgFits(s, v.slots)
    case _ => true
  }

  /** An absent optional field holds its default. */
  predicate SlotFits(f: Field, slot: Slot)
    requires SlotTyped(f, slot)
    decreases f
  {
    match slot
    case One(v) => ValFits(f.ltype, f.dataSize, v)
    case Maybe(has, v) => if has then ValFits(f.ltype, f.dataSize, v) else FieldDescribed(f) && v == DefaultVal(f)
    case Many(items) => forall k :: 0 <= k < |items| ==> ValFits(f.ltype, f.dataSize, items[k])
  }

  predicate MsgFits(s: Schema, slots: seq<Slot>)
    requires MsgTyped(s, slots)
    decreases s
  {
    forall i :: 0 <= i < |slots| ==> SlotFits(s.fields[i], slots[i])
  }

  lemma {:induction false} CLengthWhole(mem: seq<byte>)
    ensures CLength(mem) == |mem| <==> 0 !in mem
  {
    if mem != [] {
      CLengthWhole(mem[1..]);
      assert mem == [mem[0]] + mem[1..];
    }
  }

  lemma {:induction false} ValCanon(f: Field, v: Val)
    requires FieldDescribed(f) && ValTyped(f.ltype, f.dataSize, v)
    ensures ValFits(f.ltype, f.dataSize, v)
       <==> ValTerminated(f.ltype, f.dataSize, v) && CanonVal(f.ltype, f.dataSize, v) == v
    decreases f, 0
  {
    match f.ltype
    case TString =>
      CLengthWhole(v.mem);
      assert v.mem[..|v.mem|] == v.mem;
    case TSubmessage(s) => MsgCanon(s, v.slots);
    case _ =>
  }

  lemma {:induction false} SlotCanon(f: Field, slot: Slot)
    requires FieldDescribed(f) && SlotTyped(f, slot)
    ensures SlotFits(f, slot) <==> SlotTerminated(f, slot) && CanonSlot(f, slot) == slot
    decreases f, 1
  {
    match slot
    case One(v) => ValCanon(f, v);
    case Maybe(has, v) => if has { ValCanon(f, v); }
    case Many(items) =>
      forall k | 0 <= k < |items|
        ensures ValFits(f.ltype, f.dataSize, items[k])
           <==> ValTerminated(f.ltype, f.dataSize, items[k]) && CanonItems(f, items)[k] == items[k]
      {
        ValCanon(f, items[k]);
      }
      if CanonSlot(f, slot) == slot {
        assert CanonItems(f, items) == items;
      }
  }

  /** A message fits exactly when its strings are terminated and sending loses nothing of it. */
  lemma {:induction false} MsgCanon(s: Schema, m: seq<Slot>)
    requires Described(s) && MsgTyped(s, m)
    ensures MsgFits(s, m) <==> MsgTerminated(s, m) && CanonMsg(s, m) == m
    decreases s
  {
    forall i | 0 <= i < |m|
      ensures SlotFits(s.fields[i], m[i]) <==> SlotTerminated(s.fields[i], m[i]) && CanonMsg(s, m)[i] == m[i]
    {
      SlotCanon(s.fields[i], m[i]);
    }
    if MsgTerminated(s, m) && CanonMsg(s, m) == m {
      forall i | 0 <= i < |m| ensures SlotFits(s.fields[i], m[i]) {
        assert CanonMsg(s, m)[i] == m[i];
      }
    }
  }

  /** The outcome of decoding what pb_encode wrote, for every message it accepts. */
  lemma DecodeAfterEncode(s: Schema, m: seq<Slot>)
    requires Sendable(s, m)
    ensures DecMsg(s, EncMsg(s, m))
         == if MsgTerminated(s, m) then Done(CanonMsg(s, m), |EncMsg(s, m)|, []) else Fail
  {
    hide SpellsMsg;
    OwnLayout(s, m);
    AnyLayoutOutcome(s, m, MsgRecords(s, m, 0));
  }

  /** Decoding undoes encoding exactly on the messages that fit. */
  lemma RoundTripIffFits(s: Schema, m: seq<Slot>)
    requires Sendable(s, m)
    ensures DecMsg(s, EncMsg(s, m)) == Done(m, |EncMsg(s, m)|, []) <==> MsgFits(s, m)
  {
    DecodeAfterEncode(s, m);
    MsgCanon(s, m);
  }

  /** Two fitting messages with the same encoding are the same message. */
  lemma EncodingInjective(s: Schema, a: seq<Slot>, b: seq<Slot>)
    requires Sendable(s, a) && Sendable(s, b) && MsgFits(s, a) && MsgFits(s, b)
    requires EncMsg(s, a) == EncMsg(s, b)
    ensures a == b
  {
    RoundTripIffFits(s, a);
    RoundTripIffFits(s, b);
  }

  /** What was received fits. */
  lemma {:induction false} CanonFits(s: Schema, m: seq<Slot>)
    requires Described(s) && MsgTyped(s, m) && MsgTerminated(s, m)
    ensures MsgFits(s, CanonMsg(s, m))
    decreases s
  {
    forall i | 0 <= i < |m| ensures SlotFits(s.fields[i], CanonMsg(s, m)[i]) {
      var f := s.fields[i];
      match m[i]
      case One(v) => CanonValFits(f, v);
      case Maybe(has, v) => if has { CanonValFits(f, v); }
      case Many(items) =>
        forall k | 0 <= k < |items| ensures ValFits(f.ltype, f.dataSize, CanonItems(f, items)[k]) {
          CanonValFits(f, items[k]);
        }
        assert CanonMsg(s, m)[i] == Many(CanonItems(f, items));
    }
  }

  lemma {:induction false} CanonValFits(f: Field, v: Val)
    requires FieldDescribed(f) && ValTyped(f.ltype, f.dataSize, v) && ValTerminated(f.ltype, f.dataSize, v)
    ensures ValFits(f.ltype, f.dataSize, CanonVal(f.ltype, f.dataSize, v))
    decreases f
  {
    if f.ltype.TSubmessage? {
      CanonFits(f.ltype.sub, v.slots);
    }
  }

  // ---- sending what was received ----

  /** The canonical form of a value is sent as the value itself is. */
  lemma {:induction false} ValSent(f: Field, v: Val)
    requires FieldDescribed(f) && ValTyped(f.ltype, f.dataSize, v)
    ensures var c := CanonVal(f.ltype, f.dataSize, v);
            && EncVal(f.ltype, f.dataSize, c) == EncVal(f.ltype, f.dataSize, v)
            && (ValOk(f.ltype, f.dataSize, v) ==> ValOk(f.ltype, f.dataSize, c))
    decreases f, 0
  {
    match f.ltype
    case TString =>
      var body := v.mem[..CLength(v.mem)];
      CLengthWhole(body);
      assert body[..|body|] == body;
    case TSubmessage(s) => MsgSent(s, v.slots);
    case _ =>
  }

  lemma {:induction false} ItemsSent(f: Field, items: seq<Val>)
    requires FieldDescribed(f) && forall k :: 0 <= k < |items| ==> ValTyped(f.ltype, f.dataSize, items[k])
    ensures ItemRecords(f, CanonItems(f, items)) == ItemRecords(f, items)
    decreases f, 1, |items|
  {
    hide ValTyped, EncVal, CanonVal;
    if items != [] {
      ValSent(f, items[0]);
      assert CanonItems(f, items)[1..] == CanonItems(f, items[1..]);
      ItemsSent(f, items[1..]);
    }
  }

  lemma {:induction false} SlotSent(f: Field, slot: Slot)
    requires FieldDescribed(f) && SlotTyped(f, slot)
    ensures Records(f, CanonSlot(f, slot)) == Records(f, slot) && (SlotOk(f, slot) ==> SlotOk(f, CanonSlot(f, slot)))
    decreases f, 2
  {
    hide ValTyped, EncVal, ValOk, EncItems;
    match slot
    case One(v) => ValSent(f, v);
    case Maybe(has, v) => if has { ValSent(f, v); }
    case Many(items) =>
      if Packable(f.ltype) {
        assert CanonItems(f, items) == items;
      } else {
        ItemsSent(f, items);
        forall k | 0 <= k < |items| && ValOk(f.ltype, f.dataSize, items[k])
          ensures ValOk(f.ltype, f.dataSize, CanonItems(f, items)[k])
        {
          ValSent(f, items[k]);
        }
      }
  }

  lemma {:induction false} RecordsSent(s: Schema, m: seq<Slot>, i: nat)
    requires Described(s) && MsgTyped(s, m) && i <= |m|
    ensures MsgRecords(s, CanonMsg(s, m), i) == MsgRecords(s, m, i)
    decreases s, 0, |m| - i
  {
    hide Records, CanonSlot, Described, SlotTyped, FieldDescribed;
    if i < |m| {
      OneSent(s, m, i);
      RecordsSent(s, m, i + 1);
    }
  }

  lemma {:induction false} OneSent(s: Schema, m: seq<Slot>, i: nat)
    requires Described(s) && MsgTyped(s, m) && i < |m|
    ensures Records(s.fields[i], CanonMsg(s, m)[i]) == Records(s.fields[i], m[i])
    ensures SlotOk(s.fields[i], m[i]) ==> SlotOk(s.fields[i], CanonMsg(s, m)[i])
    decreases s.fields[i], 3
  {
    SlotSent(s.fields[i], m[i]);
  }

  lemma {:induction false} MsgSent(s: Schema, m: seq<Slot>)
    requires Described(s) && MsgTyped(s, m)
    ensures EncMsg(s, CanonMsg(s, m)) == EncMsg(s, m) && (MsgOk(s, m) ==> MsgOk(s, CanonMsg(s, m)))
    decreases s, 1
  {
    hide Described, FieldDescribed, SlotTyped, CanonSlot, MsgRecords;
    RecordsSent(s, m, 0);
    forall i | 0 <= i < |m| && MsgOk(s, m) ensures SlotOk(s.fields[i], CanonMsg(s, m)[i]) {
      OneSent(s, m, i);
    }
  }

  /** Sending is idempotent: what was received is accepted by the encoder, makes the same bytes
      as before, and is received unchanged. */
  lemma Resend(s: Schema, m: seq<Slot>)
    requires Sendable(s, m) && MsgTerminated(s, m)
    ensures var c := CanonMsg(s, m);
            && Sendable(s, c) && MsgFits(s, c) && EncMsg(s, c) == EncMsg(s, m)
            && DecMsg(s, EncMsg(s, c)) == Done(c, |EncMsg(s, c)|, [])
  {
    MsgSent(s, m);
    CanonFits(s, m);
    RoundTripIffFits(s, CanonMsg(s, m));
  }
}
