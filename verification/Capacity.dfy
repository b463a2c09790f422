/**
 What pb_decode leaves in memory, whatever the input: nothing larger than its array, every
 absent field at its initial value, and therefore a message that pb_encode accepts again.
 */
module Capacity {
  import opened Words
  import opened Varint
  import opened Proto
  import opened Encoding
  import opened Decoding
  import opened Layout
  import opened RoundTrip
  import opened RoundTripExact

  /** All zero bytes, an empty array, an empty string. */
  predicate Cleared(v: Val) {
    match v
    case Int(n) => n == 0
    case Raw(bytes) => forall i :: 0 <= i < |bytes| ==> bytes[i] == 0
    case Blob(data) => data == []
    case Text(mem) => mem == []
    case Msg(_) => false
  }

  /** Nothing was read: the field's default if it has one, else cleared memory, at every depth. */
  predicate Initial(f: Field, v: Val)
    requires ValTyped(f.ltype, f.dataSize, v)
    decreases f.ltype, 0
  {
    if f.ltype.TSubmessage? then MsgInitial(f.ltype.sub, v.slots)
    else if f.init.Some? then v == f.init.value
    else Cleared(v)
  }

  predicate SlotInitial(f: Field, slot: Slot)
    requires SlotTyped(f, slot)
    decreases f.ltype, 1
  {
    match slot
    case One(v) => Initial(f, v)
    case Maybe(has, v) => !has && Initial(f, v)
    case Many(items) => items == []
  }

  predicate MsgInitial(s: Schema, slots: seq<Slot>)
    requires MsgTyped(s, slots)
    decreases s
  {
    forall i :: 0 <= i < |slots| ==> SlotInitial(s.fields[i], slots[i])
  }

  /** A value that was read is inside its array: behind the size of a bytes field, in front of the
      zero of a string. */
  predicate Within(f: Field, v: Val)
    requires ValTyped(f.ltype, f.dataSize, v)
    decreases f.ltype, 0
  {
    match f.ltype
    case TVarint => f.dataSize in {1, 2, 4, 8}
    case TUVarint => f.dataSize in {4, 8}
    case TSVarint => f.dataSize in {4, 8}
    case TBytes => |v.data| + 2 <= f.dataSize
    case TString => |v.mem| + 1 <= f.dataSize
    case TSubmessage(s) => MsgWithin(s, v.slots)
    case _ => true
  }

  predicate SlotWithin(f: Field, slot: Slot)
    requires SlotTyped(f, slot)
    decreases f.ltype, 1
  {
    match slot
    case One(v) => Within(f, v)
    case Maybe(has, v) => if has then Within(f, v) else Initial(f, v)
    case Many(items) => |items| <= f.arraySize && forall k :: 0 <= k < |items| ==> Within(f, items[k])
  }

  predicate MsgWithin(s: Schema, slots: seq<Slot>)
    requires MsgTyped(s, slots)
    decreases s
  {
    forall i :: 0 <= i < |slots| ==> SlotWithin(s.fields[i], slots[i])
  }

  // ---- while the message is read ----

  /** A required field that was not met yet is in its initial state, or in that of an earlier
      record of the same nested message. */
  predicate SlotSoFar(f: Field, slot: Slot, met: bool)
    requires SlotTyped(f, slot)
  {
    SlotWithin(f, slot) || (!met && SlotInitial(f, slot))
  }

  predicate SoFar(s: Schema, slots: seq<Slot>, seen: set<nat>)
    requires MsgTyped(s, slots)
  {
    forall i :: 0 <= i < |slots| ==> SlotSoFar(s.fields[i], slots[i], !s.fields[i].htype.Required? || i in seen)
  }

  lemma {:induction false} DefaultInitial(f: Field)
    requires FieldDescribed(f)
    ensures Initial(f, DefaultVal(f)) && SlotInitial(f, DefaultSlot(f))
    decreases f, 0
  {
    if f.ltype.TSubmessage? {
      DefaultsInitial(f.ltype.sub);
    }
  }

  lemma {:induction false} DefaultsInitial(s: Schema)
    requires Described(s)
    ensures MsgInitial(s, Defaults(s))
    decreases s
  {
    forall i | 0 <= i < |s.fields| ensures SlotInitial(s.fields[i], Defaults(s)[i]) {
      DefaultInitial(s.fields[i]);
    }
  }

  /** A nested message may be read into one that was read before, or into an initial one. */
  lemma StartsSoFar(s: Schema, slots: seq<Slot>)
    requires MsgTyped(s, slots) && (MsgInitial(s, slots) || MsgWithin(s, slots))
    ensures SoFar(s, slots, {})
  {
    hide SlotInitial, SlotWithin, SlotTyped;
    forall i | 0 <= i < |slots| ensures SlotSoFar(s.fields[i], slots[i], !s.fields[i].htype.Required?) {
      if !s.fields[i].htype.Required? && SlotInitial(s.fields[i], slots[i]) {
        AbsentWithin(s.fields[i], slots[i]);
      }
    }
  }

  /** A field that may be absent is complete without anything read. */
  lemma AbsentWithin(f: Field, slot: Slot)
    requires SlotTyped(f, slot) && SlotInitial(f, slot) && !f.htype.Required?
    ensures SlotWithin(f, slot)
  {
    hide Initial, Within, ValTyped;
  }

  lemma {:induction false} ValWithin(f: Field, w: seq<byte>, was: Val)
    requires FieldDescribed(f)
    requires f.ltype.TSubmessage? ==> ValTyped(f.ltype, f.dataSize, was) && (Initial(f, was) || Within(f, was))
    requires DecVal(f, w, was).Done?
    ensures Within(f, DecVal(f, w, was).value)
    decreases f, 0
  {
    hide DecLoop, DecLength, MsgWithin, MsgInitial, Decode64;
    match f.ltype
    case TSubmessage(s) =>
      LengthGot(f, w, was);
      var n, rest := DecLength(w).value, DecLength(w).rest;
      SubmessageIs(f, w, was, n, rest);
      StartsSoFar(s, was.slots);
      LoopWithin(s, 0, {}, was.slots, rest[..n]);
    case _ =>
  }

  lemma {:induction false} PackedWithin(f: Field, w: seq<byte>, items: seq<Val>)
    requires FieldDescribed(f) && Packable(f.ltype)
    requires ItemsTyped(f, items) && |items| <= f.arraySize && forall k :: 0 <= k < |items| ==> Within(f, items[k])
    requires DecPacked(f, w, items).Some?
    ensures var r := DecPacked(f, w, items).value;
            |r| <= f.arraySize && forall k :: 0 <= k < |r| ==> Within(f, r[k])
    decreases f, 1, |w|
  {
    hide DecVal, Within, ValTyped, DefaultVal, FieldDescribed;
    if w != [] {
      ValWithin(f, w, DefaultVal(f));
      var v := DecVal(f, w, DefaultVal(f));
      PackedWithin(f, v.rest, items + [v.value]);
    }
  }

  lemma {:induction false} SlotReadWithin(f: Field, wt: nat, w: seq<byte>, slot: Slot, met: bool)
    requires FieldDescribed(f) && SlotTyped(f, slot) && SlotSoFar(f, slot, met) && DecSlot(f, wt, w, slot).Done?
    ensures SlotWithin(f, DecSlot(f, wt, w, slot).value)
    decreases f, 2
  {
    hide DecVal, DecPacked, DecLength, Within, Initial, DefaultVal, FieldDescribed, ValTyped;
    match slot
    case One(was) => ValWithin(f, w, was);
    case Maybe(_, was) => ValWithin(f, w, was);
    case Many(items) =>
      if wt == 2 && Packable(f.ltype) {
        PackedWithin(f, DecLength(w).rest[..DecLength(w).value], items);
      } else {
        DefaultInitial(f);
        ValWithin(f, w, DefaultVal(f));
      }
  }

  lemma {:induction false} LoopWithin(s: Schema, it: nat, seen: set<nat>, slots: seq<Slot>, w: seq<byte>)
    requires Described(s) && MsgTyped(s, slots) && (|s.fields| > 0 ==> it < |s.fields|)
    requires SoFar(s, slots, seen) && DecLoop(s, it, seen, slots, w).Done?
    ensures MsgWithin(s, DecLoop(s, it, seen, slots, w).value)
    decreases s, |w|
  {
    hide DecLoop, DecKey, Find, Skip, DecSlot, SlotSoFar, SlotWithin, SlotTyped, FieldDescribed;
    if w == [] {
      LoopEmpty(s, it, seen, slots);
      AtTheEnd(s, seen, slots);
    } else {
      LoopEnds(s, it, seen, slots, w);
      match DecKey(w)
      case End(_) => AtTheEnd(s, seen, slots);
      case KeyRead(wt, tag, rest) =>
        match Find(s.fields, it, tag)
        case None =>
          LoopSkips(s, it, seen, slots, w);
          LoopWithin(s, it, seen, slots, Skip(rest, wt).value);
        case Some(i) =>
          LoopTakes(s, it, seen, slots, w, i);
          var met := !s.fields[i].htype.Required? || i in seen;
          SlotReadWithin(s.fields[i], wt, rest, slots[i], met);
          var r := DecSlot(s.fields[i], wt, rest, slots[i]);
          var seen' := if s.fields[i].htype.Required? then seen + {i} else seen;
          StillSoFar(s, slots, seen, i, r.value);
          LoopWithin(s, i, seen', slots[i := r.value], r.rest);
    }
  }

  lemma StillSoFar(s: Schema, slots: seq<Slot>, seen: set<nat>, i: nat, slot: Slot)
    requires MsgTyped(s, slots) && SoFar(s, slots, seen) && i < |slots|
    requires SlotTyped(s.fields[i], slot) && SlotWithin(s.fields[i], slot)
    ensures SoFar(s, slots[i := slot], if s.fields[i].htype.Required? then seen + {i} else seen)
  {
    hide SlotWithin, SlotInitial, SlotTyped;
  }

  lemma AtTheEnd(s: Schema, seen: set<nat>, slots: seq<Slot>)
    requires MsgTyped(s, slots) && SoFar(s, slots, seen) && AllRequired(s, seen)
    ensures MsgWithin(s, slots)
  {
    hide SlotWithin, SlotInitial, SlotTyped;
  }

  /** Whatever the input: at every depth, what was read is inside its array, no array has more
      items than it has room for, and every optional field that is marked absent holds its
      initial value. */
  lemma ReceivedWithin(s: Schema, w: seq<byte>)
    requires Described(s) && DecMsg(s, w).Done?
    ensures MsgWithin(s, DecMsg(s, w).value)
  {
    hide DecLoop, MsgInitial, MsgWithin;
    DefaultsInitial(s);
    StartsSoFar(s, Defaults(s));
    LoopWithin(s, 0, {}, Defaults(s), w);
  }

  /** A field without records in an input that is accepted: absent, empty, and never required. */
  lemma NotSent(s: Schema, rs: seq<seq<byte>>, i: nat)
    requires WellFormed(s) && Decidable(s, Defaults(s), rs) && i < |s.fields| && Project(s, i, rs) == []
    requires DecMsg(s, Flatten(rs)).Done?
    ensures !s.fields[i].htype.Required? && SlotInitial(s.fields[i], DecMsg(s, Flatten(rs)).value[i])
  {
    hide DecLoop, AllSettled, AllKnown, RecordStep, Initial;
    DecodeRecords(s, rs);
    DefaultInitial(s.fields[i]);
  }

  // ---- what was received can be sent ----

  lemma {:induction false} WithinOk(f: Field, v: Val)
    requires ValTyped(f.ltype, f.dataSize, v) && Within(f, v)
    ensures ValOk(f.ltype, f.dataSize, v) && ValTerminated(f.ltype, f.dataSize, v)
    decreases f.ltype, 0
  {
    if f.ltype.TSubmessage? {
      MsgWithinOk(f.ltype.sub, v.slots);
    }
  }

  lemma {:induction false} SlotWithinOk(f: Field, slot: Slot)
    requires SlotTyped(f, slot) && SlotWithin(f, slot)
    ensures SlotOk(f, slot) && SlotTerminated(f, slot)
    decreases f.ltype, 1
  {
    hide ValTyped, ValOk, ValTerminated, Within, Initial;
    match slot
    case One(v) => WithinOk(f, v);
    case Maybe(has, v) => if has { WithinOk(f, v); }
    case Many(items) =>
      forall k | 0 <= k < |items|
        ensures ValOk(f.ltype, f.dataSize, items[k]) && ValTerminated(f.ltype, f.dataSize, items[k])
      {
        WithinOk(f, items[k]);
      }
  }

  lemma {:induction false} MsgWithinOk(s: Schema, slots: seq<Slot>)
    requires MsgTyped(s, slots) && MsgWithin(s, slots)
    ensures MsgOk(s, slots) && MsgTerminated(s, slots)
    decreases s
  {
    hide SlotWithin, SlotOk, SlotTerminated;
    forall i | 0 <= i < |slots| ensures SlotOk(s.fields[i], slots[i]) && SlotTerminated(s.fields[i], slots[i]) {
      SlotWithinOk(s.fields[i], slots[i]);
    }
  }

  /** Whatever the input, a message that pb_decode accepts is one that pb_encode accepts, and what
      is sent on is received in canonical form, strings up to their first zero. */
  lemma Forwarded(s: Schema, w: seq<byte>)
    requires WellFormed(s) && DecMsg(s, w).Done? && |EncMsg(s, DecMsg(s, w).value)| < U32
    ensures var m := DecMsg(s, w).value;
            && Sendable(s, m)
            && DecMsg(s, EncMsg(s, m)) == Done(CanonMsg(s, m), |EncMsg(s, m)|, [])
  {
    hide MsgWithin, MsgOk, MsgTerminated, DecLoop;
    ReceivedWithin(s, w);
    MsgWithinOk(s, DecMsg(s, w).value);
    DecodeAfterEncode(s, DecMsg(s, w).value);
  }
}
