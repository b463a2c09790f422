/**
 A nested message that arrives in several records: the decoder reads each into what the ones
 before it left.
 */
module Merging {
  import opened Words
  import opened Varint
  import opened Proto
  import opened Encoding
  import opened Decoding
  import opened Layout
  import opened RoundTrip

  lemma {:induction false} RunConcat(f: Field, a: seq<seq<byte>>, b: seq<seq<byte>>, slot: Slot)
    requires FieldDescribed(f) && SlotTyped(f, slot)
    ensures RunSlot(f, a + b, slot)
         == match RunSlot(f, a, slot)
            case None => None
            case Some(slot') => RunSlot(f, b, slot')
    decreases |a|
  {
    hide RecordStep, SlotTyped, FieldDescribed;
    if a == [] {
      assert a + b == b;
    } else {
      assert (a + b)[1..] == a[1..] + b;
      if RecordStep(f, a[0], slot).Some? {
        RunConcat(f, a[1..], b, RecordStep(f, a[0], slot).value);
      }
    }
  }

  /** Reading records in two goes. */
  lemma RunAllConcat(s: Schema, slots: seq<Slot>, a: seq<seq<byte>>, b: seq<seq<byte>>)
    requires Described(s) && MsgTyped(s, slots) && Readable(s, slots, a) && Readable(s, RunAll(s, slots, a), b)
    ensures Readable(s, slots, a + b) && RunAll(s, slots, a + b) == RunAll(s, RunAll(s, slots, a), b)
  {
    hide RunSlot, Project, Skippable, Target, SlotTyped, FieldDescribed;
    forall i | 0 <= i < |s.fields|
      ensures RunSlot(s.fields[i], Project(s, i, a + b), slots[i])
           == RunSlot(s.fields[i], Project(s, i, b), RunAll(s, slots, a)[i])
    {
      ProjectConcat(s, i, a, b);
      RunConcat(s.fields[i], Project(s, i, a), Project(s, i, b), slots[i]);
    }
  }

  /** The records of a nested message as one record of the field. */
  function Nested(f: Field, rs: seq<seq<byte>>): seq<byte> {
    Key(f.tag, 2) + Delimited(Flatten(rs))
  }

  /** One record of a nested message over what the field holds: every field in it is read over its
      present contents, and each record has to bring all required fields. */
  lemma NestedOver(f: Field, slot: Slot, slots: seq<Slot>, rs: seq<seq<byte>>)
    requires FieldDescribed(f) && FieldWellFormed(f) && f.ltype.TSubmessage? && !f.htype.Repeated?
    requires SlotTyped(f, slot) && slot.v == Msg(slots) && MsgTyped(f.ltype.sub, slots)
    requires Readable(f.ltype.sub, slots, rs) && |Flatten(rs)| < U32
    ensures RecordStep(f, Nested(f, rs), slot)
         == if HasRequired(f.ltype.sub, rs) then Some(Holding(f, Msg(RunAll(f.ltype.sub, slots, rs)))) else None
  {
    hide DecLoop, RunAll, Readable, HasRequired, Flatten, FieldDescribed, Delimited, DecLength, DecVal, MsgTyped;
    var s, body := f.ltype.sub, Flatten(rs);
    DescribedSub(f);
    RecordRead(f, 2, Delimited(body));
    DelimitedRead(body, []);
    assert Delimited(body) + [] == Delimited(body) && body + [] == body && body[..|body|] == body;
    LoopOnMessage(s, slots, rs);
    SubmessageIs(f, Delimited(body), slot.v, |body|, body);
  }

  lemma DescribedSub(f: Field)
    requires FieldDescribed(f) && FieldWellFormed(f) && f.ltype.TSubmessage?
    ensures Described(f.ltype.sub) && WellFormed(f.ltype.sub)
  {
  }

  /** Two records of a nested message are read as one with the bodies joined, if each brings the
      required fields; a record that does not is refused even where the one before it did. */
  lemma NestedMerge(f: Field, slot: Slot, slots: seq<Slot>, a: seq<seq<byte>>, b: seq<seq<byte>>)
    requires FieldDescribed(f) && FieldWellFormed(f) && f.ltype.TSubmessage? && !f.htype.Repeated?
    requires SlotTyped(f, slot) && slot.v == Msg(slots) && MsgTyped(f.ltype.sub, slots)
    requires Readable(f.ltype.sub, slots, a) && Readable(f.ltype.sub, RunAll(f.ltype.sub, slots, a), b)
    requires |Flatten(a + b)| < U32
    ensures var apart := RunSlot(f, [Nested(f, a), Nested(f, b)], slot);
            && (apart.Some? <==> HasRequired(f.ltype.sub, a) && HasRequired(f.ltype.sub, b))
            && (apart.Some? ==> apart == RunSlot(f, [Nested(f, a + b)], slot))
  {
    hide RunAll, Readable, HasRequired, Flatten, FieldDescribed, FieldWellFormed, Nested, RecordStep, MsgTyped;
    var s := f.ltype.sub;
    DescribedSub(f);
    FlattenConcat(a, b);
    RunAllConcat(s, slots, a, b);
    RequiredJoined(s, a, b);
    NestedOver(f, slot, slots, a);
    NestedOver(f, slot, slots, a + b);
    OneRun(f, Nested(f, a + b), slot);
    assert [Nested(f, a), Nested(f, b)][1..] == [Nested(f, b)];
    if HasRequired(s, a) {
      var after := RunAll(s, slots, a);
      HoldsNested(f, after);
      NestedOver(f, Holding(f, Msg(after)), after, b);
      OneRun(f, Nested(f, b), Holding(f, Msg(after)));
    }
  }

  lemma OneRun(f: Field, rec: seq<byte>, slot: Slot)
    requires FieldDescribed(f) && SlotTyped(f, slot)
    ensures RunSlot(f, [rec], slot) == RecordStep(f, rec, slot)
  {
    assert [rec][1..] == [];
  }

  lemma HoldsNested(f: Field, slots: seq<Slot>)
    requires f.ltype.TSubmessage? && !f.htype.Repeated? && MsgTyped(f.ltype.sub, slots)
    ensures SlotTyped(f, Holding(f, Msg(slots)))
  {
  }

  lemma RequiredJoined(s: Schema, a: seq<seq<byte>>, b: seq<seq<byte>>)
    ensures HasRequired(s, a) ==> HasRequired(s, a + b)
  {
    hide Project;
    forall i | 0 <= i < |s.fields| && s.fields[i].htype.Required? && Project(s, i, a) != []
      ensures Project(s, i, a + b) != []
    {
      ProjectConcat(s, i, a, b);
    }
  }
}
