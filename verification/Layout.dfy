/**
 Decoding does not depend on the layout of the input.  The input is seen as a sequence of
 records; what ends up in one field is decided by the records for that field alone, in their
 order, whatever stands between them.
 */
module Layout {
  import opened Words
  import opened Varint
  import opened Proto
  import opened Encoding
  import opened Decoding

  // ---- the cyclic search of pb_field_iter_find ----

  lemma CyclicCovers(n: nat, start: nat, i: nat) returns (k: nat)
    requires start < n && i < n
    ensures k < n && Cyclic(n, start, k) == i
  {
    k := if i >= start then i - start else i + n - start;
  }

  lemma {:induction false} FindMiss(fields: seq<Field>, start: nat, k: nat, j: nat, tag: nat)
    requires start < |fields| && k <= j < |fields|
    requires FindFrom(fields, start, k, tag).None?
    ensures fields[Cyclic(|fields|, start, j)].tag != tag
    decreases j - k
  {
    if k < j {
      FindMiss(fields, start, k + 1, j, tag);
    }
  }

  /** From any position the search finds a tag if and only if the schema has it. */
  lemma FindComplete(fields: seq<Field>, start: nat, tag: nat)
    requires |fields| > 0 ==> start < |fields|
    ensures Find(fields, start, tag).Some? <==> exists i :: 0 <= i < |fields| && fields[i].tag == tag
  {
    if Find(fields, start, tag).None? {
      forall i | 0 <= i < |fields| ensures fields[i].tag != tag {
        var k := CyclicCovers(|fields|, start, i);
        FindMiss(fields, start, 0, k, tag);
      }
    }
  }

  /** With distinct tags the answer does not depend on where the search starts. */
  lemma FindUnique(s: Schema, start: nat, i: nat)
    requires WellFormed(s) && i < |s.fields| && start < |s.fields|
    ensures Find(s.fields, start, s.fields[i].tag) == Some(i)
  {
    FindComplete(s.fields, start, s.fields[i].tag);
  }

  lemma FindAnywhere(s: Schema, a: nat, b: nat, tag: nat)
    requires WellFormed(s) && (|s.fields| > 0 ==> a < |s.fields| && b < |s.fields|)
    ensures Find(s.fields, a, tag) == Find(s.fields, b, tag)
  {
    FindComplete(s.fields, a, tag);
    FindComplete(s.fields, b, tag);
  }

  // ---- a complete read does not depend on what follows ----

  lemma Decode32Extend(w: seq<byte>, x: seq<byte>)
    requires Decode32(w).Got?
    ensures Decode32(w + x) == Got(Decode32(w).value, Decode32(w).rest + x)
  {
    DecodeExtend(w, x, 32, 0, 0);
  }

  lemma Decode64Extend(w: seq<byte>, x: seq<byte>)
    requires Decode64(w).Got?
    ensures Decode64(w + x) == Got(Decode64(w).value, Decode64(w).rest + x)
  {
    DecodeExtend(w, x, 64, 0, 0);
  }

  lemma KeyExtend(w: seq<byte>, x: seq<byte>)
    requires DecKey(w).KeyRead?
    ensures DecKey(w + x) == DecKey(w).(rest := DecKey(w).rest + x)
  {
    Decode32Extend(w, x);
  }

  lemma TakeDrop(r: seq<byte>, x: seq<byte>, n: nat)
    requires n <= |r|
    ensures (r + x)[..n] == r[..n] && (r + x)[n..] == r[n..] + x
  {
  }

  lemma {:induction false} SkipVarintExtend(w: seq<byte>, x: seq<byte>)
    requires SkipVarint(w).Some?
    ensures SkipVarint(w + x) == Some(SkipVarint(w).value + x)
  {
    HeadTail(w, x);
    if w[0] >= 128 {
      SkipVarintExtend(w[1..], x);
    }
  }

  lemma LengthExtend(w: seq<byte>, x: seq<byte>)
    requires DecLength(w).Got?
    ensures DecLength(w + x) == Got(DecLength(w).value, DecLength(w).rest + x)
  {
    Decode32Extend(w, x);
  }

  lemma SkipExtend(w: seq<byte>, x: seq<byte>, wt: nat)
    requires Skip(w, wt).Some?
    ensures Skip(w + x, wt) == Some(Skip(w, wt).value + x)
  {
    if wt == 0 {
      SkipVarintExtend(w, x);
    } else if wt == 1 {
      TakeDrop(w, x, 8);
    } else if wt == 2 {
      LengthExtend(w, x);
      TakeDrop(DecLength(w).rest, x, DecLength(w).value);
    } else {
      TakeDrop(w, x, 4);
    }
  }

  lemma VarintExtend(f: Field, w: seq<byte>, x: seq<byte>, was: Val)
    requires FieldDescribed(f)
    requires f.ltype.TVarint? || f.ltype.TUVarint? || f.ltype.TSVarint?
    requires DecVal(f, w, was).Done?
    ensures DecVal(f, w + x, was) == DecVal(f, w, was).(rest := DecVal(f, w, was).rest + x)
  {
    Decode64Extend(w, x);
  }

  lemma StringExtend(f: Field, w: seq<byte>, x: seq<byte>, was: Val)
    requires FieldDescribed(f)
    requires f.ltype.TBytes? || f.ltype.TString?
    requires DecVal(f, w, was).Done?
    ensures DecVal(f, w + x, was) == DecVal(f, w, was).(rest := DecVal(f, w, was).rest + x)
  {
    Decode32Extend(w, x);
    TakeDrop(Decode32(w).rest, x, Decode32(w).value);
  }

  lemma SubmessageExtend(f: Field, w: seq<byte>, x: seq<byte>, was: Val)
    requires FieldDescribed(f)
    requires f.ltype.TSubmessage? && ValTyped(f.ltype, f.dataSize, was)
    requires DecVal(f, w, was).Done?
    requires DecVal(f, w, was).used + |DecVal(f, w, was).rest| == |w|
    ensures DecVal(f, w + x, was) == DecVal(f, w, was).(rest := DecVal(f, w, was).rest + x)
  {
    hide DecLoop, MsgTyped, DecVal, DecLength;
    LengthGot(f, w, was);
    LengthExtend(w, x);
    var n, rest := DecLength(w).value, DecLength(w).rest;
    SubmessageIs(f, w, was, n, rest);
    SubmessageIs(f, w + x, was, n, rest + x);
    TakeDrop(rest, x, n);
    assert rest[n..n + |rest| - n] == rest[n..];
    assert (rest + x)[n..n + |rest + x| - n] == (rest + x)[n..];
  }

  lemma ValExtend(f: Field, w: seq<byte>, x: seq<byte>, was: Val)
    requires FieldDescribed(f)
    requires f.ltype.TSubmessage? ==> ValTyped(f.ltype, f.dataSize, was)
    requires DecVal(f, w, was).Done? && DecVal(f, w, was).used + |DecVal(f, w, was).rest| == |w|
    ensures DecVal(f, w + x, was) == DecVal(f, w, was).(rest := DecVal(f, w, was).rest + x)
  {
    match f.ltype
    case TFixed32 => TakeDrop(w, x, 4);
    case TFixed64 => TakeDrop(w, x, 8);
    case TBytes => StringExtend(f, w, x, was);
    case TString => StringExtend(f, w, x, was);
    case TSubmessage(_) => SubmessageExtend(f, w, x, was);
    case _ => VarintExtend(f, w, x, was);
  }

  lemma SlotExtend(f: Field, wt: nat, w: seq<byte>, x: seq<byte>, slot: Slot)
    requires FieldDescribed(f) && SlotTyped(f, slot)
    requires DecSlot(f, wt, w, slot).Done? && DecSlot(f, wt, w, slot).used + |DecSlot(f, wt, w, slot).rest| == |w|
    ensures DecSlot(f, wt, w + x, slot) == DecSlot(f, wt, w, slot).(rest := DecSlot(f, wt, w, slot).rest + x)
  {
    match slot
    case One(was) => ValExtend(f, w, x, was);
    case Maybe(_, was) => ValExtend(f, w, x, was);
    case Many(items) =>
      if wt == 2 && Packable(f.ltype) {
        LengthExtend(w, x);
        TakeDrop(DecLength(w).rest, x, DecLength(w).value);
      } else {
        ValExtend(f, w, x, DefaultVal(f));
      }
  }

  // ---- records ----

  /** The field a record is for, if its key is readable and the schema has the tag. */
  function Target(s: Schema, rec: seq<byte>): (t: Option<nat>)
    ensures t.Some? ==> t.value < |s.fields|
  {
    match DecKey(rec)
    case KeyRead(_, tag, _) => Find(s.fields, 0, tag)
    case _ => None
  }

  /** A record for no field of the schema that pb_skip_field skips exactly. */
  predicate Skippable(s: Schema, rec: seq<byte>) {
    && DecKey(rec).KeyRead?
    && Target(s, rec).None?
    && !(s.fields == [] && DecKey(rec).tag == 0)
    && Skip(DecKey(rec).rest, DecKey(rec).wt) == Some([])
  }

  /** Decodes one record on its own into its field, provided the decoder takes it whole. */
  function RecordStep(f: Field, rec: seq<byte>, slot: Slot): (r: Option<Slot>)
    requires FieldDescribed(f) && SlotTyped(f, slot)
    ensures r.Some? ==> SlotTyped(f, r.value)
  {
    match DecKey(rec)
    case KeyRead(wt, _, rest) =>
      (match DecSlot(f, wt, rest, slot)
       case Done(slot', used, rest') => if used == |rest| && rest' == [] then Some(slot') else None
       case Fail => None)
    case _ => None
  }

  /** The records for field `i`, in order. */
  function Project(s: Schema, i: nat, rs: seq<seq<byte>>): seq<seq<byte>> {
    if rs == [] then []
    else if Target(s, rs[0]) == Some(i) then [rs[0]] + Project(s, i, rs[1..])
    else Project(s, i, rs[1..])
  }

  /** Decodes the records of one field one after the other. */
  function RunSlot(f: Field, rs: seq<seq<byte>>, slot: Slot): (r: Option<Slot>)
    requires FieldDescribed(f) && SlotTyped(f, slot)
    ensures r.Some? ==> SlotTyped(f, r.value)
    decreases |rs|
  {
    if rs == [] then Some(slot)
    else
      match RecordStep(f, rs[0], slot)
      case None => None
      case Some(slot') => RunSlot(f, rs[1..], slot')
  }

  /** The record decodes whole into its field, or is refused whatever follows it. */
  ghost predicate Settled(f: Field, rec: seq<byte>, slot: Slot)
    requires FieldDescribed(f) && SlotTyped(f, slot)
  {
    RecordStep(f, rec, slot).Some? || Refused(f, rec, slot)
  }

  ghost predicate Refused(f: Field, rec: seq<byte>, slot: Slot)
    requires FieldDescribed(f) && SlotTyped(f, slot)
  {
    && DecKey(rec).KeyRead?
    && forall x: seq<byte> :: DecSlot(f, DecKey(rec).wt, DecKey(rec).rest + x, slot).Fail?
  }

  /** The records decode whole into their field one after the other, up to one that is refused. */
  ghost predicate AllSettled(f: Field, rs: seq<seq<byte>>, slot: Slot)
    requires FieldDescribed(f) && SlotTyped(f, slot)
    decreases |rs|
  {
    rs != [] ==>
      && Settled(f, rs[0], slot)
      && (RecordStep(f, rs[0], slot).Some? ==> AllSettled(f, rs[1..], RecordStep(f, rs[0], slot).value))
  }

  lemma {:induction false} RunSettled(f: Field, rs: seq<seq<byte>>, slot: Slot)
    requires FieldDescribed(f) && SlotTyped(f, slot) && RunSlot(f, rs, slot).Some?
    ensures AllSettled(f, rs, slot)
    decreases |rs|
  {
    hide RecordStep, Refused;
    if rs != [] {
      RunSettled(f, rs[1..], RecordStep(f, rs[0], slot).value);
    }
  }

  /** A record the decoder decodes whole is not one that it refuses. */
  lemma NotBoth(f: Field, rec: seq<byte>, slot: Slot)
    requires FieldDescribed(f) && SlotTyped(f, slot) && Refused(f, rec, slot)
    ensures RecordStep(f, rec, slot).None?
  {
    assert DecKey(rec).rest + [] == DecKey(rec).rest;
  }

  predicate AllKnown(s: Schema, rs: seq<seq<byte>>) {
    forall k :: 0 <= k < |rs| ==> Target(s, rs[k]).Some? || Skippable(s, rs[k])
  }

  /** Every record is skippable or settled on its own and in turn. */
  ghost predicate Decidable(s: Schema, slots: seq<Slot>, rs: seq<seq<byte>>)
    requires Described(s) && MsgTyped(s, slots)
  {
    && AllKnown(s, rs)
    && forall i :: 0 <= i < |s.fields| ==> AllSettled(s.fields[i], Project(s, i, rs), slots[i])
  }

  /** Every record is skippable or, on its own and in turn, decodes whole into its field. */
  predicate Readable(s: Schema, slots: seq<Slot>, rs: seq<seq<byte>>)
    requires Described(s) && MsgTyped(s, slots)
  {
    && AllKnown(s, rs)
    && forall i :: 0 <= i < |s.fields| ==> RunSlot(s.fields[i], Project(s, i, rs), slots[i]).Some?
  }

  lemma ReadableDecidable(s: Schema, slots: seq<Slot>, rs: seq<seq<byte>>)
    requires Described(s) && MsgTyped(s, slots) && Readable(s, slots, rs)
    ensures Decidable(s, slots, rs)
  {
    hide RunSlot, AllSettled;
    forall i | 0 <= i < |s.fields| ensures AllSettled(s.fields[i], Project(s, i, rs), slots[i]) {
      RunSettled(s.fields[i], Project(s, i, rs), slots[i]);
    }
  }

  /** Field by field, what the records leave. */
  function RunAll(s: Schema, slots: seq<Slot>, rs: seq<seq<byte>>): (r: seq<Slot>)
    requires Described(s) && MsgTyped(s, slots) && Readable(s, slots, rs)
    ensures MsgTyped(s, r)
  {
    seq(|s.fields|, i requires 0 <= i < |s.fields| => RunSlot(s.fields[i], Project(s, i, rs), slots[i]).value)
  }

  /** The required fields met after the records, and where the iterator then stands. */
  function SeenAfter(s: Schema, seen: set<nat>, rs: seq<seq<byte>>): set<nat>
    decreases |rs|
  {
    if rs == [] then seen
    else
      match Target(s, rs[0])
      case None => SeenAfter(s, seen, rs[1..])
      case Some(i) => SeenAfter(s, if s.fields[i].htype.Required? then seen + {i} else seen, rs[1..])
  }

  function ItAfter(s: Schema, it: nat, rs: seq<seq<byte>>): (r: nat)
    requires |s.fields| > 0 ==> it < |s.fields|
    ensures |s.fields| > 0 ==> r < |s.fields|
    decreases |rs|
  {
    if rs == [] then it
    else
      match Target(s, rs[0])
      case None => ItAfter(s, it, rs[1..])
      case Some(i) => ItAfter(s, i, rs[1..])
  }

  lemma {:induction false} SeenProject(s: Schema, seen: set<nat>, rs: seq<seq<byte>>, i: nat)
    requires i < |s.fields| && s.fields[i].htype.Required?
    ensures i in SeenAfter(s, seen, rs) <==> i in seen || Project(s, i, rs) != []
    decreases |rs|
  {
    if rs != [] {
      match Target(s, rs[0])
      case None => SeenProject(s, seen, rs[1..], i);
      case Some(j) => SeenProject(s, if s.fields[j].htype.Required? then seen + {j} else seen, rs[1..], i);
    }
  }

  /** One record for a known field in front of others: the loop performs its step. */
  lemma LoopKnown(s: Schema, it: nat, seen: set<nat>, slots: seq<Slot>, rec: seq<byte>, x: seq<byte>)
    requires WellFormed(s) && MsgTyped(s, slots) && (|s.fields| > 0 ==> it < |s.fields|)
    requires Target(s, rec).Some?
    requires RecordStep(s.fields[Target(s, rec).value], rec, slots[Target(s, rec).value]).Some?
    ensures var i := Target(s, rec).value;
            var seen' := if s.fields[i].htype.Required? then seen + {i} else seen;
            var slot' := RecordStep(s.fields[i], rec, slots[i]).value;
            DecLoop(s, it, seen, slots, rec + x) == Advance(|rec|, DecLoop(s, i, seen', slots[i := slot'], x))
  {
    hide DecLoop, DecKey, Find, DecSlot;
    var i := Target(s, rec).value;
    var k := DecKey(rec);
    FindAnywhere(s, 0, it, k.tag);
    KeyExtend(rec, x);
    SlotExtend(s.fields[i], k.wt, k.rest, x, slots[i]);
    assert [] + x == x;
    LoopTakes(s, it, seen, slots, rec + x, i);
  }

  lemma LoopUnknown(s: Schema, it: nat, seen: set<nat>, slots: seq<Slot>, rec: seq<byte>, x: seq<byte>)
    requires WellFormed(s) && MsgTyped(s, slots) && (|s.fields| > 0 ==> it < |s.fields|)
    requires Skippable(s, rec)
    ensures DecLoop(s, it, seen, slots, rec + x) == Advance(|rec|, DecLoop(s, it, seen, slots, x))
  {
    hide DecLoop, DecKey, Find, Skip;
    var k := DecKey(rec);
    FindAnywhere(s, 0, it, k.tag);
    KeyExtend(rec, x);
    SkipExtend(k.rest, x, k.wt);
    assert [] + x == x;
    LoopSkips(s, it, seen, slots, rec + x);
  }

  /** What the head record leaves for the tail. */
  lemma TailRuns(s: Schema, slots: seq<Slot>, rs: seq<seq<byte>>, slots': seq<Slot>)
    requires WellFormed(s) && MsgTyped(s, slots) && MsgTyped(s, slots') && rs != []
    requires match Target(s, rs[0])
             case None => slots' == slots
             case Some(i) =>
               && RecordStep(s.fields[i], rs[0], slots[i]).Some?
               && slots' == slots[i := RecordStep(s.fields[i], rs[0], slots[i]).value]
    ensures forall i :: 0 <= i < |s.fields| ==>
              RunSlot(s.fields[i], Project(s, i, rs[1..]), slots'[i]) == RunSlot(s.fields[i], Project(s, i, rs), slots[i])
    ensures Decidable(s, slots, rs) ==> Decidable(s, slots', rs[1..])
  {
    hide RecordStep, Target, Settled, Skippable;
    forall i | 0 <= i < |s.fields|
      ensures RunSlot(s.fields[i], Project(s, i, rs[1..]), slots'[i]) == RunSlot(s.fields[i], Project(s, i, rs), slots[i])
      ensures AllSettled(s.fields[i], Project(s, i, rs), slots[i]) ==>
                AllSettled(s.fields[i], Project(s, i, rs[1..]), slots'[i])
    {
      if Target(s, rs[0]) == Some(i) {
        assert Project(s, i, rs)[1..] == Project(s, i, rs[1..]);
      }
    }
  }

  lemma ReadableTail(s: Schema, slots: seq<Slot>, rs: seq<seq<byte>>, slots': seq<Slot>)
    requires WellFormed(s) && MsgTyped(s, slots) && MsgTyped(s, slots') && rs != []
    requires Readable(s, slots, rs)
    requires match Target(s, rs[0])
             case None => slots' == slots
             case Some(i) =>
               && RecordStep(s.fields[i], rs[0], slots[i]).Some?
               && slots' == slots[i := RecordStep(s.fields[i], rs[0], slots[i]).value]
    ensures Readable(s, slots', rs[1..]) && RunAll(s, slots', rs[1..]) == RunAll(s, slots, rs)
  {
    hide RecordStep, Target, RunSlot, Project, Skippable;
    TailRuns(s, slots, rs, slots');
  }

  lemma FlattenHead(rs: seq<seq<byte>>, x: seq<byte>)
    requires rs != []
    ensures Flatten(rs) + x == rs[0] + (Flatten(rs[1..]) + x)
    ensures |Flatten(rs)| == |rs[0]| + |Flatten(rs[1..])|
  {
    ConcatAssoc(rs[0], Flatten(rs[1..]), x);
  }

  lemma ConcatAssoc(a: seq<byte>, b: seq<byte>, x: seq<byte>)
    ensures a + b + x == a + (b + x)
  {
  }

  /** The loop's state after the first record, from which the others go on. */
  lemma HeadStep(s: Schema, it: nat, seen: set<nat>, slots: seq<Slot>, rs: seq<seq<byte>>, y: seq<byte>)
      returns (it': nat, seen': set<nat>, slots': seq<Slot>)
    requires WellFormed(s) && MsgTyped(s, slots) && (|s.fields| > 0 ==> it < |s.fields|)
    requires rs != [] && Readable(s, slots, rs)
    ensures MsgTyped(s, slots') && (|s.fields| > 0 ==> it' < |s.fields|)
    ensures Readable(s, slots', rs[1..]) && RunAll(s, slots', rs[1..]) == RunAll(s, slots, rs)
    ensures ItAfter(s, it', rs[1..]) == ItAfter(s, it, rs) && SeenAfter(s, seen', rs[1..]) == SeenAfter(s, seen, rs)
    ensures DecLoop(s, it, seen, slots, rs[0] + y) == Advance(|rs[0]|, DecLoop(s, it', seen', slots', y))
  {
    match Target(s, rs[0]) {
    case None =>
      it', seen', slots' := it, seen, slots;
      LoopUnknown(s, it, seen, slots, rs[0], y);
    case Some(i) =>
      assert Project(s, i, rs)[0] == rs[0];
      it', seen' := i, if s.fields[i].htype.Required? then seen + {i} else seen;
      slots' := slots[i := RecordStep(s.fields[i], rs[0], slots[i]).value];
      LoopKnown(s, it, seen, slots, rs[0], y);
    }
    ReadableTail(s, slots, rs, slots');
  }

  lemma NoRecords(s: Schema, slots: seq<Slot>)
    requires Described(s) && MsgTyped(s, slots)
    ensures Readable(s, slots, []) && RunAll(s, slots, []) == slots
  {
  }

  /** The decoder run over whole records, whatever follows them: it arrives behind them with
      each field holding what its own records say. */
  lemma {:induction false} LoopOverRecords(s: Schema, it: nat, seen: set<nat>, slots: seq<Slot>,
          rs: seq<seq<byte>>, x: seq<byte>)
    requires WellFormed(s) && MsgTyped(s, slots) && (|s.fields| > 0 ==> it < |s.fields|)
    requires Readable(s, slots, rs)
    ensures DecLoop(s, it, seen, slots, Flatten(rs) + x)
         == Advance(|Flatten(rs)|, DecLoop(s, ItAfter(s, it, rs), SeenAfter(s, seen, rs), RunAll(s, slots, rs), x))
    decreases |rs|
  {
    hide Readable, RunAll, RunSlot, Project, DecLoop, Target, MsgTyped;
    if rs == [] {
      NoRecords(s, slots);
      assert Flatten(rs) + x == x;
    } else {
      FlattenHead(rs, x);
      var it', seen', slots' := HeadStep(s, it, seen, slots, rs, Flatten(rs[1..]) + x);
      LoopOverRecords(s, it', seen', slots', rs[1..], x);
    }
  }

  /** A refused record in front of others: the loop fails. */
  lemma LoopRefused(s: Schema, it: nat, seen: set<nat>, slots: seq<Slot>, rec: seq<byte>, x: seq<byte>)
    requires WellFormed(s) && MsgTyped(s, slots) && (|s.fields| > 0 ==> it < |s.fields|)
    requires Target(s, rec).Some? && Refused(s.fields[Target(s, rec).value], rec, slots[Target(s, rec).value])
    ensures DecLoop(s, it, seen, slots, rec + x).Fail?
  {
    hide DecLoop, DecKey, Find, DecSlot;
    FindAnywhere(s, 0, it, DecKey(rec).tag);
    KeyExtend(rec, x);
    LoopTakes(s, it, seen, slots, rec + x, Target(s, rec).value);
  }

  /** The decoder run over records of which one is refused fails, whatever follows them. */
  lemma {:induction false} LoopRefuses(s: Schema, it: nat, seen: set<nat>, slots: seq<Slot>,
          rs: seq<seq<byte>>, x: seq<byte>)
    requires WellFormed(s) && MsgTyped(s, slots) && (|s.fields| > 0 ==> it < |s.fields|)
    requires Decidable(s, slots, rs)
    requires exists i :: 0 <= i < |s.fields| && RunSlot(s.fields[i], Project(s, i, rs), slots[i]).None?
    ensures DecLoop(s, it, seen, slots, Flatten(rs) + x).Fail?
    decreases |rs|
  {
    hide Refused, RecordStep, DecLoop, Skippable, Target;
    FlattenHead(rs, x);
    var y := Flatten(rs[1..]) + x;
    match Target(s, rs[0])
    case None =>
      LoopUnknown(s, it, seen, slots, rs[0], y);
      TailRuns(s, slots, rs, slots);
      LoopRefuses(s, it, seen, slots, rs[1..], x);
    case Some(i) =>
      assert Project(s, i, rs)[0] == rs[0];
      if RecordStep(s.fields[i], rs[0], slots[i]).Some? {
        var slots' := slots[i := RecordStep(s.fields[i], rs[0], slots[i]).value];
        LoopKnown(s, it, seen, slots, rs[0], y);
        TailRuns(s, slots, rs, slots');
        LoopRefuses(s, i, if s.fields[i].htype.Required? then seen + {i} else seen, slots', rs[1..], x);
      } else {
        LoopRefused(s, it, seen, slots, rs[0], y);
      }
  }

  /** Each required field has a record. */
  predicate HasRequired(s: Schema, rs: seq<seq<byte>>) {
    forall i :: 0 <= i < |s.fields| && s.fields[i].htype.Required? ==> Project(s, i, rs) != []
  }

  /** A whole message of records that none refuses, read over whatever the struct holds. */
  lemma LoopOnMessage(s: Schema, slots: seq<Slot>, rs: seq<seq<byte>>)
    requires WellFormed(s) && MsgTyped(s, slots) && Readable(s, slots, rs)
    ensures DecLoop(s, 0, {}, slots, Flatten(rs))
         == if HasRequired(s, rs) then Done(RunAll(s, slots, rs), |Flatten(rs)|, []) else Fail
  {
    hide DecLoop, RunAll, RunSlot, Target, Project, SeenAfter, Flatten, ItAfter;
    assert Flatten(rs) + [] == Flatten(rs);
    LoopOverRecords(s, 0, {}, slots, rs, []);
    LoopEmpty(s, ItAfter(s, 0, rs), SeenAfter(s, {}, rs), RunAll(s, slots, rs));
    forall i | 0 <= i < |s.fields| && s.fields[i].htype.Required?
      ensures i in SeenAfter(s, {}, rs) <==> Project(s, i, rs) != []
    {
      SeenProject(s, {}, rs, i);
    }
  }

  /** pb_decode on a sequence of records: it succeeds if and only if none is refused and each
      required field is on the wire, and then consumes everything and leaves in every field what
      the records for that field say. */
  lemma DecodeRecords(s: Schema, rs: seq<seq<byte>>)
    requires WellFormed(s) && Decidable(s, Defaults(s), rs)
    ensures DecMsg(s, Flatten(rs))
         == if Readable(s, Defaults(s), rs) && HasRequired(s, rs) then Done(RunAll(s, Defaults(s), rs), |Flatten(rs)|, [])
            else Fail
  {
    hide RunSlot, AllSettled, DecLoop, Skippable, Target, Project, HasRequired;
    if Readable(s, Defaults(s), rs) {
      LoopOnMessage(s, Defaults(s), rs);
    } else {
      assert Flatten(rs) + [] == Flatten(rs);
      LoopRefuses(s, 0, {}, Defaults(s), rs, []);
    }
  }

  /** Any two inputs with the same records for each field, in the same order within the field,
      decode to the same message or are both refused: records of different fields may be
      permuted, and skippable records inserted, dropped or moved. */
  lemma LayoutIndependence(s: Schema, rs: seq<seq<byte>>, rs': seq<seq<byte>>)
    requires WellFormed(s) && Decidable(s, Defaults(s), rs) && AllKnown(s, rs')
    requires forall i :: 0 <= i < |s.fields| ==> Project(s, i, rs') == Project(s, i, rs)
    ensures match DecMsg(s, Flatten(rs))
            case Done(slots, _, _) => DecMsg(s, Flatten(rs')) == Done(slots, |Flatten(rs')|, [])
            case Fail => DecMsg(s, Flatten(rs')).Fail?
  {
    hide RunSlot, AllSettled, Skippable, Target, Project, AllKnown;
    DecodeRecords(s, rs);
    DecodeRecords(s, rs');
    if Readable(s, Defaults(s), rs) {
      assert RunAll(s, Defaults(s), rs') == RunAll(s, Defaults(s), rs);
    }
  }

  // ---- records the decoder skips ----

  /** The four payload shapes of the wire format, written as the decoder reads them: a varint may
      be longer than it has to be, and so may the length in front of a body. */
  datatype Payload =
    | VarintPayload(bytes: seq<byte>)
    | Bits64(bytes: seq<byte>)
    | LengthDelimited(length: seq<byte>, body: seq<byte>)
    | Bits32(bytes: seq<byte>)

  predicate PayloadOk(p: Payload) {
    match p
    case VarintPayload(b) => OneVarint(b)
    case Bits64(b) => |b| == 8
    case LengthDelimited(l, b) => Decode32(l) == Got(|b|, [])
    case Bits32(b) => |b| == 4
  }

  function PayloadType(p: Payload): (wt: nat)
    ensures wt < 8
  {
    match p
    case VarintPayload(_) => 0
    case Bits64(_) => 1
    case LengthDelimited(_, _) => 2
    case Bits32(_) => 5
  }

  function PayloadBytes(p: Payload): seq<byte> {
    match p
    case VarintPayload(b) => b
    case Bits64(b) => b
    case LengthDelimited(l, b) => l + b
    case Bits32(b) => b
  }

  lemma KeyRoundTrip(tag: nat, wt: nat, x: seq<byte>)
    requires wt < 8 && 0 < tag * 8 + wt < U32
    ensures DecKey(Key(tag, wt) + x) == KeyRead(wt, tag, x)
  {
    var k := tag * 8 + wt;
    assert k / 8 == tag && k % 8 == wt;
    RoundTrip32(k, x);
  }

  lemma DelimitedRead(body: seq<byte>, x: seq<byte>)
    requires |body| < U32
    ensures DecLength(Delimited(body) + x) == Got(|body|, body + x)
    ensures Decode32(Delimited(body) + x) == Got(|body|, body + x)
  {
    assert Delimited(body) + x == Encode(|body|) + (body + x);
    RoundTrip32(|body|, body + x);
  }

  lemma {:induction false} SkipsVarint(w: seq<byte>)
    ensures SkipVarint(w) == Some([]) <==> OneVarint(w)
  {
    if w != [] && w[0] >= 128 {
      SkipsVarint(w[1..]);
      if OneVarint(w[1..]) {
        forall i | 0 <= i < |w| - 1 ensures w[i] >= 128 {
          assert i > 0 ==> w[i] == w[1..][i - 1];
        }
      }
    }
  }

  /** Every payload of the wire format is skipped whole. */
  lemma PayloadSkips(p: Payload)
    requires PayloadOk(p)
    ensures Skip(PayloadBytes(p), PayloadType(p)) == Some([])
  {
    match p
    case VarintPayload(b) => SkipsVarint(b);
    case Bits64(_) =>
    case LengthDelimited(l, b) =>
      Decode32Extend(l, b);
      assert [] + b == b && b[|b|..] == [];
    case Bits32(_) =>
  }

  /** What is skipped whole is a payload of the wire format. */
  lemma SkippedPayload(w: seq<byte>, wt: nat) returns (p: Payload)
    requires Skip(w, wt) == Some([])
    ensures PayloadOk(p) && PayloadType(p) == wt && PayloadBytes(p) == w
  {
    if wt == 0 {
      SkipsVarint(w);
      p := VarintPayload(w);
    } else if wt == 1 {
      p := Bits64(w);
    } else if wt == 2 {
      DecodePrefix(w, 32, 0, 0);
      var n := |w| - |Decode32(w).rest|;
      p := LengthDelimited(w[..n], w[n..]);
    } else {
      p := Bits32(w);
    }
  }

  /** The bytes `key` say `tag` and the wire type of the payload, and the schema does not have the tag. */
  predicate UnknownRecord(s: Schema, key: seq<byte>, tag: nat, p: Payload) {
    && PayloadOk(p) && Decode32(key) == Got(tag * 8 + PayloadType(p), []) && tag * 8 + PayloadType(p) > 0
    && (forall i :: 0 <= i < |s.fields| ==> s.fields[i].tag != tag)
    && !(s.fields == [] && tag == 0)
  }

  lemma UnknownSkippable(s: Schema, key: seq<byte>, tag: nat, p: Payload)
    requires UnknownRecord(s, key, tag, p)
    ensures Skippable(s, key + PayloadBytes(p))
  {
    hide Skip, PayloadBytes, PayloadOk, DecodeFrom;
    var k, b := tag * 8 + PayloadType(p), PayloadBytes(p);
    Decode32Extend(key, b);
    assert [] + b == b && k / 8 == tag && k % 8 == PayloadType(p);
    FindComplete(s.fields, 0, tag);
    PayloadSkips(p);
  }

  /** What the decoder skips: a key with a tag outside the schema and a payload of its wire type,
      be they as short as possible or not, and nothing else. */
  lemma SkippableExactly(s: Schema, rec: seq<byte>)
    ensures Skippable(s, rec)
       <==> exists key, tag, p :: UnknownRecord(s, key, tag, p) && rec == key + PayloadBytes(p)
  {
    hide Skip, PayloadBytes, PayloadOk, DecodeFrom;
    if Skippable(s, rec) {
      var k := DecKey(rec);
      DecodePrefix(rec, 32, 0, 0);
      var p := SkippedPayload(k.rest, k.wt);
      var key := rec[..|rec| - |k.rest|];
      FindComplete(s.fields, 0, k.tag);
      assert rec == key + PayloadBytes(p);
      assert UnknownRecord(s, key, k.tag, p);
    }
    forall key, tag, p | UnknownRecord(s, key, tag, p) && rec == key + PayloadBytes(p) ensures Skippable(s, rec) {
      UnknownSkippable(s, key, tag, p);
    }
  }
}
