/**
 Sender and receiver with different versions of a message type: what arrives is decided by the
 fields they share, whatever each side has besides.
 */
module Evolution {
  import opened Words
  import opened Varint
  import opened Proto
  import opened Encoding
  import opened Decoding
  import opened Layout
  import opened RoundTrip
  import opened RoundTripExact
  import opened WireFormat

  /** The two versions of a field agree on what stands on the wire; the place in the struct, the
      size of the array and the default may differ. */
  predicate SameWire(f: Field, g: Field) {
    f.tag == g.tag && f.ltype == g.ltype && f.htype == g.htype && f.dataSize == g.dataSize
  }

  /** No tag is used for two different things. */
  predicate Compatible(s: Schema, r: Schema) {
    forall i, j :: 0 <= i < |s.fields| && 0 <= j < |r.fields| && s.fields[i].tag == r.fields[j].tag
                   ==> SameWire(s.fields[i], r.fields[j])
  }

  /** Every field that the receiver requires is one the sender has. */
  predicate Complete(s: Schema, r: Schema) {
    forall j :: 0 <= j < |r.fields| && r.fields[j].htype.Required? ==> Find(s.fields, 0, r.fields[j].tag).Some?
  }

  /** What the receiver's field `j` should hold: what the sender's field of that tag holds, or
      nothing if the sender has no such field. */
  function Arrives(s: Schema, m: seq<Slot>, r: Schema, j: nat): (slot: Slot)
    requires MsgTyped(s, m) && Described(r) && Compatible(s, r) && j < |r.fields|
    ensures SlotTyped(r.fields[j], slot)
  {
    match Find(s.fields, 0, r.fields[j].tag)
    case Some(i) =>
      SameTyped(s.fields[i], r.fields[j], m[i]);
      m[i]
    case None => DefaultSlot(r.fields[j])
  }

  function Arrived(s: Schema, m: seq<Slot>, r: Schema): (m': seq<Slot>)
    requires MsgTyped(s, m) && Described(r) && Compatible(s, r)
    ensures MsgTyped(r, m')
  {
    seq(|r.fields|, j requires 0 <= j < |r.fields| => Arrives(s, m, r, j))
  }

  lemma SameTyped(f: Field, g: Field, slot: Slot)
    requires SameWire(f, g) && SlotTyped(f, slot)
    ensures SlotTyped(g, slot)
  {
  }

  lemma {:induction false} SamePieces(f: Field, g: Field, ps: seq<Piece>)
    requires SameWire(f, g) && PiecesOk(f, ps)
    ensures PiecesOk(g, ps) && PieceRecords(g, ps) == PieceRecords(f, ps)
    decreases |ps|
  {
    hide ValTyped, ValOk, EncVal, EncItems, Delimited, Key;
    if ps != [] {
      assert PieceOk(g, ps[0]) && PieceRecord(g, ps[0]) == PieceRecord(f, ps[0]);
      SamePieces(f, g, ps[1..]);
      assert forall k :: 1 <= k < |ps| ==> ps[k] == ps[1..][k - 1];
    }
  }

  lemma SameSpelling(f: Field, g: Field, rs: seq<seq<byte>>, slot: Slot)
    requires SameWire(f, g) && Spells(f, rs, slot)
    ensures Spells(g, rs, slot)
  {
    hide PiecesOk, PieceRecords, ValTerminated;
    match slot
    case One(v) => SameLast(f, g, rs, v);
    case Maybe(has, v) => if has { SameLast(f, g, rs, v); }
    case Many(items) =>
      var ps :| SpellsItems(f, rs, ps, items);
      SamePieces(f, g, ps);
      assert SpellsItems(g, rs, ps, items);
  }

  lemma SameLast(f: Field, g: Field, rs: seq<seq<byte>>, v: Val)
    requires SameWire(f, g) && exists ps :: SpellsLast(f, rs, ps, v)
    ensures exists ps :: SpellsLast(g, rs, ps, v)
  {
    hide PieceRecords, ValTerminated;
    var ps :| SpellsLast(f, rs, ps, v);
    SamePieces(f, g, ps);
    assert SpellsLast(g, rs, ps, v);
  }

  // ---- records that the receiver does not know ----

  lemma {:induction false} PieceAt(f: Field, ps: seq<Piece>, k: nat)
    requires PiecesOk(f, ps) && k < |ps|
    ensures PieceRecords(f, ps)[k] == PieceRecord(f, ps[k])
    decreases k
  {
    hide PieceRecord;
    if k > 0 {
      PieceAt(f, ps[1..], k - 1);
    }
  }

  lemma {:induction false} OwnWireType(f: Field, items: seq<Val>)
    ensures forall k :: 0 <= k < |OwnPieces(f, items)| && OwnPieces(f, items)[k].Single? ==>
                          OwnPieces(f, items)[k].wt == WireType(f.ltype)
    decreases |items|
  {
    if items != [] {
      OwnWireType(f, items[1..]);
    }
  }

  /** Every record of a field is skipped by a receiver that does not have the tag. */
  lemma RecordsSkippable(r: Schema, f: Field, slot: Slot)
    requires FieldDescribed(f) && SlotTyped(f, slot) && SlotOk(f, slot) && |Flatten(Records(f, slot))| < U32
    requires forall j :: 0 <= j < |r.fields| ==> r.fields[j].tag != f.tag
    ensures forall k :: 0 <= k < |Records(f, slot)| ==> Skippable(r, Records(f, slot)[k])
  {
    hide Skippable, ValTyped, ValOk, FieldDescribed, EncVal, ItemRecords;
    match slot
    case One(v) => SingleSkippable(r, f, v);
    case Maybe(has, v) => if has { SingleSkippable(r, f, v); }
    case Many(items) =>
      if items != [] && !Packable(f.ltype) {
        OwnItems(f, items);
      } else {
        OwnPacked(f, items);
      }
      OwnWireType(f, items);
      PiecesSkippable(r, f, OwnPieces(f, items));
  }

  lemma SingleSkippable(r: Schema, f: Field, v: Val)
    requires FieldDescribed(f) && !f.htype.Repeated? && ValTyped(f.ltype, f.dataSize, v) && ValOk(f.ltype, f.dataSize, v)
    requires |Flatten([ValRecord(f, v)])| < U32 && forall j :: 0 <= j < |r.fields| ==> r.fields[j].tag != f.tag
    ensures Skippable(r, ValRecord(f, v))
  {
    hide Skippable, ValTyped, ValOk, FieldDescribed, EncVal;
    OneRecord(ValRecord(f, v));
    PieceSkippable(r, f, Single(WireType(f.ltype), v));
  }

  lemma PiecesSkippable(r: Schema, f: Field, ps: seq<Piece>)
    requires FieldDescribed(f) && PiecesOk(f, ps)
    requires forall k :: 0 <= k < |ps| && ps[k].Single? ==> ps[k].wt == WireType(f.ltype)
    requires forall j :: 0 <= j < |r.fields| ==> r.fields[j].tag != f.tag
    ensures forall k :: 0 <= k < |ps| ==> Skippable(r, PieceRecords(f, ps)[k])
  {
    hide Skippable, PieceRecord, PieceRecords, FieldDescribed, PieceOk;
    forall k | 0 <= k < |ps| ensures Skippable(r, PieceRecords(f, ps)[k]) {
      PieceAt(f, ps, k);
      PieceSkippable(r, f, ps[k]);
    }
  }

  lemma {:induction false} RecordsKnown(s: Schema, m: seq<Slot>, r: Schema, i: nat)
    requires WellFormed(s) && MsgTyped(s, m) && MsgOk(s, m) && i <= |m| && |Flatten(MsgRecords(s, m, i))| < U32
    ensures AllKnown(r, MsgRecords(s, m, i))
    decreases |m| - i
  {
    hide Records, Skippable, WellFormed, SlotTyped, SlotOk, Target, Find, FieldDescribed, Described;
    if i < |m| {
      var f := s.fields[i];
      DescribedField(s, i);
      FlattenConcat(Records(f, m[i]), MsgRecords(s, m, i + 1));
      RecordsKnown(s, m, r, i + 1);
      FindComplete(r.fields, 0, f.tag);
      RecordsTarget(r, f, m[i]);
      if Find(r.fields, 0, f.tag).None? {
        RecordsSkippable(r, f, m[i]);
      }
    }
  }

  // ---- what arrives ----

  /** The receiver's records for a field are a way to write what should arrive in it. */
  lemma FieldArrives(s: Schema, m: seq<Slot>, r: Schema, j: nat)
    requires Sendable(s, m) && WellFormed(r) && Compatible(s, r) && j < |r.fields|
    ensures var rs := Project(r, j, MsgRecords(s, m, 0));
            if r.fields[j].htype.Required? && Find(s.fields, 0, r.fields[j].tag).None? then rs == []
            else Spells(r.fields[j], rs, Arrives(s, m, r, j))
  {
    hide Spells, Records, Project, Find;
    MsgRecordsProject(s, m, 0, r, j);
    match Find(s.fields, 0, r.fields[j].tag)
    case Some(i) =>
      TagFound(s, r.fields[j].tag);
      MsgRecordsSize(s, m, 0, i);
      OwnSpelling(s.fields[i], m[i]);
      SameSpelling(s.fields[i], r.fields[j], Records(s.fields[i], m[i]), m[i]);
    case None =>
      if !r.fields[j].htype.Required? {
        NothingSpelled(r.fields[j]);
      }
  }

  lemma TagFound(s: Schema, tag: nat)
    ensures var i := Find(s.fields, 0, tag); i.Some? ==> i.value < |s.fields| && s.fields[i.value].tag == tag
  {
  }

  lemma NothingSpelled(f: Field)
    requires FieldDescribed(f) && !f.htype.Required?
    ensures Spells(f, [], DefaultSlot(f))
  {
    if f.htype.Repeated? {
      assert SpellsItems(f, [], [], []);
    }
  }

  /** A message sent with one schema and received with another: the fields that both have arrive in
      canonical form, the sender's others are skipped, the receiver's others are in their initial
      state.  It is refused if and only if the receiver requires a field that the sender does not
      have, or a shared field has a string without end or more items than the receiver has room for. */
  lemma SchemaEvolution(s: Schema, m: seq<Slot>, r: Schema)
    requires Sendable(s, m) && WellFormed(r) && Compatible(s, r)
    ensures var m' := Arrived(s, m, r);
            DecMsg(r, EncMsg(s, m))
              == if Complete(s, r) && MsgTerminated(r, m') && MsgRoomy(r, m')
                 then Done(CanonMsg(r, m'), |EncMsg(s, m)|, []) else Fail
  {
    hide Spells, Project, AllKnown, Find, RunSlot, AllSettled, SlotTerminated, Roomy, DecLoop;
    var rs, m' := MsgRecords(s, m, 0), Arrived(s, m, r);
    RecordsKnown(s, m, r, 0);
    forall j | 0 <= j < |r.fields|
      ensures r.fields[j].htype.Required? && Find(s.fields, 0, r.fields[j].tag).None? ==> Project(r, j, rs) == []
      ensures !(r.fields[j].htype.Required? && Find(s.fields, 0, r.fields[j].tag).None?) ==>
                Spells(r.fields[j], Project(r, j, rs), m'[j])
    {
      FieldArrives(s, m, r, j);
    }
    if Complete(s, r) {
      AnyLayoutOutcome(r, m', rs);
    } else {
      forall j | 0 <= j < |r.fields| ensures AllSettled(r.fields[j], Project(r, j, rs), Defaults(r)[j]) {
        if r.fields[j].htype.Required? && Find(s.fields, 0, r.fields[j].tag).None? {
          NothingSettled(r.fields[j], DefaultSlot(r.fields[j]));
        } else {
          SpelledOutcome(r.fields[j], Project(r, j, rs), m'[j]);
        }
      }
      DecodeRecords(r, rs);
    }
  }

  lemma NothingSettled(f: Field, slot: Slot)
    requires FieldDescribed(f) && SlotTyped(f, slot)
    ensures AllSettled(f, [], slot)
  {
  }

  /** A receiver with some of the sender's fields gets those of them. */
  lemma FewerFields(s: Schema, m: seq<Slot>, r: Schema, pick: seq<nat>)
    requires Sendable(s, m) && WellFormed(r) && |pick| == |r.fields|
    requires forall j :: 0 <= j < |pick| ==> pick[j] < |s.fields| && SameWire(s.fields[pick[j]], r.fields[j])
    requires forall j :: 0 <= j < |pick| ==> Roomy(r.fields[j], m[pick[j]])
    requires MsgTerminated(s, m)
    ensures var d := DecMsg(r, EncMsg(s, m));
            && d.Done? && d.rest == [] && d.used == |EncMsg(s, m)| && |d.value| == |pick|
            && forall j :: 0 <= j < |pick| ==>
                 SlotTyped(r.fields[j], m[pick[j]]) && d.value[j] == CanonSlot(r.fields[j], m[pick[j]])
  {
    hide Find, WellFormed, SlotTerminated, MsgOk, Compatible;
    Picked(s, r, pick);
    SchemaEvolution(s, m, r);
    forall j | 0 <= j < |pick|
      ensures SlotTyped(r.fields[j], m[pick[j]]) && SlotTerminated(r.fields[j], m[pick[j]])
    {
      SameTyped(s.fields[pick[j]], r.fields[j], m[pick[j]]);
      SameTerminated(s.fields[pick[j]], r.fields[j], m[pick[j]]);
    }
  }

  lemma Picked(s: Schema, r: Schema, pick: seq<nat>)
    requires WellFormed(s) && WellFormed(r) && |pick| == |r.fields|
    requires forall j :: 0 <= j < |pick| ==> pick[j] < |s.fields| && SameWire(s.fields[pick[j]], r.fields[j])
    ensures Described(s) && Described(r) && Compatible(s, r)
    ensures forall j :: 0 <= j < |pick| ==> Find(s.fields, 0, r.fields[j].tag) == Some(pick[j])
  {
    hide Find, FieldWellFormed, FieldDescribed;
    forall i, j | 0 <= i < |s.fields| && 0 <= j < |r.fields| && s.fields[i].tag == r.fields[j].tag
      ensures i == pick[j]
    {
    }
    forall j | 0 <= j < |pick| ensures Find(s.fields, 0, r.fields[j].tag) == Some(pick[j]) {
      FindUnique(s, 0, pick[j]);
    }
  }

  lemma SameTerminated(f: Field, g: Field, slot: Slot)
    requires SameWire(f, g) && SlotTyped(f, slot) && SlotTyped(g, slot) && SlotTerminated(f, slot)
    ensures SlotTerminated(g, slot)
  {
  }
}
