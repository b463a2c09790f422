/**
 Where a message ends: at the end of the input, at a zero key, or where the input is cut short.
 */
module Endings {
  import opened Words
  import opened Varint
  import opened Proto
  import opened Encoding
  import opened Decoding
  import opened Layout

  // ---- a zero key ----

  lemma LoopOnZero(s: Schema, it: nat, seen: set<nat>, slots: seq<Slot>, x: seq<byte>)
    requires Described(s) && MsgTyped(s, slots) && (|s.fields| > 0 ==> it < |s.fields|)
    ensures DecLoop(s, it, seen, slots, [0] + x) == Finish(s, seen, slots, 1, x)
  {
    hide MsgTyped, Described, AllRequired;
    ZeroKey(x);
    LoopEnds(s, it, seen, slots, [0] + x);
  }

  lemma ZeroKey(x: seq<byte>)
    ensures DecKey([0] + x) == End(x)
  {
    assert Encode(0) == [0];
    RoundTrip32(0, x);
  }

  /** A zero byte in place of a key ends the message: what follows it is left unread. */
  lemma ZeroEnds(s: Schema, slots: seq<Slot>, rs: seq<seq<byte>>, x: seq<byte>)
    requires WellFormed(s) && MsgTyped(s, slots) && Readable(s, slots, rs)
    ensures DecLoop(s, 0, {}, slots, Flatten(rs) + ([0] + x))
         == if HasRequired(s, rs) then Done(RunAll(s, slots, rs), |Flatten(rs)| + 1, x) else Fail
  {
    hide Readable, RunAll, MsgTyped, HasRequired, SeenAfter, ItAfter, DecLoop;
    LoopOnZero(s, ItAfter(s, 0, rs), SeenAfter(s, {}, rs), RunAll(s, slots, rs), x);
    LoopOverRecords(s, 0, {}, slots, rs, [0] + x);
    LoopOverRecords(s, 0, {}, slots, rs, []);
    LoopOnMessage(s, slots, rs);
    LoopEmpty(s, ItAfter(s, 0, rs), SeenAfter(s, {}, rs), RunAll(s, slots, rs));
    assert Flatten(rs) + [] == Flatten(rs);
  }

  /** Inside a nested message too, and there the enclosing message goes on right behind the zero:
      it reads the rest of the nested message as its own, and as many bytes are missing at its end. */
  lemma NestedZeroEnds(f: Field, was: Val, rs: seq<seq<byte>>, x: seq<byte>, y: seq<byte>)
    requires FieldDescribed(f) && FieldWellFormed(f) && f.ltype.TSubmessage? && ValTyped(f.ltype, f.dataSize, was)
    requires Readable(f.ltype.sub, was.slots, rs) && HasRequired(f.ltype.sub, rs)
    requires |Flatten(rs)| + 1 + |x| < U32
    ensures var e := Delimited(Flatten(rs) + ([0] + x));
            DecVal(f, e + y, was) == Done(Msg(RunAll(f.ltype.sub, was.slots, rs)), |e| - |x|, (x + y)[..|y|])
  {
    hide Readable, RunAll, MsgTyped, HasRequired, DecLoop, DecVal, DecLength, Flatten;
    var body := Flatten(rs) + ([0] + x);
    DelimitedRead(body, y);
    BehindZero(Flatten(rs), x, y);
    ZeroEnds(f.ltype.sub, was.slots, rs, x);
    SubmessageIs(f, Delimited(body) + y, was, |body|, body + y);
  }

  lemma BehindZero(a: seq<byte>, x: seq<byte>, y: seq<byte>)
    ensures var w, n := a + ([0] + x) + y, |a| + 1 + |x|;
            w[..n] == a + ([0] + x) && w[|a| + 1..|a| + 1 + |w| - n] == (x + y)[..|y|]
  {
    var w := a + ([0] + x) + y;
    assert w == a + [0] + (x + y);
    assert w[|a| + 1..] == x + y;
  }

  // ---- a key cut short by the end of the input ----

  /** Continuation bytes and nothing after them: up to five read as the end of the message. */
  lemma {:induction false} CutVarint(t: seq<byte>, bitpos: nat, acc: nat)
    requires forall i :: 0 <= i < |t| ==> t[i] >= 128
    requires bitpos % 7 == 0
    ensures DecodeFrom(t, 32, bitpos, acc).Bad?
    ensures DecodeFrom(t, 32, bitpos, acc).rest == [] <==> |t| <= (if bitpos >= 32 then 0 else 5 - bitpos / 7)
    decreases |t|
  {
    hide Low, Shl;
    if t != [] && bitpos < 32 {
      CutVarint(t[1..], bitpos + 7, acc + Low(Shl(t[0] % 128, bitpos), 32));
    }
  }

  /** The loop on such a key alone. */
  lemma LoopOnCut(s: Schema, it: nat, seen: set<nat>, slots: seq<Slot>, t: seq<byte>)
    requires Described(s) && MsgTyped(s, slots) && (|s.fields| > 0 ==> it < |s.fields|)
    requires t != [] && forall i :: 0 <= i < |t| ==> t[i] >= 128
    ensures DecLoop(s, it, seen, slots, t) == if |t| <= 5 then Finish(s, seen, slots, |t|, []) else Fail
  {
    hide MsgTyped, Described, AllRequired;
    CutVarint(t, 0, 0);
  }

  /** Whole records followed by a key that the end of the input cuts short: the decoder does not
      notice, up to five bytes of it. */
  lemma CutKeyIgnored(s: Schema, rs: seq<seq<byte>>, t: seq<byte>)
    requires WellFormed(s) && Readable(s, Defaults(s), rs)
    requires t != [] && forall i :: 0 <= i < |t| ==> t[i] >= 128
    ensures DecMsg(s, Flatten(rs) + t).Done? <==> |t| <= 5 && DecMsg(s, Flatten(rs)).Done?
    ensures DecMsg(s, Flatten(rs) + t).Done? ==>
              DecMsg(s, Flatten(rs) + t) == Done(DecMsg(s, Flatten(rs)).value, |Flatten(rs)| + |t|, [])
  {
    hide Readable, RunAll, MsgTyped, AllRequired, SeenAfter, ItAfter;
    LoopOnCut(s, ItAfter(s, 0, rs), SeenAfter(s, {}, rs), RunAll(s, Defaults(s), rs), t);
    LoopOverRecords(s, 0, {}, Defaults(s), rs, t);
    LoopOverRecords(s, 0, {}, Defaults(s), rs, []);
    assert Flatten(rs) + [] == Flatten(rs);
  }

  const UINT_FIELD := Field(1, TUVarint, Required, 0, 0, 4, 0, None)

  lemma UintSchema()
    ensures var s := Schema([UINT_FIELD]);
            && WellFormed(s) && Described(s) && FieldDescribed(UINT_FIELD) && Defaults(s) == [One(Int(0))]
            && Find(s.fields, 0, 1) == Some(0) && MsgTyped(s, [One(Int(5))]) && AllRequired(s, {0})
  {
    var s := Schema([UINT_FIELD]);
    assert s.fields[0] == UINT_FIELD && Defaults(s)[0] == One(Int(0));
    assert ReqCount(s.fields, 0) == 0 && ReqCount(s.fields, 1) == 1;
    FindUnique(s, 0, 0);
  }

  /** A message that such a key follows: field 1 is five, and the input is cut in the next key. */
  lemma CutKeyAccepted()
    ensures WellFormed(Schema([UINT_FIELD]))
    ensures DecMsg(Schema([UINT_FIELD]), [8, 5, 128]) == Done([One(Int(5))], 3, [])
  {
    hide WellFormed, Described, FieldDescribed, Defaults, Find, MsgTyped, AllRequired, DecodeFrom, Encode;
    var s := Schema([UINT_FIELD]);
    UintSchema();
    SmallKey();
    SmallValue();
    var before: seq<Slot>, none: set<nat> := [One(Int(0))], {};
    assert before[0 := One(Int(5))] == [One(Int(5))] && none + {0} == {0};
    LoopOnCut(s, 0, {0}, [One(Int(5))], [128]);
    assert DecLoop(s, 0, none, before, [8, 5, 128]) == Advance(2, DecLoop(s, 0, {0}, [One(Int(5))], [128]));
  }

  lemma SmallKey()
    ensures DecKey([8, 5, 128]) == KeyRead(0, 1, [5, 128])
  {
    KeyRoundTrip(1, 0, [5, 128]);
    assert Encode(8) == [8] && [8] + [5, 128] == [8, 5, 128];
  }

  lemma SmallValue()
    ensures DecSlot(UINT_FIELD, 0, [5, 128], One(Int(0))) == Done(One(Int(5)), 1, [128])
  {
    assert Encode(5) == [5] && [5] + [128] == [5, 128];
    RoundTrip64(5, [128]);
  }

  // ---- a record cut short ----

  function KeyLength(rec: seq<byte>): (n: nat)
    requires DecKey(rec).KeyRead?
    ensures 0 < n <= |rec|
  {
    |rec| - |DecKey(rec).rest|
  }

  /** All bytes of a varint but the last are continuation bytes. */
  lemma {:induction false} GotContinues(w: seq<byte>, width: nat, bitpos: nat, acc: nat)
    requires DecodeFrom(w, width, bitpos, acc).Got?
    ensures forall i :: 0 <= i < |w| - |DecodeFrom(w, width, bitpos, acc).rest| - 1 ==> w[i] >= 128
    ensures |w| - |DecodeFrom(w, width, bitpos, acc).rest| <= (width - bitpos + 6) / 7
    decreases |w|
  {
    hide Low, Shl;
    if w[0] >= 128 {
      var acc' := acc + Low(Shl(w[0] % 128, bitpos), width);
      GotContinues(w[1..], width, bitpos + 7, acc');
      assert forall i :: 1 <= i < |w| ==> w[i] == w[1..][i - 1];
    }
  }

  /** The key is there when the cut is behind it. */
  lemma KeyBeforeCut(rec: seq<byte>, n: nat)
    requires DecKey(rec).KeyRead? && KeyLength(rec) <= n <= |rec|
    ensures DecKey(rec[..n]) == DecKey(rec).(rest := DecKey(rec).rest[..n - KeyLength(rec)])
  {
    hide DecodeFrom;
    var k := KeyLength(rec);
    DecodePrefix(rec, 32, 0, 0);
    Decode32Extend(rec[..k], rec[k..n]);
    assert rec[..k] + rec[k..n] == rec[..n] && [] + rec[k..n] == rec[k..][..n - k];
  }

  lemma PayloadCut(f: Field, w: seq<byte>, n: nat, was: Val)
    requires FieldDescribed(f) && (f.ltype.TSubmessage? ==> ValTyped(f.ltype, f.dataSize, was))
    requires DecVal(f, w, was).Done? && DecVal(f, w, was).used == |w| && n < |w|
    ensures DecVal(f, w[..n], was).Fail?
  {
    hide DecVal, DecLength, DecLoop;
    var head, x := w[..n], w[n..];
    assert head + x == w;
    if DecVal(f, head, was).Done? {
      if f.ltype.TSubmessage? {
        LengthGot(f, head, was);
        LengthExtend(head, x);
        var size, rest := DecLength(head).value, DecLength(head).rest;
        SubmessageIs(f, w, was, size, rest + x);
      } else {
        ValExtend(f, head, x, was);
      }
    }
  }

  lemma SlotCut(f: Field, wt: nat, w: seq<byte>, n: nat, slot: Slot)
    requires FieldDescribed(f) && SlotTyped(f, slot)
    requires DecSlot(f, wt, w, slot).Done? && DecSlot(f, wt, w, slot).used == |w| && n < |w|
    ensures DecSlot(f, wt, w[..n], slot).Fail?
  {
    hide DecVal, DecLength, DecPacked, ValTyped, FieldDescribed;
    match slot
    case One(was) => PayloadCut(f, w, n, was);
    case Maybe(_, was) => PayloadCut(f, w, n, was);
    case Many(items) =>
      if wt == 2 && Packable(f.ltype) {
        assert w[..n] + w[n..] == w;
        if DecLength(w[..n]).Got? {
          LengthExtend(w[..n], w[n..]);
        }
      } else {
        PayloadCut(f, w, n, DefaultVal(f));
      }
  }

  lemma SkipCut(w: seq<byte>, wt: nat, n: nat)
    requires Skip(w, wt) == Some([]) && n < |w|
    ensures Skip(w[..n], wt).None?
  {
    hide Skip;
    assert w[..n] + w[n..] == w;
    if Skip(w[..n], wt).Some? {
      SkipExtend(w[..n], w[n..], wt);
    }
  }

  /** The loop at a record of which only a part is left, the key and more. */
  lemma LoopOnPart(s: Schema, it: nat, seen: set<nat>, slots: seq<Slot>, rec: seq<byte>, n: nat)
    requires WellFormed(s) && MsgTyped(s, slots) && (|s.fields| > 0 ==> it < |s.fields|)
    requires Whole(s, slots, rec) && KeyLength(rec) <= n < |rec|
    ensures DecLoop(s, it, seen, slots, rec[..n]).Fail?
  {
    hide DecLoop, DecKey, Find, Skip, DecSlot, FieldDescribed, FieldWellFormed;
    var k := DecKey(rec);
    KeyBeforeCut(rec, n);
    FindAnywhere(s, 0, it, k.tag);
    match Target(s, rec)
    case None =>
      SkipCut(k.rest, k.wt, n - KeyLength(rec));
      LoopSkips(s, it, seen, slots, rec[..n]);
    case Some(i) =>
      SlotCut(s.fields[i], k.wt, k.rest, n - KeyLength(rec), slots[i]);
      LoopTakes(s, it, seen, slots, rec[..n], i);
  }

  /** The record is skipped, or taken whole by its field. */
  predicate Whole(s: Schema, slots: seq<Slot>, rec: seq<byte>)
    requires Described(s) && MsgTyped(s, slots)
  {
    && DecKey(rec).KeyRead?
    && match Target(s, rec)
       case None => Skippable(s, rec)
       case Some(i) => RecordStep(s.fields[i], rec, slots[i]).Some?
  }

  /** Input that is cut inside a record: inside the payload it is refused; inside the key the
      decoder does not notice, and the message is what the records before it say. */
  lemma CutAnywhere(s: Schema, rs: seq<seq<byte>>, rec: seq<byte>, n: nat)
    requires WellFormed(s) && Readable(s, Defaults(s), rs)
    requires Whole(s, RunAll(s, Defaults(s), rs), rec) && n < |rec|
    ensures n >= KeyLength(rec) ==> DecMsg(s, Flatten(rs) + rec[..n]) == Fail
    ensures n < KeyLength(rec) ==> (DecMsg(s, Flatten(rs) + rec[..n]).Done? <==> DecMsg(s, Flatten(rs)).Done?)
    ensures n < KeyLength(rec) && DecMsg(s, Flatten(rs)).Done? ==>
              DecMsg(s, Flatten(rs) + rec[..n]) == Done(DecMsg(s, Flatten(rs)).value, |Flatten(rs)| + n, [])
  {
    hide Readable, RunAll, MsgTyped, AllRequired, SeenAfter, ItAfter, DecLoop, DecodeFrom, Skippable, RecordStep, Target;
    if n >= KeyLength(rec) {
      LoopOnPart(s, ItAfter(s, 0, rs), SeenAfter(s, {}, rs), RunAll(s, Defaults(s), rs), rec, n);
      LoopOverRecords(s, 0, {}, Defaults(s), rs, rec[..n]);
    } else if n > 0 {
      GotContinues(rec, 32, 0, 0);
      CutKeyIgnored(s, rs, rec[..n]);
      LoopOverRecords(s, 0, {}, Defaults(s), rs, []);
      LoopEmpty(s, ItAfter(s, 0, rs), SeenAfter(s, {}, rs), RunAll(s, Defaults(s), rs));
      assert Flatten(rs) + [] == Flatten(rs);
    } else {
      LoopOnMessage(s, Defaults(s), rs);
      assert Flatten(rs) + rec[..0] == Flatten(rs);
    }
  }
}
