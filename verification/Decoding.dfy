/**
 What pb_decode does with a window of input bytes (pb_decode.c), as a function.  `used` is how
 far the read pointer moved and `rest` what the stream may still deliver; closing a substream
 does not drain it, so `used + |rest|` can be smaller than the window was.
 */
module Decoding {
  import opened Words
  import opened Varint
  import opened Proto
  import opened Encoding

  datatype Dec<+T> = Done(value: T, used: nat, rest: seq<byte>) | Fail

  datatype KeyResult = KeyRead(wt: nat, tag: nat, rest: seq<byte>) | End(rest: seq<byte>) | BadKey

  /** pb_decode_tag: running out of bytes inside the key, or a zero key, ends the message. */
  function DecKey(w: seq<byte>): (r: KeyResult)
    ensures !r.BadKey? ==> |r.rest| <= |w|
    ensures r.KeyRead? ==> |r.rest| < |w| && r.wt < 8
  {
    match Decode32(w)
    case Bad(rest) => if rest == [] then End(rest) else BadKey
    case Got(k, rest) => if k == 0 then End(rest) else KeyRead(k % 8, k / 8, rest)
  }

  function SkipVarint(w: seq<byte>): (r: Option<seq<byte>>)
    ensures r.Some? ==> |r.value| <= |w|
  {
    if w == [] then None
    else if w[0] >= 128 then SkipVarint(w[1..])
    else Some(w[1..])
  }

  /** Reads a length and checks that that many bytes are there: pb_make_string_substream. */
  function DecLength(w: seq<byte>): (r: Read<nat>)
    ensures r.Got? ==> |r.rest| < |w| && r.value <= |r.rest|
  {
    match Decode32(w)
    case Bad(rest) => Bad(rest)
    case Got(n, rest) => if |rest| < n then Bad(rest) else Got(n, rest)
  }

  /** pb_skip_field */
  function Skip(w: seq<byte>, wt: nat): (r: Option<seq<byte>>)
    ensures r.Some? ==> |r.value| <= |w|
  {
    if wt == 0 then SkipVarint(w)
    else if wt == 1 then if |w| < 8 then None else Some(w[8..])
    else if wt == 2 then
      match DecLength(w)
      case Bad(_) => None
      case Got(n, rest) => Some(rest[n..])
    else if wt == 5 then if |w| < 4 then None else Some(w[4..])
    else None
  }

  /** The position after `k` steps of the cyclic iterator from `start`. */
  function Cyclic(n: nat, start: nat, k: nat): (i: nat)
    requires start < n && k <= n
    ensures i < n
  {
    if start + k < n then start + k else start + k - n
  }

  /** pb_field_iter_find with `k` positions already behind: the first match in cyclic order. */
  function FindFrom(fields: seq<Field>, start: nat, k: nat, tag: nat): (r: Option<nat>)
    requires |fields| > 0 ==> start < |fields|
    requires k <= |fields|
    ensures r.Some? ==> r.value < |fields| && fields[r.value].tag == tag
    decreases |fields| - k
  {
    if k == |fields| then None
    else if fields[Cyclic(|fields|, start, k)].tag == tag then Some(Cyclic(|fields|, start, k))
    else FindFrom(fields, start, k + 1, tag)
  }

  function Find(fields: seq<Field>, start: nat, tag: nat): (r: Option<nat>)
    requires |fields| > 0 ==> start < |fields|
    ensures r.Some? ==> r.value < |fields| && fields[r.value].tag == tag
  {
    FindFrom(fields, start, 0, tag)
  }

  /** The check at the end of pb_decode_noinit. */
  predicate AllRequired(s: Schema, seen: set<nat>) {
    forall i :: 0 <= i < |s.fields| && s.fields[i].htype.Required? ==> i in seen
  }

  /** The decoders of the types without fields of their own. */
  function DecScalar(f: Field, w: seq<byte>): (r: Dec<Val>)
    requires FieldDescribed(f) && !f.ltype.TSubmessage?
    ensures r.Done? ==> ValTyped(f.ltype, f.dataSize, r.value) && r.used > 0 && r.used + |r.rest| == |w|
  {
    match f.ltype
    case TVarint =>
      (match Decode64(w)
       case Bad(_) => Fail
       case Got(u, rest) =>
         if SizeOk(f.ltype, f.dataSize) then Done(Int(ToSigned(u, f.dataSize)), |w| - |rest|, rest) else Fail)
    case TUVarint =>
      (match Decode64(w)
       case Bad(_) => Fail
       case Got(u, rest) =>
         if SizeOk(f.ltype, f.dataSize) then Done(Int(u % Span(f.dataSize)), |w| - |rest|, rest) else Fail)
    case TSVarint =>
      (match Decode64(w)
       case Bad(_) => Fail
       case Got(u, rest) =>
         Decode64Range(w);
         if SizeOk(f.ltype, f.dataSize)
         then Done(Int(ToSigned(ToU64(UnZigZag(u)), f.dataSize)), |w| - |rest|, rest) else Fail)
    case TFixed32 => if |w| < 4 then Fail else Done(Raw(w[..4]), 4, w[4..])
    case TFixed64 => if |w| < 8 then Fail else Done(Raw(w[..8]), 8, w[8..])
    case TBytes =>
      (match Decode32(w)
       case Bad(_) => Fail
       case Got(n, rest) =>
         if n > 0xFFFF || n + 2 > f.dataSize || |rest| < n then Fail
         else Done(Blob(rest[..n]), |w| - |rest| + n, rest[n..]))
    case TString =>
      (match Decode32(w)
       case Bad(_) => Fail
       case Got(n, rest) =>
         if n + 1 > f.dataSize || |rest| < n then Fail
         else Done(Text(rest[..n]), |w| - |rest| + n, rest[n..]))
  }

  /** PB_DECODERS[ltype].  `was` is what the destination holds: only a submessage reads it. */
  function DecVal(f: Field, w: seq<byte>, was: Val): (r: Dec<Val>)
    requires FieldDescribed(f)
    requires f.ltype.TSubmessage? ==> ValTyped(f.ltype, f.dataSize, was)
    ensures r.Done? ==> ValTyped(f.ltype, f.dataSize, r.value)
    ensures r.Done? ==> r.used + |r.rest| <= |w| && r.used > 0
    ensures r.Done? && !f.ltype.TSubmessage? ==> r.used + |r.rest| == |w|
    decreases f, 0
  {
    if !f.ltype.TSubmessage? then DecScalar(f, w)
    else
      match DecLength(w)
      case Bad(_) => Fail
      case Got(n, rest) =>
        match DecLoop(f.ltype.sub, 0, {}, was.slots, rest[..n])
        case Fail => Fail
        case Done(slots, used, _) =>
          // the parent resumes where the substream's pointer stopped
          Done(Msg(slots), |w| - |rest| + used, rest[used..used + |rest| - n])
  }

  /** The loop over a packed array in decode_static_field. */
  function DecPacked(f: Field, w: seq<byte>, items: seq<Val>): (r: Option<seq<Val>>)
    requires FieldDescribed(f) && Packable(f.ltype)
    requires forall k :: 0 <= k < |items| ==> ValTyped(f.ltype, f.dataSize, items[k])
    ensures r.Some? ==> forall k :: 0 <= k < |r.value| ==> ValTyped(f.ltype, f.dataSize, r.value[k])
    decreases f, 1, |w|
  {
    if w == [] then Some(items)
    else if |items| >= f.arraySize then None
    else
      match DecVal(f, w, DefaultVal(f))
      case Fail => None
      case Done(v, _, rest) => DecPacked(f, rest, items + [v])
  }

  /** decode_static_field */
  function DecSlot(f: Field, wt: nat, w: seq<byte>, slot: Slot): (r: Dec<Slot>)
    requires FieldDescribed(f) && SlotTyped(f, slot)
    ensures r.Done? ==> SlotTyped(f, r.value) && r.used + |r.rest| <= |w|
    decreases f, 2
  {
    match slot
    case One(was) =>
      (match DecVal(f, w, was)
       case Fail => Fail
       case Done(v, used, rest) => Done(One(v), used, rest))
    case Maybe(_, was) =>
      (match DecVal(f, w, was)
       case Fail => Fail
       case Done(v, used, rest) => Done(Maybe(true, v), used, rest))
    case Many(items) =>
      if wt == 2 && Packable(f.ltype) then
        match DecLength(w)
        case Bad(_) => Fail
        case Got(n, rest) =>
          match DecPacked(f, rest[..n], items)
          case None => Fail
          case Some(items') => Done(Many(items'), |w| - |rest| + n, rest[n..])
      else if |items| >= f.arraySize then Fail
      else
        // a new entry starts from its defaults
        match DecVal(f, w, DefaultVal(f))
        case Fail => Fail
        case Done(v, used, rest) => Done(Many(items + [v]), used, rest)
  }

  function Advance<T>(n: nat, r: Dec<T>): Dec<T> {
    if r.Fail? then Fail else Done(r.value, n + r.used, r.rest)
  }

  function Finish(s: Schema, seen: set<nat>, slots: seq<Slot>, used: nat, rest: seq<byte>): Dec<seq<Slot>> {
    if AllRequired(s, seen) then Done(slots, used, rest) else Fail
  }

  /** The loop of pb_decode_noinit: `it` is the iterator's position, `seen` the required fields
      met so far.  In a message type without fields a zero tag matches the terminator, whose
      descriptor no decoder accepts. */
  function DecLoop(s: Schema, it: nat, seen: set<nat>, slots: seq<Slot>, w: seq<byte>): (r: Dec<seq<Slot>>)
    requires Described(s) && MsgTyped(s, slots)
    requires |s.fields| > 0 ==> it < |s.fields|
    ensures r.Done? ==> MsgTyped(s, r.value) && r.used + |r.rest| <= |w|
    decreases s, |w|
  {
    if w == [] then Finish(s, seen, slots, 0, w)
    else
      match DecKey(w)
      case End(rest) => Finish(s, seen, slots, |w| - |rest|, rest)
      case BadKey => Fail
      case KeyRead(wt, tag, rest) =>
        if s.fields == [] && tag == 0 then Fail
        else
          match Find(s.fields, it, tag)
          case None =>
            (match Skip(rest, wt)
             case None => Fail
             case Some(rest') => Advance(|w| - |rest'|, DecLoop(s, it, seen, slots, rest')))
          case Some(i) =>
            var seen' := if s.fields[i].htype.Required? then seen + {i} else seen;
            match DecSlot(s.fields[i], wt, rest, slots[i])
            case Fail => Fail
            case Done(slot, used, rest') =>
              Advance(|w| - |rest| + used, DecLoop(s, i, seen', slots[i := slot], rest'))
  }

  /** pb_decode */
  function DecMsg(s: Schema, w: seq<byte>): (r: Dec<seq<Slot>>)
    requires Described(s)
    ensures r.Done? ==> MsgTyped(s, r.value) && r.used + |r.rest| <= |w|
  {
    DecLoop(s, 0, {}, Defaults(s), w)
  }

  // ---- nested messages ----

  /** What a nested message of `n` bytes in front of `rest` is decoded to. */
  lemma SubmessageIs(f: Field, w: seq<byte>, was: Val, n: nat, rest: seq<byte>)
    requires FieldDescribed(f) && f.ltype.TSubmessage? && ValTyped(f.ltype, f.dataSize, was)
    requires DecLength(w) == Got(n, rest)
    ensures var r := DecLoop(f.ltype.sub, 0, {}, was.slots, rest[..n]);
            && (r.Fail? ==> DecVal(f, w, was) == Fail)
            && (r.Done? ==> DecVal(f, w, was)
                              == Done(Msg(r.value), |w| - |rest| + r.used, rest[r.used..r.used + |rest| - n]))
  {
    hide DecLength, DecLoop;
  }

  lemma LengthGot(f: Field, w: seq<byte>, was: Val)
    requires FieldDescribed(f)
    requires f.ltype.TSubmessage? && ValTyped(f.ltype, f.dataSize, was)
    ensures DecLength(w).Bad? ==> DecVal(f, w, was).Fail?
    ensures DecLength(w).Got? ==> DecLength(w).value <= |DecLength(w).rest|
  {
    hide DecLength, DecLoop;
  }

  // ---- the rounds of the loop in pb_decode_noinit ----

  lemma LoopEmpty(s: Schema, it: nat, seen: set<nat>, slots: seq<Slot>)
    requires Described(s) && MsgTyped(s, slots) && (|s.fields| > 0 ==> it < |s.fields|)
    ensures DecLoop(s, it, seen, slots, []) == Finish(s, seen, slots, 0, [])
  {
    hide Described, MsgTyped, AllRequired;
  }

  lemma LoopEnds(s: Schema, it: nat, seen: set<nat>, slots: seq<Slot>, w: seq<byte>)
    requires Described(s) && MsgTyped(s, slots) && (|s.fields| > 0 ==> it < |s.fields|)
    requires w != []
    ensures DecKey(w).End? ==> DecLoop(s, it, seen, slots, w) == Finish(s, seen, slots, |w| - |DecKey(w).rest|, DecKey(w).rest)
    ensures DecKey(w).BadKey? ==> DecLoop(s, it, seen, slots, w) == Fail
  {
    hide Described, MsgTyped, AllRequired, DecKey;
  }

  lemma LoopSkips(s: Schema, it: nat, seen: set<nat>, slots: seq<Slot>, w: seq<byte>)
    requires Described(s) && MsgTyped(s, slots) && (|s.fields| > 0 ==> it < |s.fields|)
    requires w != [] && DecKey(w).KeyRead? && Find(s.fields, it, DecKey(w).tag).None?
    ensures (s.fields == [] && DecKey(w).tag == 0) || Skip(DecKey(w).rest, DecKey(w).wt).None? ==>
              DecLoop(s, it, seen, slots, w) == Fail
    ensures !(s.fields == [] && DecKey(w).tag == 0) && Skip(DecKey(w).rest, DecKey(w).wt).Some? ==>
              DecLoop(s, it, seen, slots, w) == Advance(|w| - |Skip(DecKey(w).rest, DecKey(w).wt).value|,
                                                        DecLoop(s, it, seen, slots, Skip(DecKey(w).rest, DecKey(w).wt).value))
  {
    hide Described, MsgTyped, AllRequired, DecKey, Skip, Find;
  }

  lemma LoopTakes(s: Schema, it: nat, seen: set<nat>, slots: seq<Slot>, w: seq<byte>, i: nat)
    requires Described(s) && MsgTyped(s, slots) && it < |s.fields|
    requires w != [] && DecKey(w).KeyRead? && Find(s.fields, it, DecKey(w).tag) == Some(i)
    ensures var k := DecKey(w);
            TakesField(s, it, seen, slots, w, i, |w| - |k.rest|, DecSlot(s.fields[i], k.wt, k.rest, slots[i]))
  {
    hide AllRequired, DecKey, DecSlot;
  }

  /** What the outcome `r` of decoding field `i`, whose key took `n` bytes, means for the loop. */
  ghost predicate TakesField(s: Schema, it: nat, seen: set<nat>, slots: seq<Slot>, w: seq<byte>, i: nat, n: nat, r: Dec<Slot>)
    requires Described(s) && MsgTyped(s, slots) && it < |s.fields| && i < |s.fields|
    requires r.Done? ==> SlotTyped(s.fields[i], r.value)
  {
    DecLoop(s, it, seen, slots, w)
      == if r.Fail? then Fail
         else Advance(n + r.used,
                      DecLoop(s, i, if s.fields[i].htype.Required? then seen + {i} else seen, slots[i := r.value], r.rest))
  }
}
