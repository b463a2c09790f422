/**
 The bitmap of pb_decode_noinit that records which required fields were met, and its check.
 */
module RequiredBitmap {
  import opened Proto
  import opened FieldIterator

  /** `1 << k` in a byte. */
  function Bit(k: nat): (b: bv8)
    requires k < 8
  {
    if k == 0 then 0x01 else if k == 1 then 0x02 else if k == 2 then 0x04 else if k == 3 then 0x08
    else if k == 4 then 0x10 else if k == 5 then 0x20 else if k == 6 then 0x40 else 0x80
  }

  /** `0xFF >> (8 - k)` */
  function LowMask(k: nat): bv8
    requires k < 8
  {
    if k == 0 then 0x00 else if k == 1 then 0x01 else if k == 2 then 0x03 else if k == 3 then 0x07
    else if k == 4 then 0x0F else if k == 5 then 0x1F else if k == 6 then 0x3F else 0x7F
  }

  predicate HasBit(b: bv8, k: nat)
    requires k < 8
  {
    b & Bit(k) != 0
  }

  predicate IsSet(bits: seq<bv8>, r: nat)
    requires r < 8 * |bits|
  {
    HasBit(bits[r / 8], r % 8)
  }

  lemma SetBit(b: bv8, k: nat, j: nat)
    requires k < 8 && j < 8
    ensures HasBit(b | Bit(k), j) <==> j == k || HasBit(b, j)
  {
  }

  lemma FullByte(b: bv8)
    ensures b == 0xFF <==> forall k :: 0 <= k < 8 ==> HasBit(b, k)
  {
    if forall k :: 0 <= k < 8 ==> HasBit(b, k) {
      assert HasBit(b, 0) && HasBit(b, 1) && HasBit(b, 2) && HasBit(b, 3);
      assert HasBit(b, 4) && HasBit(b, 5) && HasBit(b, 6) && HasBit(b, 7);
    }
  }

  lemma PartialByte(b: bv8, n: nat)
    requires n < 8 && forall k :: n <= k < 8 ==> !HasBit(b, k)
    ensures b == LowMask(n) <==> forall k :: 0 <= k < n ==> HasBit(b, k)
  {
    assert 0 < n ==> (HasBit(LowMask(n), 0) && HasBit(LowMask(n), n - 1));
    if forall k :: 0 <= k < n ==> HasBit(b, k) {
      assert forall k :: 0 <= k < 8 ==> (HasBit(b, k) <==> k < n);
      assert HasBit(b, 0) == (0 < n) && HasBit(b, 1) == (1 < n) && HasBit(b, 2) == (2 < n) && HasBit(b, 3) == (3 < n);
      assert HasBit(b, 4) == (4 < n) && HasBit(b, 5) == (5 < n) && HasBit(b, 6) == (6 < n) && !HasBit(b, 7);
    }
  }

  /** `fields_seen[r >> 3] |= 1 << (r & 7)` */
  method MarkSeen(bits: array<bv8>, r: nat)
    requires bits.Length == 32 && r < 256
    modifies bits
    ensures forall q :: 0 <= q < 256 ==> (IsSet(bits[..], q) <==> q == r || old(IsSet(bits[..], q)))
  {
    bits[r / 8] := bits[r / 8] | Bit(r % 8);
    forall q | 0 <= q < 256 ensures IsSet(bits[..], q) <==> q == r || old(IsSet(bits[..], q)) {
      if q / 8 == r / 8 {
        SetBit(old(bits[r / 8]), r % 8, q % 8);
      }
    }
  }

  lemma BitOfByte(bits: seq<bv8>, i: nat, k: nat)
    requires i < |bits| && k < 8
    ensures IsSet(bits, 8 * i + k) <==> HasBit(bits[i], k)
  {
  }

  lemma FullAt(bits: seq<bv8>, i: nat)
    requires i < |bits|
    ensures bits[i] == 0xFF <==> forall q :: 8 * i <= q < 8 * i + 8 ==> IsSet(bits, q)
  {
    hide HasBit, IsSet;
    FullByte(bits[i]);
    forall k | 0 <= k < 8 ensures IsSet(bits, 8 * i + k) <==> HasBit(bits[i], k) {
      BitOfByte(bits, i, k);
    }
    forall q | 8 * i <= q < 8 * i + 8 ensures IsSet(bits, q) <==> HasBit(bits[i], q - 8 * i) {
      BitOfByte(bits, i, q - 8 * i);
    }
  }

  lemma PartialAt(bits: seq<bv8>, i: nat, n: nat)
    requires i < |bits| && n < 8 && forall q :: 8 * i + n <= q < 8 * i + 8 ==> !IsSet(bits, q)
    ensures bits[i] == LowMask(n) <==> forall q :: 8 * i <= q < 8 * i + n ==> IsSet(bits, q)
  {
    hide HasBit, IsSet, LowMask;
    forall k | 0 <= k < 8 ensures IsSet(bits, 8 * i + k) <==> HasBit(bits[i], k) {
      BitOfByte(bits, i, k);
    }
    PartialByte(bits[i], n);
    forall q | 8 * i <= q < 8 * i + n ensures IsSet(bits, q) <==> HasBit(bits[i], q - 8 * i) {
      BitOfByte(bits, i, q - 8 * i);
    }
  }

  /** The whole bytes, then the remaining bits: true exactly when the first `count` bits are set. */
  method AllSeen(bits: array<bv8>, count: nat) returns (ok: bool)
    requires bits.Length == 32 && count < 256
    requires forall q :: count <= q < 256 ==> !IsSet(bits[..], q)
    ensures ok <==> forall q :: 0 <= q < count ==> IsSet(bits[..], q)
  {
    hide HasBit, IsSet, LowMask;
    var i := 0;
    while i < count / 8
      invariant i <= count / 8
      invariant forall q :: 0 <= q < 8 * i ==> IsSet(bits[..], q)
    {
      FullAt(bits[..], i);
      if bits[i] != 0xFF {
        return false;
      }
      i := i + 1;
    }
    PartialAt(bits[..], count / 8, count % 8);
    ok := bits[count / 8] == LowMask(count % 8);
  }

  /** Every required-field index belongs to a required field. */
  lemma {:induction false} IndexHasField(fields: seq<Field>, n: nat, r: nat) returns (i: nat)
    requires n <= |fields| && r < ReqCount(fields, n)
    ensures i < n && fields[i].htype.Required? && ReqCount(fields, i) == r
  {
    if fields[n - 1].htype.Required? && ReqCount(fields, n - 1) == r {
      i := n - 1;
    } else {
      i := IndexHasField(fields, n - 1, r);
    }
  }

  /** The bitmap stands for a set of fields: bit ReqCount(i) for required field i. */
  ghost predicate Represents(fields: seq<Field>, bits: seq<bv8>, seen: set<nat>)
    requires |bits| == 32 && ReqCount(fields, |fields|) < 256
  {
    && (forall i :: 0 <= i < |fields| && fields[i].htype.Required? ==> (SeenAt(fields, bits, i) <==> i in seen))
    && forall q :: ReqCount(fields, |fields|) <= q < 256 ==> !IsSet(bits, q)
  }

  ghost predicate SeenAt(fields: seq<Field>, bits: seq<bv8>, i: nat)
    requires |bits| == 32 && ReqCount(fields, |fields|) < 256 && i < |fields|
  {
    ReqCountMonotone(fields, i, |fields|);
    IsSet(bits, ReqCount(fields, i))
  }

  lemma MarkRepresents(fields: seq<Field>, bits: seq<bv8>, bits': seq<bv8>, seen: set<nat>, i: nat)
    requires |bits| == |bits'| == 32 && ReqCount(fields, |fields|) < 256
    requires i < |fields| && fields[i].htype.Required?
    requires Represents(fields, bits, seen)
    requires forall q :: 0 <= q < 256 ==> (IsSet(bits', q) <==> q == ReqCount(fields, i) || IsSet(bits, q))
    ensures Represents(fields, bits', seen + {i})
  {
    ReqCountMonotone(fields, i, |fields|);
    forall j | 0 <= j < |fields| && fields[j].htype.Required?
      ensures SeenAt(fields, bits', j) <==> j in seen + {i}
    {
      ReqCountMonotone(fields, j, |fields|);
      if i < j {
        ReqCountMonotone(fields, i, j);
      } else if j < i {
        ReqCountMonotone(fields, j, i);
      }
      assert SeenAt(fields, bits, j) <==> j in seen;
    }
  }

  /** All bits are set exactly when all required fields are in the set. */
  lemma FullRepresents(fields: seq<Field>, bits: seq<bv8>, seen: set<nat>)
    requires |bits| == 32 && ReqCount(fields, |fields|) < 256
    requires Represents(fields, bits, seen)
    ensures (forall q :: 0 <= q < ReqCount(fields, |fields|) ==> IsSet(bits, q))
       <==> forall i :: 0 <= i < |fields| && fields[i].htype.Required? ==> i in seen
  {
    if forall i :: 0 <= i < |fields| && fields[i].htype.Required? ==> i in seen {
      forall q | 0 <= q < ReqCount(fields, |fields|) ensures IsSet(bits, q) {
        var i := IndexHasField(fields, |fields|, q);
        assert SeenAt(fields, bits, i);
      }
    }
    if forall q :: 0 <= q < ReqCount(fields, |fields|) ==> IsSet(bits, q) {
      forall i | 0 <= i < |fields| && fields[i].htype.Required? ensures i in seen {
        ReqCountMonotone(fields, i, |fields|);
        assert SeenAt(fields, bits, i);
      }
    }
  }
}
