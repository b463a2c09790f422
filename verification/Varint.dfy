/**
 Base-128 varints and zigzag integers of nanopb (pb_encode.c, pb_decode.c), as functions on
 byte sequences.  A read takes the window of bytes that the stream may still deliver.
 */
module Varint {

  import opened Words

  /** Outcome of reading from a window: what is left of it, and the value on success. */
  datatype Read<+T> = Got(value: T, rest: seq<byte>) | Bad(rest: seq<byte>)

  const U32: nat := 0x1_0000_0000
  const U64: nat := 0x1_0000_0000_0000_0000

  // ---- machine words ----

  function Pow2(n: nat): (p: nat)
    ensures p >= 1
  {
    if n == 0 then 1 else 2 * Pow2(n - 1)
  }

  /** `d << k`. */
  function Shl(d: nat, k: nat): nat {
    if k == 0 then d else 2 * Shl(d, k - 1)
  }

  /** The low `n` bits of `x`: what a cast to an n-bit unsigned type keeps. */
  function Low(x: nat, n: nat): nat {
    if n == 0 then 0 else x % 2 + 2 * Low(x / 2, n - 1)
  }

  lemma {:induction false} ShlAdd(a: nat, b: nat, k: nat)
    ensures Shl(a + b, k) == Shl(a, k) + Shl(b, k)
  {
    if k > 0 {
      ShlAdd(a, b, k - 1);
    }
  }

  lemma {:induction false} ShlShl(d: nat, j: nat, k: nat)
    ensures Shl(Shl(d, j), k) == Shl(d, j + k)
  {
    if k > 0 {
      ShlShl(d, j, k - 1);
    }
  }

  lemma {:induction false} ShlMonotone(a: nat, b: nat, k: nat)
    requires a <= b
    ensures Shl(a, k) <= Shl(b, k)
  {
    if k > 0 {
      ShlMonotone(a, b, k - 1);
    }
  }

  lemma Shl7(d: nat)
    ensures Shl(d, 7) == 128 * d
  {
    assert Shl(d, 1) == 2 * d;
    assert Shl(d, 2) == 4 * d;
    assert Shl(d, 3) == 8 * d;
    assert Shl(d, 4) == 16 * d;
    assert Shl(d, 5) == 32 * d;
    assert Shl(d, 6) == 64 * d;
  }

  lemma {:induction false} Pow2IsShl(k: nat)
    ensures Pow2(k) == Shl(1, k)
  {
    if k > 0 {
      Pow2IsShl(k - 1);
    }
  }

  lemma {:induction false} Pow2Monotone(a: nat, b: nat)
    requires a <= b
    ensures Pow2(a) <= Pow2(b)
    decreases b - a
  {
    if a < b {
      Pow2Monotone(a + 1, b);
    }
  }

  lemma Pow2Seven(k: nat)
    ensures Pow2(k + 7) == 128 * Pow2(k)
  {
    Pow2IsShl(k);
    Pow2IsShl(k + 7);
    ShlShl(1, k, 7);
    Shl7(Shl(1, k));
  }

  lemma Pow2Values()
    ensures Pow2(7) == 128 && Pow2(8) == 256 && Pow2(16) == 0x1_0000
    ensures Pow2(32) == U32 && Pow2(64) == U64
  {
    assert Pow2(1) == 2;
    Pow2Seven(0);
    Pow2Seven(1);
    Pow2Seven(2);
    Pow2Seven(9);
    Pow2Seven(4);
    Pow2Seven(11);
    Pow2Seven(18);
    Pow2Seven(25);
    assert Pow2(4) == 2 * Pow2(3) == 4 * Pow2(2);
    assert Pow2(32) == U32;
    Pow2Seven(32);
    Pow2Seven(39);
    Pow2Seven(46);
    Pow2Seven(53);
    assert Pow2(64) == 2 * Pow2(63) == 4 * Pow2(62) == 8 * Pow2(61) == 16 * Pow2(60);
  }

  lemma {:induction false} LowBound(x: nat, n: nat)
    ensures Low(x, n) < Pow2(n) && Low(x, n) <= x
  {
    if n > 0 {
      LowBound(x / 2, n - 1);
    }
  }

  lemma {:induction false} LowSmall(x: nat, n: nat)
    requires x < Pow2(n)
    ensures Low(x, n) == x
  {
    if n > 0 {
      LowSmall(x / 2, n - 1);
    }
  }

  lemma LowBit(x: nat, n: nat)
    requires n > 0
    ensures Low(x, n) == x % 2 + 2 * Low(x / 2, n - 1)
    ensures Low(x, n) / 2 == Low(x / 2, n - 1) && Low(x, n) % 2 == x % 2
  {
  }

  lemma {:induction false} LowLow(x: nat, m: nat, n: nat)
    requires n <= m
    ensures Low(Low(x, m), n) == Low(x, n)
  {
    if n > 0 {
      LowLow(x / 2, m - 1, n - 1);
      LowBit(x, m);
      LowBit(x, n);
      LowBit(Low(x, m), n);
    }
  }

  lemma EvenAdd(a: nat, y: nat)
    ensures (a + 2 * y) / 2 == a / 2 + y && (a + 2 * y) % 2 == a % 2
    ensures 2 * y / 2 == y && 2 * y % 2 == 0
  {
  }

  lemma BelowBit(a: nat, d: nat, k: nat)
    requires a < Pow2(k)
    ensures k == 0 ==> a == 0
    ensures k > 0 ==> a / 2 < Pow2(k - 1) && Shl(d, k) == 2 * Shl(d, k - 1)
  {
  }

  lemma LowNone(x: nat)
    ensures Low(x, 0) == 0
  {
  }

  /** Bits below `k` and a word shifted up by `k` do not meet: their union is their sum. */
  lemma {:induction false} LowDisjoint(a: nat, d: nat, k: nat, n: nat)
    requires a < Pow2(k)
    ensures Low(a + Shl(d, k), n) == Low(a, n) + Low(Shl(d, k), n)
  {
    hide Low, Shl, Pow2;
    BelowBit(a, d, k);
    LowNone(a);
    LowNone(Shl(d, k));
    LowNone(a + Shl(d, k));
    if k == 0 {
      LowSmall(0, n);
    } else if n > 0 {
      LowDisjoint(a / 2, d, k - 1, n - 1);
      EvenAdd(a, Shl(d, k - 1));
      LowBit(a + Shl(d, k), n);
      LowBit(a, n);
      LowBit(Shl(d, k), n);
    }
  }

  lemma MulOrder(a: nat, b: nat, p: nat)
    requires a <= b
    ensures a * p <= b * p
  {
    assert (b - a) * p >= 0;
    assert b * p == a * p + (b - a) * p;
  }

  /** Euclidean division has only one answer. */
  lemma DivModUnique(a: nat, m: nat, q: nat, r: nat)
    requires r < m && a == q * m + r
    ensures a / m == q && a % m == r
  {
    var q0 := a / m;
    assert a == q0 * m + a % m;
    assert (q0 + 1) * m == q0 * m + m;
    assert (q + 1) * m == q * m + m;
    if q > q0 {
      MulOrder(q0 + 1, q, m);
    } else if q < q0 {
      MulOrder(q + 1, q0, m);
    }
  }

  lemma {:induction false} LowDivides(x: nat, n: nat) returns (q: nat)
    ensures x == q * Pow2(n) + Low(x, n)
  {
    if n == 0 {
      q := x;
    } else {
      q := LowDivides(x / 2, n - 1);
      assert q * (2 * Pow2(n - 1)) == 2 * (q * Pow2(n - 1));
    }
  }

  lemma LowIsMod(x: nat, n: nat)
    ensures Low(x, n) == x % Pow2(n)
  {
    var q := LowDivides(x, n);
    LowBound(x, n);
    DivModUnique(x, Pow2(n), q, Low(x, n));
  }

  // ---- varints ----

  /** The bytes written for `v`: seven bits a byte, least significant first, the top bit set
      on every byte but the last. */
  function Encode(v: nat): (e: seq<byte>)
    ensures 1 <= |e|
  {
    if v < 128 then [v] else [v % 128 + 128] + Encode(v / 128)
  }

  /** Reads a varint into a `width`-bit register that already holds `acc` below bit `bitpos`.
      `acc` lies below bit `bitpos` and the shifted byte has no bits there, so the `|=` of the
      code is an addition; bits shifted out of the register are lost. */
  function DecodeFrom(w: seq<byte>, width: nat, bitpos: nat, acc: nat): (r: Read<nat>)
    ensures |r.rest| <= |w|
    ensures r.Got? ==> |r.rest| < |w|
    decreases |w|
  {
    if bitpos >= width then Bad(w)
    else if w == [] then Bad(w)
    else
      var acc' := acc + Low(Shl(w[0] % 128, bitpos), width);
      if w[0] >= 128 then DecodeFrom(w[1..], width, bitpos + 7, acc')
      else Got(acc', w[1..])
  }

  /** pb_decode_varint */
  function Decode64(w: seq<byte>): (r: Read<nat>)
    ensures |r.rest| <= |w|
    ensures r.Got? ==> |r.rest| < |w|
  {
    DecodeFrom(w, 64, 0, 0)
  }

  /** pb_decode_varint32 */
  function Decode32(w: seq<byte>): (r: Read<nat>)
    ensures |r.rest| <= |w|
    ensures r.Got? ==> |r.rest| < |w|
  {
    DecodeFrom(w, 32, 0, 0)
  }

  // ---- round trip ----

  lemma EncodeTail(v: nat, x: seq<byte>)
    ensures Encode(v)[0] % 128 == v % 128
    ensures Encode(v) + x != [] && (Encode(v) + x)[0] == Encode(v)[0]
    ensures if v < 128 then Encode(v)[0] < 128 && (Encode(v) + x)[1..] == x
            else Encode(v)[0] >= 128 && (Encode(v) + x)[1..] == Encode(v / 128) + x
  {
    HeadTail(Encode(v), x);
    if v < 128 {
      assert Encode(v)[1..] + x == x;
    } else {
      assert Encode(v)[1..] == Encode(v / 128);
    }
  }

  lemma {:induction false} DecodeFromEncode(v: nat, x: seq<byte>, width: nat, bitpos: nat, acc: nat)
    requires bitpos < width && Shl(v, bitpos) < Pow2(width)
    ensures DecodeFrom(Encode(v) + x, width, bitpos, acc) == Got(acc + Shl(v, bitpos), x)
    decreases v
  {
    hide Encode, Shl, Low, Pow2;
    EncodeTail(v, x);
    var d, q := v % 128, v / 128;
    ShlDigit(v, bitpos);
    LowSmall(Shl(d, bitpos), width);
    if v >= 128 {
      DigitFits(q, width, bitpos + 7);
      DecodeFromEncode(q, x, width, bitpos + 7, acc + Shl(d, bitpos));
    }
  }

  /** The lowest digit of a shifted number, and the others. */
  lemma ShlDigit(v: nat, bitpos: nat)
    ensures Shl(v, bitpos) == Shl(v % 128, bitpos) + Shl(v / 128, bitpos + 7)
    ensures v < 128 ==> v % 128 == v
  {
    hide Shl;
    Shl7(v / 128);
    ShlAdd(v % 128, Shl(v / 128, 7), bitpos);
    ShlShl(v / 128, 7, bitpos);
  }

  lemma DigitFits(q: nat, width: nat, bitpos: nat)
    requires q > 0 && Shl(q, bitpos) < Pow2(width)
    ensures bitpos < width
  {
    hide Shl, Pow2;
    if bitpos >= width {
      ShlMonotone(1, q, bitpos);
      Pow2IsShl(bitpos);
      Pow2Monotone(width, bitpos);
    }
  }

  /** Every uint64 survives pb_encode_varint followed by pb_decode_varint, whatever follows it. */
  lemma RoundTrip64(v: nat, x: seq<byte>)
    requires v < U64
    ensures Decode64(Encode(v) + x) == Got(v, x)
  {
    Pow2Values();
    DecodeFromEncode(v, x, 64, 0, 0);
  }

  /** Every uint32 survives pb_encode_varint followed by pb_decode_varint32. */
  lemma RoundTrip32(v: nat, x: seq<byte>)
    requires v < U32
    ensures Decode32(Encode(v) + x) == Got(v, x)
  {
    Pow2Values();
    DecodeFromEncode(v, x, 32, 0, 0);
  }

  /** A value takes `k` bytes or fewer if and only if it has seven times as many bits or fewer. */
  lemma {:induction false} EncodeLength(v: nat, k: nat)
    requires 0 < k
    ensures |Encode(v)| <= k <==> v < Pow2(7 * k)
  {
    hide Pow2;
    Pow2Values();
    Pow2Monotone(7, 7 * k);
    if v >= 128 && k > 1 {
      Pow2Seven(7 * (k - 1));
      EncodeLength(v / 128, k - 1);
    }
  }

  /** A negative number takes ten bytes, whatever the size of its type. */
  lemma NegativeLength(n: int)
    requires InSigned(n, 8) && n < 0
    ensures |Encode(ToU64(n))| == 10
  {
    hide Encode, Pow2;
    Pow2Values();
    EncodedSize(ToU64(n));
    EncodeLength(ToU64(n), 9);
    Pow2Next(63);
  }

  lemma Pow2Next(n: nat)
    ensures Pow2(n + 1) == 2 * Pow2(n)
  {
  }

  /** The 10-byte buffer of pb_encode_varint is large enough for every uint64, and 5 bytes for
      every uint32. */
  lemma EncodedSize(v: nat)
    requires v < U64
    ensures 1 <= |Encode(v)| <= 10
    ensures v < U32 ==> |Encode(v)| <= 5
  {
    Pow2Values();
    Pow2Monotone(64, 70);
    EncodeLength(v, 10);
    if v < U32 {
      Pow2Monotone(32, 35);
      EncodeLength(v, 5);
    }
  }

  // ---- the 32-bit reader against the 64-bit one ----

  /** A seven-bit digit shifted to `bitpos` leaves the bits below it alone and stays in the register. */
  lemma DigitInRange(d: nat, width: nat, bitpos: nat, acc: nat)
    requires d < 128 && acc < Pow2(bitpos) && acc < Pow2(width)
    ensures acc + Low(Shl(d, bitpos), width) == Low(acc + Shl(d, bitpos), width)
    ensures acc + Low(Shl(d, bitpos), width) < Pow2(width)
    ensures acc + Low(Shl(d, bitpos), width) < Pow2(bitpos + 7)
  {
    hide Low, Shl, Pow2;
    LowDisjoint(acc, d, bitpos, width);
    LowSmall(acc, width);
    LowBound(acc + Shl(d, bitpos), width);
    LowBound(Shl(d, bitpos), width);
    ShlMonotone(d, 127, bitpos);
    Shl7(1);
    ShlAdd(127, 1, bitpos);
    ShlShl(1, 7, bitpos);
    Pow2IsShl(bitpos);
    Pow2IsShl(bitpos + 7);
  }

  /** A narrow register accepts a varint only if a wider one does, and holds its low bits. */
  lemma {:induction false} Agree(w: seq<byte>, n: nat, m: nat, bitpos: nat, narrow: nat, wide: nat)
    requires n <= m && wide < Pow2(bitpos) && wide < Pow2(m) && narrow == Low(wide, n)
    requires DecodeFrom(w, n, bitpos, narrow).Got?
    ensures DecodeFrom(w, m, bitpos, wide).Got?
    ensures DecodeFrom(w, m, bitpos, wide).rest == DecodeFrom(w, n, bitpos, narrow).rest
    ensures DecodeFrom(w, n, bitpos, narrow).value == Low(DecodeFrom(w, m, bitpos, wide).value, n)
    decreases |w|
  {
    var d := w[0] % 128;
    AgreeDigit(d, n, m, bitpos, wide);
    if w[0] >= 128 {
      Agree(w[1..], n, m, bitpos + 7, narrow + Low(Shl(d, bitpos), n), wide + Low(Shl(d, bitpos), m));
    }
  }

  lemma AgreeDigit(d: nat, n: nat, m: nat, bitpos: nat, wide: nat)
    requires n <= m && d < 128 && wide < Pow2(bitpos) && wide < Pow2(m)
    ensures Low(wide, n) + Low(Shl(d, bitpos), n) == Low(wide + Low(Shl(d, bitpos), m), n)
    ensures wide + Low(Shl(d, bitpos), m) < Pow2(m)
    ensures wide + Low(Shl(d, bitpos), m) < Pow2(bitpos + 7)
  {
    hide Low, Shl, Pow2;
    DigitInRange(d, m, bitpos, wide);
    LowLow(wide + Shl(d, bitpos), m, n);
    LowDisjoint(wide, d, bitpos, n);
  }

  /** Whenever pb_decode_varint32 accepts, pb_decode_varint accepts too, consumes the same bytes
      and returns a value that agrees modulo 2^32. */
  lemma Decode32AgreesWith64(w: seq<byte>)
    requires Decode32(w).Got?
    ensures Decode64(w).Got? && Decode64(w).rest == Decode32(w).rest
    ensures Decode32(w).value == Decode64(w).value % U32
  {
    LowSmall(0, 32);
    Agree(w, 32, 64, 0, 0, 0);
    LowIsMod(Decode64(w).value, 32);
    Pow2Values();
  }

  lemma {:induction false} DecodeRange(w: seq<byte>, width: nat, bitpos: nat, acc: nat)
    requires acc < Pow2(bitpos) && acc < Pow2(width)
    requires DecodeFrom(w, width, bitpos, acc).Got?
    ensures DecodeFrom(w, width, bitpos, acc).value < Pow2(width)
    decreases |w|
  {
    var d := w[0] % 128;
    DigitInRange(d, width, bitpos, acc);
    if w[0] >= 128 {
      DecodeRange(w[1..], width, bitpos + 7, acc + Low(Shl(d, bitpos), width));
    }
  }

  lemma Decode64Range(w: seq<byte>)
    requires Decode64(w).Got?
    ensures Decode64(w).value < U64
  {
    Pow2Values();
    DecodeRange(w, 64, 0, 0);
  }

  lemma Decode32Range(w: seq<byte>)
    requires Decode32(w).Got?
    ensures Decode32(w).value < U32
  {
    Pow2Values();
    DecodeRange(w, 32, 0, 0);
  }

  /** A successful read does not depend on what follows the bytes it took. */
  lemma {:induction false} DecodeExtend(w: seq<byte>, x: seq<byte>, width: nat, bitpos: nat, acc: nat)
    requires DecodeFrom(w, width, bitpos, acc).Got?
    ensures DecodeFrom(w + x, width, bitpos, acc)
         == Got(DecodeFrom(w, width, bitpos, acc).value, DecodeFrom(w, width, bitpos, acc).rest + x)
    decreases |w|
  {
    var acc' := acc + Low(Shl(w[0] % 128, bitpos), width);
    HeadTail(w, x);
    if w[0] >= 128 {
      DecodeExtend(w[1..], x, width, bitpos + 7, acc');
    }
  }

  /** The bytes it took read as the same value on their own. */
  lemma {:induction false} DecodePrefix(w: seq<byte>, width: nat, bitpos: nat, acc: nat)
    requires DecodeFrom(w, width, bitpos, acc).Got?
    ensures var r := DecodeFrom(w, width, bitpos, acc);
            w[|w| - |r.rest|..] == r.rest && DecodeFrom(w[..|w| - |r.rest|], width, bitpos, acc) == Got(r.value, [])
    decreases |w|
  {
    var acc' := acc + Low(Shl(w[0] % 128, bitpos), width);
    if w[0] >= 128 {
      DecodePrefix(w[1..], width, bitpos + 7, acc');
      PrefixTail(w, |w| - |DecodeFrom(w, width, bitpos, acc).rest|);
    }
  }

  lemma PrefixTail(w: seq<byte>, n: nat)
    requires 0 < n <= |w|
    ensures w[..n][0] == w[0] && w[..n][1..] == w[1..][..n - 1] && w[n..] == w[1..][n - 1..]
  {
  }

  lemma HeadTail(w: seq<byte>, x: seq<byte>)
    requires w != []
    ensures w + x != [] && (w + x)[0] == w[0] && (w + x)[1..] == w[1..] + x
  {
  }

  // ---- what the bytes mean ----

  /** A varint as it stands on the wire: the top bit is set on every byte but the last.  It need
      not be as short as possible. */
  predicate OneVarint(b: seq<byte>) {
    b != [] && b[|b| - 1] < 128 && forall i :: 0 <= i < |b| - 1 ==> b[i] >= 128
  }

  /** Its value: the low seven bits of each byte are a digit, the least significant first. */
  function Base128(b: seq<byte>): nat {
    if b == [] then 0 else b[0] % 128 + 128 * Base128(b[1..])
  }

  lemma VarintTail(b: seq<byte>)
    requires OneVarint(b)
    ensures b != [] && if b[0] < 128 then b[1..] == [] else |b| > 1 && OneVarint(b[1..])
  {
    if b[0] >= 128 {
      assert forall i :: 0 <= i < |b| - 2 ==> b[1..][i] == b[i + 1];
    }
  }

  lemma VarintCons(c: byte, t: seq<byte>)
    requires c >= 128 && OneVarint(t)
    ensures var b := [c] + t;
            OneVarint(b) && Base128(b) == c % 128 + 128 * Base128(t) && b[|b| - 1] == t[|t| - 1]
  {
    hide Base128;
    var b := [c] + t;
    assert forall i :: 1 <= i < |b| ==> b[i] == t[i - 1];
    Base128Cons(c, t);
  }

  lemma Base128Cons(c: byte, t: seq<byte>)
    ensures Base128([c] + t) == c % 128 + 128 * Base128(t)
  {
    assert ([c] + t)[1..] == t;
  }

  /** pb_encode_varint writes the shortest varint with that value. */
  lemma {:induction false} EncodeFormat(v: nat)
    ensures OneVarint(Encode(v)) && Base128(Encode(v)) == v
    ensures v > 0 ==> Encode(v)[|Encode(v)| - 1] != 0
    decreases v
  {
    hide Base128, OneVarint;
    if v >= 128 {
      EncodeFormat(v / 128);
      VarintCons(v % 128 + 128, Encode(v / 128));
    } else {
      SingleDigit(v);
    }
  }

  lemma SingleDigit(c: byte)
    requires c < 128
    ensures OneVarint([c]) && Base128([c]) == c
  {
    Base128Cons(c, []);
    assert [c] + [] == [c];
  }

  /** One more digit in a register. */
  lemma DigitStep(d: nat, q: nat, width: nat, bitpos: nat, acc: nat)
    requires d < 128 && acc < Pow2(bitpos) && acc < Pow2(width)
    ensures var acc' := acc + Low(Shl(d, bitpos), width);
            && acc' < Pow2(width) && acc' < Pow2(bitpos + 7) && acc' == Low(acc + Shl(d, bitpos), width)
            && Low(acc' + Shl(q, bitpos + 7), width) == Low(acc + Shl(d + 128 * q, bitpos), width)
  {
    hide Low, Shl, Pow2;
    var sum := acc + Shl(d, bitpos);
    DigitInRange(d, width, bitpos, acc);
    DigitsBelow(d, bitpos, acc);
    Shl7(q);
    ShlShl(q, 7, bitpos);
    ShlAdd(d, 128 * q, bitpos);
    LowDisjoint(sum, q, bitpos + 7, width);
    LowDisjoint(Low(sum, width), q, bitpos + 7, width);
    LowLow(sum, width, width);
  }

  lemma DigitsBelow(d: nat, bitpos: nat, acc: nat)
    requires d < 128 && acc < Pow2(bitpos)
    ensures acc + Shl(d, bitpos) < Pow2(bitpos + 7)
  {
    hide Shl, Pow2;
    ShlMonotone(d, 127, bitpos);
    Shl7(1);
    ShlAdd(127, 1, bitpos);
    ShlShl(1, 7, bitpos);
    Pow2IsShl(bitpos);
    Pow2IsShl(bitpos + 7);
  }

  /** Any varint read into a register of `width` bits: it is accepted if its last byte starts
      inside the register, and its value is cut to the register. */
  lemma {:induction false} VarintRead(b: seq<byte>, x: seq<byte>, width: nat, bitpos: nat, acc: nat)
    requires OneVarint(b) && acc < Pow2(bitpos) && acc < Pow2(width)
    ensures if bitpos + 7 * (|b| - 1) < width
            then DecodeFrom(b + x, width, bitpos, acc) == Got(Low(acc + Shl(Base128(b), bitpos), width), x)
            else DecodeFrom(b + x, width, bitpos, acc).Bad?
    decreases |b|
  {
    hide Low, Shl, Pow2, OneVarint;
    VarintTail(b);
    HeadTail(b, x);
    var d, q := b[0] % 128, Base128(b[1..]);
    DigitStep(d, q, width, bitpos, acc);
    if b[0] >= 128 {
      VarintRead(b[1..], x, width, bitpos + 7, acc + Low(Shl(d, bitpos), width));
    } else {
      assert [] + x == x;
    }
  }

  /** pb_decode_varint on any varint: up to ten bytes, cut to 64 bits. */
  lemma Meaning64(b: seq<byte>, x: seq<byte>)
    requires OneVarint(b)
    ensures if |b| <= 10 then Decode64(b + x) == Got(Base128(b) % U64, x) else Decode64(b + x).Bad?
  {
    hide Low, OneVarint, DecodeFrom;
    Pow2Values();
    VarintRead(b, x, 64, 0, 0);
    LowIsMod(Base128(b), 64);
  }

  /** pb_decode_varint32 on any varint: up to five bytes, cut to 32 bits. */
  lemma Meaning32(b: seq<byte>, x: seq<byte>)
    requires OneVarint(b)
    ensures if |b| <= 5 then Decode32(b + x) == Got(Base128(b) % U32, x) else Decode32(b + x).Bad?
  {
    hide Low, OneVarint, DecodeFrom;
    Pow2Values();
    VarintRead(b, x, 32, 0, 0);
    LowIsMod(Base128(b), 32);
  }

  // ---- two's complement and zigzag ----

  /** The C integer types have 1, 2, 4 or 8 bytes. */
  type IntSize = n: nat | n in {1, 2, 4, 8} witness 1

  /** The number of values of an integer type of `size` bytes. */
  function Span(size: IntSize): nat {
    if size == 1 then 0x100 else if size == 2 then 0x1_0000 else if size == 4 then U32 else U64
  }

  predicate InSigned(v: int, size: IntSize) {
    -(Span(size) as int) <= 2 * v < Span(size)
  }

  /** Sign extension to int64 followed by the cast to uint64. */
  function ToU64(v: int): (u: nat)
    ensures u < U64
  {
    v % U64
  }

  /** The cast of `u` to the signed type of `size` bytes. */
  function ToSigned(u: nat, size: IntSize): int {
    var m := u % Span(size);
    if 2 * m >= Span(size) then m - Span(size) else m
  }

  /** pb_encode_svarint: the complement of the doubled word for a negative value. */
  function ZigZag(v: int): (z: nat)
    ensures z < U64
  {
    var doubled := 2 * ToU64(v) % U64;
    if v < 0 then U64 - 1 - doubled else doubled
  }

  /** pb_decode_svarint: `~(u >> 1)` for an odd word, read as int64. */
  function UnZigZag(u: nat): int
    requires u < U64
  {
    if u % 2 == 1 then ToSigned(U64 - 1 - u / 2, 8) else ToSigned(u / 2, 8)
  }

  lemma ZigZagValue(v: int)
    requires InSigned(v, 8)
    ensures ZigZag(v) == if v < 0 then -2 * v - 1 else 2 * v
  {
    if v < 0 {
      assert ToU64(v) == v + U64;
      assert 2 * ToU64(v) == 2 * v + U64 + U64;
    }
  }

  lemma UnZigZagValue(u: nat)
    requires u < U64
    ensures UnZigZag(u) == if u % 2 == 1 then -(u / 2) - 1 else u / 2
  {
  }

  /** Every int64 survives pb_encode_svarint followed by pb_decode_svarint. */
  lemma ZigZagRoundTrip(v: int)
    requires InSigned(v, 8)
    ensures UnZigZag(ZigZag(v)) == v
  {
    ZigZagValue(v);
    UnZigZagValue(ZigZag(v));
  }

  /** And every uint64 is the zigzag image of exactly one int64. */
  lemma UnZigZagRoundTrip(u: nat)
    requires u < U64
    ensures InSigned(UnZigZag(u), 8) && ZigZag(UnZigZag(u)) == u
  {
    UnZigZagValue(u);
    ZigZagValue(UnZigZag(u));
  }

  lemma ModOfNegative(v: int, size: IntSize)
    requires InSigned(v, size) && v < 0
    ensures ToU64(v) % Span(size) == v + Span(size)
  {
    assert ToU64(v) == v + U64;
    if size == 1 {
      assert (v + U64) % 0x100 == v + 0x100;
    } else if size == 2 {
      assert (v + U64) % 0x1_0000 == v + 0x1_0000;
    } else if size == 4 {
      assert (v + U64) % U32 == v + U32;
    }
  }

  lemma ModOfSmall(v: int, size: IntSize)
    requires InSigned(v, size) && v >= 0
    ensures ToU64(v) % Span(size) == v
  {
    assert ToU64(v) == v;
    if size == 1 {
      assert v % 0x100 == v;
    } else if size == 2 {
      assert v % 0x1_0000 == v;
    } else if size == 4 {
      assert v % U32 == v;
    }
  }

  /** A signed value is restored from the 64-bit word it was sign-extended into. */
  lemma SignExtendRoundTrip(v: int, size: IntSize)
    requires InSigned(v, size)
    ensures ToSigned(ToU64(v), size) == v
  {
    hide ToU64;
    if v < 0 {
      ModOfNegative(v, size);
    } else {
      ModOfSmall(v, size);
    }
  }
}
