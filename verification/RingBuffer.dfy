/** Ring buffers: words read from an offset on, wrapping at the end of the buffer. */
module RingBuffer {

  /** The place `i` behind offset `o` in a ring of `size` places. */
  function Slot(o: int, i: int, size: int): int {
    if o + i < size then o + i else o + i - size
  }

  /** `count` words of the ring from offset `o` on. */
  function Unroll<T>(buf: seq<T>, o: nat, count: nat): (r: seq<T>)
    requires count <= |buf| && (o < |buf| || count == 0)
    ensures |r| == count
  {
    seq(count, i requires 0 <= i < count => buf[Slot(o, i, |buf|)])
  }

  /** Writing the place behind the last word adds it at the end. */
  lemma UnrollPut<T>(buf: seq<T>, o: nat, count: nat, v: T)
    requires count < |buf| && o < |buf|
    ensures var k := Slot(o, count, |buf|);
            && 0 <= k < |buf| && Unroll(buf[k := v], o, count + 1) == Unroll(buf, o, count) + [v]
  {
    var k := Slot(o, count, |buf|);
    forall i | 0 <= i < count ensures buf[k := v][Slot(o, i, |buf|)] == buf[Slot(o, i, |buf|)] {
      assert Slot(o, i, |buf|) != k;
    }
  }

  /** Moving the offset one place on drops the first word. */
  lemma UnrollGet<T>(buf: seq<T>, o: nat, count: nat)
    requires 0 < count <= |buf| && o < |buf|
    ensures var o' := if o + 1 >= |buf| then 0 else o + 1;
            && Unroll(buf, o, count) == [buf[o]] + Unroll(buf, o', count - 1)
            && Slot(o, count, |buf|) == Slot(o', count - 1, |buf|)
  {
    var o' := if o + 1 >= |buf| then 0 else o + 1;
    forall i | 0 < i < count ensures Slot(o, i, |buf|) == Slot(o', i - 1, |buf|) {
    }
  }

  /** `chunk` copied over the places from `w` on. */
  function Copied<T>(buf: seq<T>, w: nat, chunk: seq<T>): (r: seq<T>)
    requires w + |chunk| <= |buf|
    ensures |r| == |buf|
  {
    buf[..w] + chunk + buf[w + |chunk|..]
  }

  /** A copy behind the last word that does not cross the end of the buffer adds the chunk. */
  lemma UnrollWrite<T>(buf: seq<T>, o: nat, count: nat, chunk: seq<T>)
    requires o < |buf| && count + |chunk| <= |buf| && count < |buf|
    requires Slot(o, count, |buf|) + |chunk| <= |buf|
    ensures 0 <= Slot(o, count, |buf|)
    ensures Unroll(Copied(buf, Slot(o, count, |buf|), chunk), o, count + |chunk|) == Unroll(buf, o, count) + chunk
  {
    var w := Slot(o, count, |buf|);
    var buf' := Copied(buf, w, chunk);
    forall i | 0 <= i < count + |chunk|
      ensures buf'[Slot(o, i, |buf|)] == if i < count then buf[Slot(o, i, |buf|)] else chunk[i - count]
    {
      if i < count {
        assert Slot(o, i, |buf|) < w || Slot(o, i, |buf|) >= w + |chunk|;
      } else {
        assert Slot(o, i, |buf|) == w + (i - count);
      }
    }
  }

  /** Moving the offset on drops words from the front. */
  lemma UnrollSkip<T>(buf: seq<T>, o: nat, count: nat, n: nat)
    requires o < |buf| && n <= count < |buf|
    ensures 0 <= Slot(o, n, |buf|) < |buf|
    ensures Unroll(buf, o, count)[n..] == Unroll(buf, Slot(o, n, |buf|), count - n)
    ensures Slot(Slot(o, n, |buf|), count - n, |buf|) == Slot(o, count, |buf|)
  {
    forall i | 0 <= i < count - n
      ensures Slot(o, n + i, |buf|) == Slot(Slot(o, n, |buf|), i, |buf|)
    {
    }
  }

  /** The words up to the end of the buffer lie in one piece. */
  lemma UnrollPiece<T>(buf: seq<T>, o: nat, count: nat, n: nat)
    requires o < |buf| && n <= count <= |buf| && o + n <= |buf|
    ensures Unroll(buf, o, count)[..n] == buf[o..o + n]
  {
  }
}
