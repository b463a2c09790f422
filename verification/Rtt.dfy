/**
 The ring buffers of SEGGER_RTT.c, shared with a debug host that runs at the same time: it reads
 an up buffer that the target writes, and writes a down buffer that the target reads.
 */
module Rtt {
  import opened Words
  import opened RingBuffer

  datatype Mode = Skip | Trim

  function Min(a: int, b: int): int {
    if a < b then a else b
  }

  /** Bytes in the ring. */
  function Used(rd: int, wr: int, size: int): int {
    if wr >= rd then wr - rd else wr - rd + size
  }

  /** Room for writing, as the code computes it; one place always stays empty. */
  function Room(rd: int, wr: int, size: int): int {
    if rd - wr - 1 < 0 then rd - wr - 1 + size else rd - wr - 1
  }

  class Buffer {
    const buf: array<byte>
    var wrOff: nat
    var rdOff: nat

    /** Everything that was put into the ring, and everything that was taken out of it. */
    ghost var written: seq<byte>
    ghost var taken: seq<byte>

    ghost predicate Offsets()
      reads this`wrOff, this`rdOff
    {
      wrOff < buf.Length && rdOff < buf.Length
    }

    ghost function Contents(): seq<byte>
      requires Offsets()
      reads this`wrOff, this`rdOff, buf
    {
      Unroll(buf[..], rdOff, Used(rdOff, wrOff, buf.Length))
    }

    /** What was taken and what is in the ring is what was written, in order. */
    ghost predicate Valid()
      reads this, buf
    {
      Offsets() && taken + Contents() == written
    }

    /** The room the code computes is what the bytes in the ring leave, but for one place. */
    lemma RoomLeft()
      requires Offsets()
      ensures Room(rdOff, wrOff, buf.Length) + |Contents()| == buf.Length - 1
    {
    }

    constructor (size: nat)
      requires size > 0
      ensures Valid() && fresh(buf) && buf.Length == size && written == [] && taken == []
    {
      buf := new byte[size];
      wrOff, rdOff := 0, 0;
      written, taken := [], [];
    }

    /** The offset moves on over `n` bytes of the ring. */
    method Take(n: nat, off: nat)
      requires Valid() && n <= |Contents()| && off == Slot(rdOff, n, buf.Length)
      modifies this`rdOff, this`taken
      ensures Valid() && Contents() == old(Contents())[n..] && taken == old(taken) + old(Contents())[..n]
      ensures rdOff == off
    {
      UnrollSkip(buf[..], rdOff, Used(rdOff, wrOff, buf.Length), n);
      Rejoin(taken, Contents(), n);
      taken := taken + Contents()[..n];
      rdOff := off;
    }

    /** The host reads what it likes. */
    method HostReads()
      requires Valid()
      modifies this`rdOff, this`taken
      ensures Valid() && old(taken) <= taken
      ensures Room(rdOff, wrOff, buf.Length) >= Room(old(rdOff), wrOff, buf.Length)
    {
      var n: nat :| n <= Used(rdOff, wrOff, buf.Length);
      Take(n, Slot(rdOff, n, buf.Length));
    }

    method CopyIn(chunk: seq<byte>)
      requires wrOff + |chunk| <= buf.Length
      modifies buf
      ensures buf[..] == Copied(old(buf[..]), wrOff, chunk)
    {
      forall i | 0 <= i < |chunk| {
        buf[wrOff + i] := chunk[i];
      }
    }

    /** One copy that does not cross the end of the buffer, and the new write offset. */
    method Put(chunk: seq<byte>)
      requires Valid() && wrOff + |chunk| <= buf.Length && |chunk| <= Room(rdOff, wrOff, buf.Length)
      modifies buf, this`wrOff, this`written
      ensures Valid() && Contents() == old(Contents()) + chunk && written == old(written) + chunk
      ensures wrOff == Slot(old(wrOff), |chunk|, buf.Length)
      ensures Room(rdOff, wrOff, buf.Length) == Room(rdOff, old(wrOff), buf.Length) - |chunk|
    {
      hide Unroll, Copied;
      UnrollWrite(buf[..], rdOff, Used(rdOff, wrOff, buf.Length), chunk);
      CopyIn(chunk);
      wrOff := wrOff + |chunk|;
      if wrOff == buf.Length {
        wrOff := 0;
      }
      written := written + chunk;
    }

    /** One round of the loop of SEGGER_RTT_Write: as much of the `left` bytes from `data[n]` on as
        there is room for before the end of the buffer. */
    method CopyRound(data: seq<byte>, n: nat, left: nat, ghost before: seq<byte>) returns (m: nat)
      requires Valid() && n + left <= |data| && written == before + data[..n]
      modifies this, buf
      ensures Valid() && m <= left && written == before + data[..n + m] && old(taken) <= taken
      ensures left <= old(Room(rdOff, wrOff, buf.Length)) ==> m == Min(buf.Length - old(wrOff), left)
      ensures left > 0 && old(Room(rdOff, wrOff, buf.Length)) > 0 ==> m > 0
      ensures wrOff == Slot(old(wrOff), m, buf.Length)
      ensures Room(rdOff, wrOff, buf.Length) >= old(Room(rdOff, wrOff, buf.Length)) - m
    {
      hide Unroll;
      HostReads();
      var toWrite := Room(rdOff, wrOff, buf.Length);
      toWrite := Min(toWrite, buf.Length - wrOff);
      toWrite := Min(toWrite, left);
      HostReads();
      Glue(before, data, n, toWrite);
      Put(data[n..n + toWrite]);
      m := toWrite;
    }

    /** SEGGER_RTT_Write in the modes that do not wait; `room` is what the first look at the read
        offset found. */
    method Write(data: seq<byte>, mode: Mode) returns (n: nat, ghost room: nat, ghost copies: nat)
      requires Valid()
      modifies this, buf
      ensures Valid() && old(Room(rdOff, wrOff, buf.Length)) <= room < buf.Length
      ensures n == if |data| <= room then |data| else if mode == Skip then 0 else room
      ensures n <= |data| && written == old(written) + data[..n] && old(taken) <= taken
      ensures copies <= 2 && (copies == 0 <==> n == 0)
    {
      hide Unroll, Slot;
      copies := 0;
      HostReads();
      room := Room(rdOff, wrOff, buf.Length);
      var numBytes := |data|;
      if numBytes > Room(rdOff, wrOff, buf.Length) {
        if mode == Skip {
          return 0, room, copies;
        }
        numBytes := Room(rdOff, wrOff, buf.Length);
      }
      if numBytes == 0 {
        return 0, room, copies;
      }
      ghost var total := numBytes;
      n := 0;
      while true
        invariant Valid() && n + numBytes == total && 0 < numBytes <= Room(rdOff, wrOff, buf.Length)
        invariant written == old(written) + data[..n] && old(taken) <= taken
        invariant if copies == 0 then n == 0 else copies == 1 && n > 0 && wrOff == 0 && numBytes < buf.Length
        decreases numBytes
      {
        AtEnd(wrOff, buf.Length);
        var m := CopyRound(data, n, numBytes, old(written));
        copies := copies + 1;
        n := n + m;
        numBytes := numBytes - m;
        if numBytes == 0 {
          break;
        }
      }
    }

    /** SEGGER_RTT_Write in the mode that waits for room, watched for `patience` rounds of its
        loop; `idle` of them began with the ring full, and every other one made progress. */
    method WriteBlocking(data: seq<byte>, patience: nat) returns (n: nat, ghost idle: nat)
      requires Valid()
      modifies this, buf
      ensures Valid() && n <= |data| && written == old(written) + data[..n] && old(taken) <= taken
      ensures idle <= patience && (n == |data| || n + idle >= patience)
    {
      hide Unroll;
      n, idle := 0, 0;
      var rounds := 0;
      while n < |data| && rounds < patience
        invariant Valid() && n <= |data| && written == old(written) + data[..n] && old(taken) <= taken
        invariant idle <= rounds <= n + idle && rounds <= patience
      {
        idle := if Room(rdOff, wrOff, buf.Length) == 0 then idle + 1 else idle;
        var m := CopyRound(data, n, |data| - n, old(written));
        n := n + m;
        rounds := rounds + 1;
      }
    }

    /** The host puts in what it likes, in as many pieces as it likes, as far as there is room. */
    method HostWrites()
      requires Valid()
      modifies buf, this`wrOff, this`written
      ensures Valid() && old(Contents()) <= Contents() && old(written) <= written
    {
      hide Unroll, Slot;
      var pieces: nat := *;
      while pieces > 0
        invariant Valid() && old(Contents()) <= Contents() && old(written) <= written
      {
        var most := Min(Room(rdOff, wrOff, buf.Length), buf.Length - wrOff);
        var n: nat :| n <= most;
        var incoming := new byte[n];
        Put(incoming[..]);
        pieces := pieces - 1;
      }
    }

    /** Bytes `n` and on of the ring, as far as they lie in one piece. */
    lemma Piece(rd: nat, n: nat, rem: nat)
      requires Valid() && n + rem <= |Contents()| && rd == Slot(rdOff, n, buf.Length) && rd + rem <= buf.Length
      ensures Contents()[..n] + buf[rd..rd + rem] == Contents()[..n + rem]
    {
      var count := Used(rdOff, wrOff, buf.Length);
      UnrollSkip(buf[..], rdOff, count, n);
      UnrollPiece(buf[..], rd, count - n, rem);
      assert buf[..][rd..rd + rem] == buf[rd..rd + rem];
      assert Contents()[..n + rem] == Contents()[..n] + Contents()[n..][..rem];
    }

    method CopyOut(data: seq<byte>, rd: nat, rem: nat) returns (more: seq<byte>)
      requires Valid() && |data| + rem <= |Contents()| && data == Contents()[..|data|]
      requires rd == Slot(rdOff, |data|, buf.Length) && rd + rem <= buf.Length
      ensures |more| == |data| + rem && more == Contents()[..|more|]
    {
      hide Unroll;
      Piece(rd, |data|, rem);
      more := data + buf[rd..rd + rem];
    }

    /** SEGGER_RTT_Read into a buffer of `size` bytes; `seen` is the ring when the write offset
        was looked at. */
    method Read(size: nat) returns (data: seq<byte>, ghost seen: seq<byte>)
      requires Valid()
      modifies this, buf
      ensures Valid() && old(Contents()) <= seen
      ensures data == seen[..Min(|seen|, size)]
      ensures taken == old(taken) + data && old(written) <= written
    {
      hide Unroll;
      HostWrites();
      var rd, wr := rdOff, wrOff;
      seen := Contents();
      HostWrites();
      var left := size;
      data := [];
      if rd > wr {
        var rem := Min(buf.Length - rd, left);
        data := CopyOut(data, rd, rem);
        left := left - rem;
        rd := rd + rem;
        if rd == buf.Length {
          rd := 0;
        }
      }
      var rem := Min(wr - rd, left);
      if rem > 0 {
        data := CopyOut(data, rd, rem);
        left := left - rem;
        rd := rd + rem;
      }
      assert |data| == Min(|seen|, size);
      Prefix(seen, Contents(), |data|);
      if |data| > 0 {
        Take(|data|, rd);
      }
    }
  }

  lemma AtEnd(wr: nat, size: nat)
    requires wr < size
    ensures Slot(wr, size - wr, size) == 0
  {
  }

  lemma Prefix(a: seq<byte>, c: seq<byte>, n: nat)
    requires a <= c && n <= |a|
    ensures c[..n] == a[..n]
  {
  }

  lemma Rejoin(a: seq<byte>, c: seq<byte>, n: nat)
    requires n <= |c|
    ensures (a + c[..n]) + c[n..] == a + c
  {
  }

  lemma Glue(a: seq<byte>, data: seq<byte>, n: nat, m: nat)
    requires n + m <= |data|
    ensures (a + data[..n]) + data[n..n + m] == a + data[..n + m]
  {
  }
}
