/**
 The small memory manager of mem.c: blocks linked by offsets in both directions, a used block
 that ends the heap, and a pointer to the lowest free block from which the search starts.
 Addresses count from the start of the heap.
 */
module SmallMem {
  import opened Words
  import opened Ring
  import opened Tiling
  import opened Blocks
  import opened HighWater

  /** SIZEOF_STRUCT_MEM */
  const SZ: nat := 12
  /** MIN_SIZE and MIN_SIZE_ALIGNED */
  const MIN: nat := 12
  const NULL: int := -1

  /** The payload size that serves a request. */
  function Request(size: nat): (r: nat)
    ensures r >= size && r >= MIN && r % 4 == 0
  {
    if Align(size) < MIN then MIN else Align(size)
  }

  /** It is the smallest one that is aligned and large enough. */
  lemma RequestLeast(size: nat, n: nat)
    requires n >= size && n >= MIN && n % 4 == 0
    ensures Request(size) <= n
  {
  }

  /** The payload that a request gets out of a free block: the block is cut unless what is left
      over would be too small. */
  function Given(room: int, req: nat): int {
    if room >= req + SZ + MIN then req else room
  }

  /** The links run up and down the blocks; the last block points to itself, as the first one
      does backwards, and the backward link of the last block means nothing. */
  ghost predicate Linked(b: seq<int>, next: Links, prev: Links) {
    && b != [] && (forall i :: 0 <= i < |b| ==> b[i] in next && b[i] in prev)
    && (forall i, j :: 0 <= i < j < |b| && j == i + 1 ==> next[b[i]] == b[j])
    && (forall i, j :: 0 <= i < j < |b| - 1 && j == i + 1 ==> prev[b[j]] == b[i])
    && next[b[|b| - 1]] == b[|b| - 1] && (|b| > 1 ==> prev[b[0]] == b[0])
  }

  lemma LinkedAt(b: seq<int>, next: Links, prev: Links, i: nat)
    requires Linked(b, next, prev) && i < |b|
    ensures b[i] in next && b[i] in prev && next[b[i]] == if i + 1 < |b| then b[i + 1] else b[i]
    ensures i + 1 < |b| ==> prev[b[i]] == if i > 0 then b[i - 1] else b[i]
  {
  }

  lemma LinkedDomain(b: seq<int>, next: Links, prev: Links)
    requires Linked(b, next, prev)
    ensures forall i :: 0 <= i < |b| ==> b[i] in next
  {
  }

  lemma LinkedInsert(b: seq<int>, next: Links, prev: Links, i: nat, n: int)
    requires Linked(b, next, prev) && i + 1 < |b| && n !in b && Distinct(b)
    ensures b[i] in next
    ensures var next', prev1 := next[n := next[b[i]]][b[i] := n], prev[n := b[i]];
            Linked(Insert(b, i, n), next', if i + 2 < |b| then prev1[b[i + 1] := n] else prev1)
  {
    LinkedAt(b, next, prev, i);
    var b', next', prev1 := Insert(b, i, n), next[n := next[b[i]]][b[i] := n], prev[n := b[i]];
    var prev' := if i + 2 < |b| then prev1[b[i + 1] := n] else prev1;
    forall k | 0 <= k < |b'|
      ensures b'[k] in next' && b'[k] in prev' && b'[k] == if k <= i then b[k] else if k == i + 1 then n else b[k - 1]
    {
      InsertAt(b, i, n, k);
    }
    forall k, m | 0 <= k < m < |b'| && m == k + 1
      ensures next'[b'[k]] == b'[m] && (m < |b'| - 1 ==> prev'[b'[m]] == b'[k])
    {
      assert k > i + 1 ==> b'[k] == b[k - 1] && b'[m] == b[m - 1];
    }
  }

  lemma LinkedRemove(b: seq<int>, next: Links, prev: Links, i: nat)
    requires Linked(b, next, prev) && i + 2 < |b| && Distinct(b)
    ensures b[i + 1] in next
    ensures Linked(Without(b, i + 1), next[b[i] := next[b[i + 1]]], prev[b[i + 2] := b[i]])
  {
    LinkedAt(b, next, prev, i + 1);
    var b', next', prev' := Without(b, i + 1), next[b[i] := next[b[i + 1]]], prev[b[i + 2] := b[i]];
    forall k | 0 <= k < |b'| ensures b'[k] in next' && b'[k] in prev' && b'[k] == if k <= i then b[k] else b[k + 1] {
      WithoutAt(b, i + 1, k);
    }
    forall k, m | 0 <= k < m < |b'| && m == k + 1
      ensures next'[b'[k]] == b'[m] && (m < |b'| - 1 ==> prev'[b'[m]] == b'[k])
    {
      assert k > i ==> b'[k] == b[k + 1] && b'[m] == b[m + 1];
    }
  }

  /** All blocks below `low` are used. */
  ghost predicate NoneBelow(b: seq<int>, used: map<int, bool>, low: int) {
    forall x {:trigger x in b} :: x in b && x < low ==> x in used && used[x]
  }

  lemma IndexBetween(b: seq<int>, low: nat, high: nat, x: int) returns (j: nat)
    requires Spaced(b, SZ) && low <= high < |b| && x in b && b[low] <= x < b[high]
    ensures low <= j < high && b[j] == x
  {
    j := IndexOf(b, x);
  }

  lemma SumAligned(a: int, b: int)
    requires a % 4 == 0 && b % 4 == 0
    ensures (a + SZ + b) % 4 == 0
  {
    assert a + SZ + b == 4 * (a / 4 + 3 + b / 4);
  }

  // ---- plugging holes ----

  /** What plug_holes makes of the lowest free pointer. */
  function PlugLow(low: int, b: seq<int>, m: Joined): int
    requires m.i + 1 < |b| && (m.left ==> m.i > 0)
  {
    var low1 := if m.right && low == b[m.i + 1] then b[m.i] else low;
    if m.left && low1 == b[m.i] then b[m.i - 1] else low1
  }

  lemma JoinSwap(b: seq<int>, m: Joined)
    requires CanJoin(b, m)
    ensures JoinBlocks(b, m) == JoinLeftBlocks(JoinLeftBlocks(b, m.i + 1, m.right), m.i, m.left)
  {
    hide Without;
    if m.left && m.right {
      WithoutTwo(b, m.i);
    }
  }

  lemma WithoutTwo(b: seq<int>, i: nat)
    requires i + 1 < |b|
    ensures |Without(b, i)| == |Without(b, i + 1)| == |b| - 1
    ensures Without(Without(b, i), i) == Without(Without(b, i + 1), i)
  {
    assert Without(Without(b, i), i) == b[..i] + b[i + 2..];
    assert Without(Without(b, i + 1), i) == b[..i] + b[i + 2..];
  }

  /** Freeing block `m.i`: the lowest free pointer, lowered to it if need be and then plugged, is
      a free block again, with nothing free below it if nothing was. */
  lemma FreeLow(b: seq<int>, used: map<int, bool>, low: int, m: Joined)
    requires Spaced(b, SZ) && (forall i :: 0 <= i < |b| ==> b[i] in used)
    requires JoinsUnused(b, used, m) && used[b[m.i]]
    requires low in b && (low == b[|b| - 1] || !used[low])
    ensures var used' := used[b[m.i] := false];
            var low' := PlugLow(if b[m.i] < low then b[m.i] else low, b, m);
            && low' in JoinBlocks(b, m) && low' in used' && !used'[low']
            && (NoneBelow(b, used, low) ==> NoneBelow(JoinBlocks(b, m), used', low'))
  {
    hide JoinBlocks, Distinct;
    var used', h := used[b[m.i] := false], b[m.i];
    var l := if h < low then h else low;
    var low' := PlugLow(l, b, m);
    SpacedDistinct(b, SZ);
    SpacedAt(b, SZ, m.i, m.i + 1);
    SpacedAt(b, SZ, m.i, |b| - 1);
    assert h in b;
    if m.left {
      assert b[m.i - 1] in b;
      SpacedAt(b, SZ, m.i - 1, m.i);
    }
    JoinIn(b, m, low');
    forall x {:trigger x in JoinBlocks(b, m)} | x in JoinBlocks(b, m) && x < low' && NoneBelow(b, used, low)
      ensures x in used' && used'[x]
    {
      JoinIn(b, m, x);
    }
  }

  /** Shrinking block `r.i`: the pointer stays a free block; nothing lies free below it afterwards
      exactly when it was below the new free block, or at the block this one swallowed. */
  lemma ShrinkLow(b: seq<int>, used: map<int, bool>, low: int, r: Resize)
    requires Spaced(b, SZ) && (forall i :: 0 <= i < |b| ==> b[i] in used) && CanResize(b, used, r, SZ)
    requires r.n <= b[r.i + 1] && r.n !in if r.joined then Without(b, r.i + 1) else b
    requires low in b && (low == b[|b| - 1] || !used[low])
    ensures var used', low' := used[r.n := false], if r.joined && low == b[r.i + 1] then r.n else low;
            && low' in ResizeBlocks(b, r) && low' in used' && (low' == b[|b| - 1] || !used'[low'])
            && (NoneBelow(b, used, low) ==>
                  (NoneBelow(ResizeBlocks(b, r), used', low') <==> low < r.n || (r.joined && low == b[r.i + 1])))
  {
    hide Distinct, Insert, Without;
    var c := if r.joined then Without(b, r.i + 1) else b;
    SpacedDistinct(b, SZ);
    WithoutIn(b, r.i + 1);
    InsertIn(c, r.i, r.n);
    SpacedAt(b, SZ, r.i + 1, |b| - 1);
    assert r.n in ResizeBlocks(b, r);
    var used', low' := used[r.n := false], if r.joined && low == b[r.i + 1] then r.n else low;
    if NoneBelow(b, used, low) && (low < r.n || (r.joined && low == b[r.i + 1])) {
      forall x {:trigger x in ResizeBlocks(b, r)} | x in ResizeBlocks(b, r) && x < low' ensures x in used' && used'[x] {
        assert x in b;
      }
    }
  }

  /** One free block and the end of the heap. */
  lemma OneBlock(last: nat)
    requires last >= SZ && last % 4 == 0
    ensures var b, used := [0, last], map[0 := false, last := true];
            && BlocksOk(b, used, last + SZ, SZ) && NoFreePair(b, used)
            && Sum(b, used, true, 0) == 0
    ensures Linked([0, last], map[0 := last, last := last], map[0 := 0, last := last])
  {
    assert [0, last][1..] == [last];
  }

  class Heap {
    /** mem_size_aligned */
    const memSize: nat
    var next: Links
    var prev: Links
    var used: map<int, bool>
    var lfree: int
    var usedMem: int
    var maxMem: int
    var bytes: seq<byte>

    ghost var blocks: seq<int>
    /** All values that `usedMem` has had, in order. */
    ghost var uses: seq<int>

    function HeapEnd(): int {
      memSize + SZ
    }

    ghost predicate Structure()
      reads this`next, this`prev, this`used, this`bytes, this`blocks
    {
      && BlocksOk(blocks, used, memSize + 2 * SZ, SZ) && NoFreePair(blocks, used)
      && Linked(blocks, next, prev)
      && |bytes| == memSize + 2 * SZ
    }

    /** The search starts at a free block or at the end of the heap. */
    ghost predicate LowOk()
      reads this`lfree, this`used, this`blocks
    {
      lfree in blocks && lfree in used && (lfree == HeapEnd() || !used[lfree])
    }

    ghost predicate Valid()
      reads this
    {
      && Structure() && LowOk()
      && usedMem == Sum(blocks, used, true, 0)
      && IsHighWater(uses, maxMem, usedMem)
    }

    /** The search does not pass over a free block. */
    ghost predicate NoFreeBelow()
      reads this`lfree, this`used, this`blocks
    {
      NoneBelow(blocks, used, lfree)
    }

    /** The pointers in the hands of the program. */
    ghost predicate IsLive(p: int)
      requires Structure()
      reads this`next, this`prev, this`used, this`bytes, this`blocks
    {
      p - SZ in blocks && used[p - SZ] && p - SZ != HeapEnd()
    }

    ghost function Payload(p: int): seq<byte>
      requires Structure() && IsLive(p)
      reads this`next, this`prev, this`used, this`bytes, this`blocks
    {
      PayloadInHeap(p);
      bytes[p..next[p - SZ]]
    }

    lemma PayloadInHeap(p: int)
      requires Structure() && p - SZ in blocks && p - SZ != HeapEnd()
      ensures p - SZ in next && SZ <= p <= next[p - SZ] <= HeapEnd()
    {
      hide NoFreePair;
      var i := IndexOf(blocks, p - SZ);
      LinkedAt(blocks, next, prev, i);
      SpacedAt(blocks, SZ, 0, i);
      SpacedAt(blocks, SZ, i, i + 1);
      SpacedAt(blocks, SZ, i + 1, |blocks| - 1);
    }

    /** Every live block has at least one word; rt_realloc may leave it less than MIN. */
    ghost predicate NonEmpty()
      requires Structure()
      reads this`next, this`prev, this`used, this`bytes, this`blocks
    {
      forall p :: IsLive(p) ==> |Payload(p)| >= 4
    }

    /** No live block has lost its place, its size or a byte of its payload, except `p`. */
    twostate predicate Kept(p: int)
      requires old(Structure()) && Structure()
      reads this`next, this`prev, this`used, this`bytes, this`blocks
    {
      forall q :: old(IsLive(q)) && q != p ==> IsLive(q) && Payload(q) == old(Payload(q))
    }

    /** A heap of `memSize` bytes beside its two headers. */
    constructor (memSize: nat)
      requires memSize % 4 == 0
      ensures Valid() && NoFreeBelow() && NonEmpty() && this.memSize == memSize
      ensures blocks == [0, HeapEnd()] && used == map[0 := false, HeapEnd() := true] && lfree == 0
      ensures next == map[0 := HeapEnd(), HeapEnd() := HeapEnd()]
      ensures usedMem == 0 && maxMem == 0 && uses == [0] && forall p :: !IsLive(p)
    {
      hide BlocksOk, NoFreePair, Linked, Sum, IsHighWater;
      this.memSize := memSize;
      var last := memSize + SZ;
      next, prev := map[0 := last, last := last], map[0 := 0, last := last];
      used := map[0 := false, last := true];
      lfree, usedMem, maxMem := 0, 0, 0;
      var memory := new byte[memSize + 2 * SZ];
      bytes := memory[..];
      blocks, uses := [0, last], [0];
      new;
      OneBlock(last);
      MarkStart(0);
    }

    /** rt_system_heap_init: there is a heap if the range has room for two headers. */
    static method Init(begin: nat, end: nat) returns (heap: Heap?)
      ensures heap == null <==> AlignDown(end) <= 2 * SZ || AlignDown(end) < Align(begin) + 2 * SZ
      ensures heap != null ==> fresh(heap) && heap.Valid() && heap.NoFreeBelow() && heap.NonEmpty()
      ensures heap != null ==> heap.memSize == AlignDown(end) - Align(begin) - 2 * SZ
      ensures heap != null ==> heap.blocks == [0, heap.HeapEnd()] && heap.uses == [0] && forall p :: !heap.IsLive(p)
    {
      var beginAlign, endAlign := Align(begin), AlignDown(end);
      if endAlign > 2 * SZ && endAlign - 2 * SZ >= beginAlign {
        heap := new Heap(endAlign - beginAlign - 2 * SZ);
      } else {
        heap := null;
      }
    }

    /** Payload size of a block as the code computes it. */
    function Room(x: int): int
      requires x in next
      reads this`next
    {
      next[x] - (x + SZ)
    }

    ghost predicate Fits(x: int, size: nat)
      reads this`next, this`used
    {
      x in used && !used[x] && x in next && Room(x) >= size
    }

    /** The block at index `k` lies within the bound of the search and fits. */
    ghost predicate Candidate(k: nat, size: nat)
      reads this`next, this`used, this`blocks
    {
      k < |blocks| && blocks[k] < memSize - size && Fits(blocks[k], size)
    }

    /** The search of rt_malloc, from index `low` on. */
    method Find(size: nat, ghost low: nat) returns (ptr: int, found: bool, ghost i: nat)
      requires Structure() && low < |blocks| && blocks[low] == lfree && size <= memSize
      ensures found ==> lfree <= ptr && low <= i && i + 1 < |blocks| && blocks[i] == ptr && Candidate(i, size)
      ensures found ==> ptr in next && next[ptr] == blocks[i + 1]
      ensures forall k :: low <= k < |blocks| && (found ==> k < i) ==> !Candidate(k, size)
    {
      ptr, i := lfree, low;
      while ptr < memSize - size
        invariant low <= i < |blocks| && blocks[i] == ptr
        invariant forall k :: low <= k < i ==> !Candidate(k, size)
        decreases |blocks| - i
      {
        LinkedAt(blocks, next, prev, i);
        assert i + 1 < |blocks|;
        if !used[ptr] && next[ptr] - (ptr + SZ) >= size {
          SpacedAt(blocks, SZ, low, i);
          return ptr, true, i;
        }
        ptr := next[ptr];
        i := i + 1;
      }
      found := false;
      forall k | i <= k < |blocks| ensures !Candidate(k, size) {
        SpacedAt(blocks, SZ, i, k);
      }
    }

    /** A live pointer whose header and neighbour are untouched keeps its payload. */
    twostate lemma KeptOne(q: int)
      requires old(Structure()) && Structure() && old(IsLive(q))
      requires q - SZ in blocks && used[q - SZ]
      requires q - SZ in next && next[q - SZ] == old(next)[q - SZ]
      requires forall a :: q <= a < next[q - SZ] && 0 <= a < |bytes| ==> bytes[a] == old(bytes)[a]
      ensures IsLive(q) && Payload(q) == old(Payload(q))
    {
      PayloadInHeap(q);
    }

    /** Builds an unused header in the heap: what was in its bytes is gone. */
    method NewHeader(n: int)
      requires 0 <= n && n + SZ <= |bytes|
      modifies this`used, this`bytes
      ensures used == old(used)[n := false] && |bytes| == |old(bytes)|
      ensures forall a :: 0 <= a < |bytes| && !(n <= a < n + SZ) ==> bytes[a] == old(bytes)[a]
    {
      var image := new byte[SZ];
      bytes := bytes[..n] + image[..] + bytes[n + SZ..];
      used := used[n := false];
    }

    /** A new free block at `n` is put behind block `i`. */
    method LinkBehind(ptr: int, n: int, ghost i: nat)
      requires Linked(blocks, next, prev) && Distinct(blocks) && i + 1 < |blocks| && blocks[i] == ptr && n !in blocks
      requires blocks[|blocks| - 1] == HeapEnd() && 0 <= n && n + SZ <= |bytes|
      modifies this`next, this`prev, this`used, this`bytes, this`blocks
      ensures Linked(blocks, next, prev) && blocks == Insert(old(blocks), i, n)
      ensures next == old(next)[n := old(blocks)[i + 1]][ptr := n]
      ensures used == old(used)[n := false] && |bytes| == |old(bytes)|
      ensures forall a :: 0 <= a < |bytes| && !(n <= a < n + SZ) ==> bytes[a] == old(bytes)[a]
    {
      hide Linked, Distinct;
      LinkedAt(blocks, next, prev, i);
      LinkedInsert(blocks, next, prev, i, n);
      DistinctAt(blocks, i, i + 1);
      DistinctAt(blocks, i + 1, |blocks| - 1);
      assert blocks[i + 1] in blocks;
      NewHeader(n);
      next := next[n := next[ptr]];
      prev := prev[n := ptr];
      next := next[ptr := n];
      if next[n] != memSize + SZ {
        prev := prev[next[n] := n];
      }
      blocks := Insert(blocks, i, n);
    }

    /** Cutting block `i` at `n` leaves all others alone. */
    twostate lemma CutOthers(r: Resize)
      requires old(Structure()) && Structure() && r.i + 1 < |old(blocks)| && blocks == Insert(old(blocks), r.i, r.n)
      requires next == old(next)[r.n := old(blocks)[r.i + 1]][old(blocks)[r.i] := r.n]
      requires old(blocks)[r.i] + SZ <= r.n && r.n + SZ <= old(blocks)[r.i + 1] && r.n !in old(blocks)
      requires old(blocks)[r.i] in old(used) && !old(used)[old(blocks)[r.i]]
      requires used == old(used)[r.n := false][old(blocks)[r.i] := true]
      requires forall a :: 0 <= a < |bytes| && !(r.n <= a < r.n + SZ) ==> bytes[a] == old(bytes)[a]
      ensures Kept(NULL)
    {
      hide NoFreePair, Linked, Insert, Sum, Spaced, Payload;
      var b0 := old(blocks);
      InsertIn(b0, r.i, r.n);
      forall q | old(IsLive(q)) ensures IsLive(q) && Payload(q) == old(Payload(q)) {
        var k := IndexOf(b0, q - SZ);
        LinkedAt(b0, old(next), old(prev), k);
        SpacedApart(b0, SZ, k, r.i);
        LastIs(b0, k);
        KeptOne(q);
      }
    }

    /** Cutting block `i` at `n` makes its front the one new block in use. */
    twostate lemma CutKeeps(r: Resize)
      requires old(Structure()) && Structure() && r.i + 1 < |old(blocks)| && blocks == Insert(old(blocks), r.i, r.n)
      requires next == old(next)[r.n := old(blocks)[r.i + 1]][old(blocks)[r.i] := r.n]
      requires old(blocks)[r.i] + SZ <= r.n && r.n + SZ <= old(blocks)[r.i + 1] && r.n !in old(blocks)
      requires old(blocks)[r.i] in old(used) && !old(used)[old(blocks)[r.i]]
      requires used == old(used)[r.n := false][old(blocks)[r.i] := true]
      requires forall a :: 0 <= a < |bytes| && !(r.n <= a < r.n + SZ) ==> bytes[a] == old(bytes)[a]
      ensures Granted(old(blocks)[r.i] + SZ, r.n - old(blocks)[r.i] - SZ)
    {
      hide NoFreePair, Linked, Insert, Sum, Spaced, Kept;
      var b0, h := old(blocks), old(blocks)[r.i];
      CutOthers(r);
      InsertIn(b0, r.i, r.n);
      InsertAt(b0, r.i, r.n, r.i);
      assert h in b0;
      NotLast(b0, r.i);
      PayloadInHeap(h + SZ);
    }

    lemma LastIs(b: seq<int>, k: nat)
      requires k < |b| && b[|b| - 1] == HeapEnd() && b[k] != HeapEnd()
      ensures k + 1 < |b|
    {
    }

    lemma NotLast(b: seq<int>, k: nat)
      requires Spaced(b, SZ) && b != [] && b[|b| - 1] == HeapEnd() && k + 1 < |b|
      ensures b[k] != HeapEnd()
    {
      SpacedAt(b, SZ, k, |b| - 1);
    }

    /** The whole block at `h` is handed out. */
    twostate lemma TakeKeeps(h: int)
      requires old(Structure()) && Structure() && blocks == old(blocks) && next == old(next) && bytes == old(bytes)
      requires h in blocks && h in old(used) && !old(used)[h] && used == old(used)[h := true]
      requires h in next && h != HeapEnd()
      ensures h + SZ <= next[h] && Granted(h + SZ, Room(h))
    {
      hide NoFreePair, Linked, Sum;
      PayloadInHeap(h + SZ);
      forall q | old(IsLive(q)) ensures IsLive(q) && Payload(q) == old(Payload(q)) {
        PayloadInHeap(q);
        KeptOne(q);
      }
    }

    /** The pointer `p` is new, is the only new one, and has `size` bytes; nothing else changed hands. */
    twostate predicate Granted(p: int, size: int)
      requires old(Structure()) && Structure()
      reads this`next, this`prev, this`used, this`bytes, this`blocks
    {
      && IsLive(p) && !old(IsLive(p)) && p % 4 == 0 && |Payload(p)| == size
      && (forall q :: IsLive(q) && q != p ==> old(IsLive(q)))
      && Kept(NULL)
    }

    /** The high-water mark follows the bytes in use. */
    method Charge(span: int)
      requires IsHighWater(uses, maxMem, usedMem)
      modifies this`usedMem, this`maxMem, this`uses
      ensures usedMem == old(usedMem) + span && IsHighWater(uses, maxMem, usedMem)
      ensures maxMem == Raised(old(maxMem), usedMem) && uses == old(uses) + [usedMem]
    {
      hide IsHighWater;
      MarkStep(uses, maxMem, usedMem, usedMem + span);
      usedMem := usedMem + span;
      if maxMem < usedMem {
        maxMem := usedMem;
      }
      uses := uses + [usedMem];
    }

    /** The bytes in use become fewer, which does not touch the mark. */
    method Discount(span: int)
      requires IsHighWater(uses, maxMem, usedMem) && span >= 0
      modifies this`usedMem, this`uses
      ensures usedMem == old(usedMem) - span && IsHighWater(uses, maxMem, usedMem) && uses == old(uses) + [usedMem]
    {
      hide IsHighWater;
      MarkStep(uses, maxMem, usedMem, usedMem - span);
      usedMem := usedMem - span;
      uses := uses + [usedMem];
    }

    /** Spans of used and free blocks fill the heap. */
    lemma Spans()
      requires Structure()
      ensures Sum(blocks, used, true, 0) == HeapEnd() - Sum(blocks, used, false, 0)
    {
      SumTotal(blocks, used, 0);
    }

    /** Bytes in use and bytes free, headers included, make up the heap; the high-water mark is
        the largest number of bytes in use that there has been. */
    lemma Accounting()
      requires Valid()
      ensures usedMem + Sum(blocks, used, false, 0) == HeapEnd()
      ensures 0 <= usedMem <= maxMem
      ensures maxMem in uses && (forall u :: u in uses ==> u <= maxMem) && uses[|uses| - 1] == usedMem
    {
      Spans();
      SumBounds(blocks, used, true, 0);
      MarkBounds(uses, maxMem, usedMem);
    }

    /** The split branch of rt_malloc. */
    method AllocSplit(ptr: int, size: nat, ghost i: nat)
      requires Valid() && i + 1 < |blocks| && blocks[i] == ptr && ptr in used && !used[ptr] && size % 4 == 0
      requires ptr + SZ + size + SZ <= blocks[i + 1]
      modifies this`next, this`prev, this`used, this`bytes, this`blocks, this`usedMem, this`maxMem, this`uses
      ensures Structure() && usedMem == Sum(blocks, used, true, 0) && IsHighWater(uses, maxMem, usedMem)
      ensures Granted(ptr + SZ, size) && usedMem == old(usedMem) + size + SZ
      ensures maxMem == Raised(old(maxMem), usedMem) && uses == old(uses) + [usedMem]
      ensures blocks == Insert(old(blocks), i, ptr + SZ + size) && ptr + SZ + size !in old(blocks)
      ensures used == old(used)[ptr + SZ + size := false][ptr := true]
    {
      hide Structure, Sum, Linked, NoFreePair, BlocksOk, Distinct, Spaced, Insert, Granted, IsHighWater, Raised;
      Spans();
      AlignedAt(i, size);
      CutFree(ptr, ptr + SZ + size, i);
      Spans();
      Charge(size + SZ);
      CutKeeps(Resize(i, ptr + SZ + size, false));
    }

    lemma AlignedAt(i: nat, size: nat)
      requires Structure() && i < |blocks| && size % 4 == 0
      ensures (blocks[i] + SZ + size) % 4 == 0
    {
      hide Spaced, Linked, NoFreePair;
      SumAligned(blocks[i], size);
    }

    /** The block at `ptr` is cut at `n` and taken. */
    method CutFree(ptr: int, n: int, ghost i: nat)
      requires Structure() && i + 1 < |blocks| && blocks[i] == ptr && ptr in used && !used[ptr] && n % 4 == 0
      requires ptr + SZ <= n && n + SZ <= blocks[i + 1]
      modifies this`next, this`prev, this`used, this`bytes, this`blocks
      ensures Structure() && blocks == Insert(old(blocks), i, n) && n !in old(blocks)
      ensures next == old(next)[n := old(blocks)[i + 1]][ptr := n]
      ensures used == old(used)[n := false][ptr := true]
      ensures forall a :: 0 <= a < |bytes| && !(n <= a < n + SZ) ==> bytes[a] == old(bytes)[a]
      ensures Sum(blocks, used, false, 0) == old(Sum(blocks, used, false, 0)) - (n - ptr)
    {
      hide Sum, Linked, NoFreePair, Distinct, Spaced, Insert;
      SpacedDistinct(blocks, SZ);
      SpacedAt(blocks, SZ, 0, i);
      SpacedAt(blocks, SZ, i + 1, |blocks| - 1);
      CutBlock(blocks, used, memSize + 2 * SZ, SZ, i, n, 0);
      LinkBehind(ptr, n, i);
      used := used[ptr := true];
    }

    /** The near-fit branch of rt_malloc. */
    method AllocWhole(ptr: int, ghost i: nat)
      requires Valid() && i + 1 < |blocks| && blocks[i] == ptr && !used[ptr]
      requires ptr in next && next[ptr] == blocks[i + 1]
      modifies this`used, this`usedMem, this`maxMem, this`uses
      ensures Structure() && usedMem == Sum(blocks, used, true, 0) && IsHighWater(uses, maxMem, usedMem)
      ensures Granted(ptr + SZ, Room(ptr)) && usedMem == old(usedMem) + next[ptr] - ptr
      ensures maxMem == Raised(old(maxMem), usedMem) && uses == old(uses) + [usedMem]
      ensures used == old(used)[ptr := true]
    {
      hide Sum, Linked, NoFreePair, Distinct, Spaced, Granted, IsHighWater, Raised;
      Spans();
      TakeBlock(blocks, used, memSize + 2 * SZ, SZ, i, 0);
      used := used[ptr := true];
      Spans();
      Charge(next[ptr] - ptr);
      assert ptr in blocks;
      NotLast(blocks, i);
      TakeKeeps(ptr);
    }

    /** The update of the lowest free pointer in rt_malloc, `low` being its index. */
    method Advance(ghost low: nat)
      requires Structure() && low < |blocks| && blocks[low] == lfree
      modifies this`lfree
      ensures LowOk() && old(lfree) <= lfree
      ensures forall x {:trigger x in blocks} :: x in blocks && old(lfree) <= x < lfree ==> used[x]
    {
      hide NoFreePair;
      ghost var k := low;
      while used[lfree] && lfree != HeapEnd()
        invariant low <= k < |blocks| && blocks[k] == lfree
        invariant forall j :: low <= j < k ==> used[blocks[j]]
        decreases |blocks| - k
      {
        LinkedAt(blocks, next, prev, k);
        lfree := next[lfree];
        k := k + 1;
      }
      SpacedAt(blocks, SZ, low, k);
      forall x {:trigger x in blocks} | x in blocks && old(lfree) <= x < lfree ensures used[x] {
        var j := IndexBetween(blocks, low, k, x);
      }
    }

    /** No free block from `low` on fits, but for an exact fit at the very end of the heap. */
    ghost predicate NothingFrom(low: int, size: nat)
      reads this`next, this`used, this`blocks
    {
      forall x {:trigger x in blocks} :: x in blocks && low <= x && Fits(x, size) ==> x + SZ + size == HeapEnd()
    }

    /** With nothing free below the lowest free pointer the search misses no block of the heap. */
    lemma SearchAll(size: nat)
      requires Valid() && NoFreeBelow()
      ensures NothingFrom(lfree, size) <==> NothingFrom(0, size)
      ensures forall x {:trigger x in blocks} :: x in blocks && Fits(x, size) ==> lfree <= x
    {
      hide Linked, NoFreePair, Sum;
      var k := IndexOf(blocks, lfree);
      SpacedAt(blocks, SZ, 0, k);
    }

    /** A block that fits has room before the end of the heap. */
    lemma FitsBefore(k: nat, size: nat)
      requires Structure() && k < |blocks| && Fits(blocks[k], size)
      ensures k + 1 < |blocks| && 0 <= blocks[k] && blocks[k] + SZ + size <= HeapEnd()
    {
      hide NoFreePair;
      LinkedAt(blocks, next, prev, k);
      SpacedAt(blocks, SZ, 0, k);
      SpacedAt(blocks, SZ, k + 1, |blocks| - 1);
    }

    lemma TooBig(size: nat)
      requires Structure() && size > memSize
      ensures NothingFrom(lfree, size)
    {
      hide NoFreePair, Linked;
      forall x {:trigger x in blocks} | x in blocks ensures !Fits(x, size) {
        if Fits(x, size) {
          var k := IndexOf(blocks, x);
          FitsBefore(k, size);
        }
      }
    }

    /** A failed search leaves nothing that fits. */
    lemma SearchFailed(size: nat, low: nat)
      requires Structure() && low < |blocks| && blocks[low] == lfree
      requires forall k :: low <= k < |blocks| ==> !Candidate(k, size)
      ensures NothingFrom(lfree, size)
    {
      hide NoFreePair, Linked;
      forall x {:trigger x in blocks} | x in blocks && lfree <= x && Fits(x, size) ensures x + SZ + size == HeapEnd() {
        var k := IndexOf(blocks, x);
        FitsBefore(k, size);
        assert k >= low ==> !Candidate(k, size);
      }
    }

    /** The first block found is the lowest that fits. */
    lemma SearchLowest(size: nat, low: nat, i: nat)
      requires Structure() && low <= i < |blocks| && blocks[low] == lfree && Candidate(i, size)
      requires forall k :: low <= k < i ==> !Candidate(k, size)
      ensures forall x {:trigger x in blocks} :: x in blocks && lfree <= x < blocks[i] ==> !Fits(x, size)
      ensures !NothingFrom(lfree, size)
    {
      hide NoFreePair, Linked;
      assert blocks[i] in blocks;
      SpacedAt(blocks, SZ, low, i);
      forall x {:trigger x in blocks} | x in blocks && lfree <= x < blocks[i] ensures !Fits(x, size) {
        var k := IndexOf(blocks, x);
        assert low <= k < i ==> !Candidate(k, size);
      }
    }

    /** After taking the block at `ptr`, with whatever free block behind it, nothing lies free
        below the lowest free pointer if nothing did before. */
    method SettleLow(ptr: int)
      requires Structure() && ptr in blocks && used[ptr] && lfree in blocks
               && (ptr == lfree || lfree == HeapEnd() || !used[lfree])
      modifies this`lfree
      ensures LowOk() && (old(NoFreeBelow()) ==> NoFreeBelow())
    {
      hide Linked, NoFreePair;
      assert forall x {:trigger x in blocks} :: x in blocks ==> x in used;
      if ptr == lfree {
        ghost var low := IndexOf(blocks, lfree);
        Advance(low);
      }
    }

    /** The block at `p` has `req` bytes and was cut off: a free block begins right behind it. */
    ghost predicate TailFree(p: int, req: nat)
      requires Structure() && IsLive(p)
      reads this`next, this`prev, this`used, this`bytes, this`blocks
    {
      |Payload(p)| == req && p + req in blocks && !used[p + req]
    }

    /** rt_malloc */
    method Malloc(size: nat) returns (p: int)
      requires Valid() && memSize >= MIN
      modifies this
      ensures Valid() && (old(NoFreeBelow()) ==> NoFreeBelow()) && (old(NonEmpty()) ==> NonEmpty())
      ensures p == NULL ==> unchanged(this)
      ensures p == NULL <==> size == 0 || old(NothingFrom(lfree, Request(size)))
      ensures p != NULL ==> p - SZ in old(blocks) && old(lfree) <= p - SZ && old(Fits(p - SZ, Request(size)))
      ensures p != NULL ==> forall x {:trigger x in old(blocks)} ::
                x in old(blocks) && old(lfree) <= x < p - SZ ==> !old(Fits(x, Request(size)))
      ensures p != NULL ==> IsLive(p) && |Payload(p)| == Given(old(Room(p - SZ)), Request(size)) >= Request(size)
      ensures p != NULL ==> if old(Room(p - SZ)) >= Request(size) + SZ + MIN then TailFree(p, Request(size))
                            else |Payload(p)| == old(Room(p - SZ)) < Request(size) + SZ + MIN
      ensures p != NULL ==> Granted(p, |Payload(p)|) && usedMem == old(usedMem) + |Payload(p)| + SZ
      ensures p != NULL ==> maxMem == Raised(old(maxMem), usedMem) && uses == old(uses) + [usedMem]
    {
      hide Structure, Linked, NoFreePair, Sum, Fits, NothingFrom, NoneBelow, Given, IsHighWater, Raised;
      hide NonEmpty, IsLive, Payload, TailFree;
      if size == 0 {
        return NULL;
      }
      var req := Align(size);
      if req > memSize {
        TooBig(Request(size));
        return NULL;
      }
      if req < MIN {
        req := MIN;
      }
      ghost var low := IndexOf(blocks, lfree);
      var ptr, found;
      ghost var i;
      ptr, found, i := Find(req, low);
      if !found {
        SearchFailed(req, low);
        return NULL;
      }
      SearchLowest(req, low, i);
      TakeFound(ptr, req, i);
      SettleLow(ptr);
      p := ptr + SZ;
      StillNonEmpty(p);
    }

    twostate lemma StillNonEmpty(p: int)
      requires old(Structure()) && Structure() && IsLive(p) && Granted(p, |Payload(p)|) && |Payload(p)| >= 4
      ensures old(NonEmpty()) ==> NonEmpty()
    {
      hide Structure, Payload, IsLive;
      NullIsDead();
    }

    /** Both branches of rt_malloc for the block that was found. */
    method TakeFound(ptr: int, req: nat, ghost i: nat)
      requires Valid() && Candidate(i, req) && i + 1 < |blocks| && blocks[i] == ptr && req % 4 == 0 && req >= MIN
      requires ptr in next && next[ptr] == blocks[i + 1] && lfree <= ptr
      modifies this`next, this`prev, this`used, this`bytes, this`blocks, this`usedMem, this`maxMem, this`uses
      ensures Structure() && usedMem == Sum(blocks, used, true, 0) && IsHighWater(uses, maxMem, usedMem)
      ensures IsLive(ptr + SZ) && Granted(ptr + SZ, |Payload(ptr + SZ)|)
      ensures |Payload(ptr + SZ)| == Given(old(Room(ptr)), req) >= req && usedMem == old(usedMem) + |Payload(ptr + SZ)| + SZ
      ensures if old(Room(ptr)) >= req + SZ + MIN then TailFree(ptr + SZ, req)
              else |Payload(ptr + SZ)| == old(Room(ptr)) < req + SZ + MIN
      ensures old(NoFreeBelow()) ==> NoFreeBelow()
      ensures maxMem == Raised(old(maxMem), usedMem) && uses == old(uses) + [usedMem]
      ensures ptr in blocks && used[ptr] && ptr >= 0
      ensures lfree in blocks && lfree in used && (ptr == lfree || lfree == HeapEnd() || !used[lfree])
    {
      hide Structure, Linked, NoFreePair, Sum, BlocksOk, IsHighWater, Raised;
      FitsBefore(i, req);
      if next[ptr] - (ptr + SZ) >= req + SZ + MIN {
        InsertIn(blocks, i, ptr + SZ + req);
        AllocSplit(ptr, req, i);
      } else {
        AllocWhole(ptr, i);
      }
    }

    /** plug_holes */
    method PlugHoles(mem: int, ghost m: Joined)
      requires Linked(blocks, next, prev) && Spaced(blocks, SZ)
      requires forall i :: 0 <= i < |blocks| ==> blocks[i] in used
      requires JoinsUnused(blocks, used, m) && blocks[m.i] == mem && !used[mem]
      requires blocks[|blocks| - 1] == HeapEnd() && used[HeapEnd()]
      modifies this`next, this`prev, this`lfree, this`blocks
      ensures Linked(blocks, next, prev) && blocks == JoinBlocks(old(blocks), m)
      ensures lfree == PlugLow(old(lfree), old(blocks), m)
      ensures forall x :: x != mem && x != old(blocks)[JoinAt(m.i, m.left)] ==> Same(x, old(next), next)
    {
      hide Linked, Spaced, Distinct, JoinLeftBlocks, JoinBlocks;
      SpacedDistinct(blocks, SZ);
      JoinSwap(blocks, m);
      PlugForward(mem, m);
      ghost var next1 := next;
      PlugBackward(mem, m.i, m.left);
      forall x | x != mem && x != old(blocks)[JoinAt(m.i, m.left)] ensures Same(x, old(next), next) {
        assert Same(x, old(next), next1) && Same(x, next1, next);
      }
    }

    /** The first half of plug_holes: the block behind is joined to `mem`. */
    method PlugForward(mem: int, ghost m: Joined)
      requires Linked(blocks, next, prev) && Distinct(blocks)
      requires forall i :: 0 <= i < |blocks| ==> blocks[i] in used
      requires JoinsUnused(blocks, used, m) && blocks[m.i] == mem
      requires blocks[|blocks| - 1] == HeapEnd() && used[HeapEnd()]
      modifies this`next, this`prev, this`lfree, this`blocks
      ensures Linked(blocks, next, prev) && blocks == JoinLeftBlocks(old(blocks), m.i + 1, m.right)
      ensures Distinct(blocks) && m.i + 1 < |blocks| && blocks[m.i] == mem && (m.i > 0 ==> blocks[m.i - 1] == old(blocks)[m.i - 1])
      ensures lfree == if m.right && old(lfree) == old(blocks)[m.i + 1] then mem else old(lfree)
      ensures forall x :: x != mem ==> Same(x, old(next), next)
    {
      hide Linked, Distinct, Without;
      DistinctAt(blocks, m.i, m.i + 1);
      LinkedAt(blocks, next, prev, m.i);
      var nmem := next[mem];
      if mem != nmem && !used[nmem] && nmem != HeapEnd() {
        if lfree == nmem {
          lfree := mem;
        }
        LinkedRemove(blocks, next, prev, m.i);
        LinkedAt(blocks, next, prev, m.i + 1);
        WithoutDistinct(blocks, m.i + 1);
        WithoutFront(blocks, m.i);
        next := next[mem := next[nmem]];
        prev := prev[next[nmem] := mem];
        blocks := Without(blocks, m.i + 1);
      }
    }

    /** The second half: `mem` is joined to the block before it. */
    method PlugBackward(mem: int, ghost i: nat, ghost left: bool)
      requires Linked(blocks, next, prev) && Distinct(blocks) && i + 1 < |blocks| && blocks[i] == mem
      requires i > 0 ==> blocks[i - 1] in used
      requires mem in used && !used[mem]
      requires left <==> i > 0 && !used[blocks[i - 1]]
      modifies this`next, this`prev, this`lfree, this`blocks
      ensures Linked(blocks, next, prev) && blocks == JoinLeftBlocks(old(blocks), i, left)
      ensures lfree == if left && old(lfree) == mem then old(blocks)[i - 1] else old(lfree)
      ensures forall x :: (left ==> x != old(blocks)[i - 1]) ==> Same(x, old(next), next)
    {
      hide Linked, Distinct, Without;
      LinkedAt(blocks, next, prev, i);
      var pmem := prev[mem];
      if i > 0 {
        DistinctAt(blocks, i - 1, i);
      }
      if pmem != mem && !used[pmem] {
        if lfree == mem {
          lfree := pmem;
        }
        LinkedRemove(blocks, next, prev, i - 1);
        next := next[pmem := next[mem]];
        prev := prev[next[mem] := pmem];
        blocks := Without(blocks, i);
      }
    }

    lemma WithoutFront(b: seq<int>, i: nat)
      requires i + 2 < |b|
      ensures var c := Without(b, i + 1); |c| == |b| - 1 && c[i] == b[i] && (i > 0 ==> c[i - 1] == b[i - 1]) && c[i + 1] == b[i + 2]
    {
    }

    /** Freeing takes one pointer away and leaves the others alone. */
    twostate lemma FreeKeeps(m: Joined)
      requires old(Structure()) && Structure() && bytes == old(bytes)
      requires JoinsUnused(old(blocks), old(used), m) && blocks == JoinBlocks(old(blocks), m)
      requires used == old(used)[old(blocks)[m.i] := false]
      requires forall x :: x != old(blocks)[m.i] && x != old(blocks)[JoinAt(m.i, m.left)] ==> Same(x, old(next), next)
      ensures Kept(old(blocks)[m.i] + SZ) && !IsLive(old(blocks)[m.i] + SZ)
      ensures forall q :: IsLive(q) ==> old(IsLive(q))
    {
      hide JoinBlocks, NoFreePair, Linked, Spaced, Distinct;
      var b0 := old(blocks);
      SpacedDistinct(b0, SZ);
      forall q | old(IsLive(q)) && q != b0[m.i] + SZ ensures IsLive(q) && Payload(q) == old(Payload(q)) {
        JoinIn(b0, m, q - SZ);
        var k := IndexOf(b0, q - SZ);
        LinkedAt(b0, old(next), old(prev), k);
        assert Same(q - SZ, old(next), next);
        KeptOne(q);
      }
      forall q | IsLive(q) ensures old(IsLive(q)) {
        JoinIn(b0, m, q - SZ);
      }
    }

    /** rt_free of the block at index `m.i`. */
    method FreeBlock(mem: int, ghost m: Joined)
      requires Valid() && JoinsUnused(blocks, used, m) && blocks[m.i] == mem && used[mem]
      requires mem in next && next[mem] == blocks[m.i + 1]
      modifies this
      ensures Valid() && (old(NoFreeBelow()) ==> NoFreeBelow())
      ensures Kept(mem + SZ) && !IsLive(mem + SZ) && maxMem == old(maxMem) && uses == old(uses) + [usedMem]
      ensures forall q :: IsLive(q) ==> old(IsLive(q))
      ensures usedMem == old(usedMem) - (old(blocks)[m.i + 1] - mem)
    {
      hide Linked, NoFreePair, Spaced, Sum, JoinBlocks, PlugLow, NoneBelow, Kept, IsHighWater;
      Spans();
      SpacedAt(blocks, SZ, m.i, m.i + 1);
      FreeLow(blocks, used, lfree, m);
      JoinAll(blocks, used, memSize + 2 * SZ, SZ, m, 0);
      MarkApart(m);
      used := used[mem := false];
      if mem < lfree {
        lfree := mem;
      }
      Discount(next[mem] - mem);
      PlugHoles(mem, m);
      assert Structure();
      Spans();
      FreeKeeps(m);
    }

    /** Marking the block unused does not change what is known of its neighbours. */
    lemma MarkApart(m: Joined)
      requires BlocksOk(blocks, used, memSize + 2 * SZ, SZ) && JoinsUnused(blocks, used, m) && used[blocks[m.i]]
      ensures var used' := used[blocks[m.i] := false];
              && (forall i :: 0 <= i < |blocks| ==> blocks[i] in used')
              && JoinsUnused(blocks, used', m) && used'[HeapEnd()] && HeapEnd() in used'
    {
      SpacedAt(blocks, SZ, m.i, |blocks| - 1);
      SpacedAt(blocks, SZ, m.i, m.i + 1);
    }

    /** What rt_free will find around the block behind `p`. */
    lemma FreePlan(p: int) returns (m: Joined)
      requires Structure() && IsLive(p)
      ensures JoinsUnused(blocks, used, m) && blocks[m.i] == p - SZ
      ensures p - SZ in next && next[p - SZ] == blocks[m.i + 1] && |Payload(p)| == next[p - SZ] - p
    {
      PayloadInHeap(p);
      var i := IndexOf(blocks, p - SZ);
      LinkedAt(blocks, next, prev, i);
      m := Joined(i, i > 0 && !used[blocks[i - 1]], i + 2 < |blocks| && !used[blocks[i + 1]]);
    }

    /** rt_free */
    method Free(p: int)
      requires Valid() && (p == NULL || IsLive(p))
      modifies this
      ensures Valid() && (old(NoFreeBelow()) ==> NoFreeBelow()) && (old(NonEmpty()) ==> NonEmpty())
      ensures Kept(p) && !IsLive(p) && maxMem == old(maxMem)
      ensures forall q :: IsLive(q) ==> old(IsLive(q))
      ensures p == NULL ==> unchanged(this)
      ensures p != NULL ==> usedMem == old(usedMem) - old(|Payload(p)|) - SZ && uses == old(uses) + [usedMem]
    {
      hide Linked, NoFreePair, Spaced, Sum, JoinsUnused, NoneBelow, BlocksOk, Payload, IsHighWater;
      if p == NULL {
        NullIsDead();
        return;
      }
      ghost var m := FreePlan(p);
      FreeBlock(p - SZ, m);
    }

    lemma NullIsDead()
      requires Structure()
      ensures !IsLive(NULL)
    {
      hide NoFreePair, Linked;
      forall x | x in blocks ensures x >= 0 {
        var i := IndexOf(blocks, x);
        SpacedAt(blocks, SZ, 0, i);
      }
    }

    /** Live payloads lie in the heap and do not overlap each other or a header. */
    lemma LiveDisjoint(p: int, q: int)
      requires Structure() && IsLive(p) && IsLive(q) && p != q
      ensures SZ <= p && p + |Payload(p)| <= HeapEnd()
      ensures p + |Payload(p)| <= q - SZ || q + |Payload(q)| <= p - SZ
    {
      PayloadInHeap(p);
      PayloadInHeap(q);
      var i := IndexOf(blocks, p - SZ);
      var j := IndexOf(blocks, q - SZ);
      LinkedAt(blocks, next, prev, i);
      LinkedAt(blocks, next, prev, j);
    }

    // ---- realloc ----

    /** Shrinking keeps all other payloads. */
    twostate lemma ShrinkOthers(r: Resize)
      requires old(Structure()) && Structure() && CanResize(old(blocks), old(used), r, SZ)
      requires blocks == ResizeBlocks(old(blocks), r) && used == old(used)[r.n := false]
      requires r.n !in if r.joined then Without(old(blocks), r.i + 1) else old(blocks)
      requires forall x :: x != r.n && x != old(blocks)[r.i] ==> Same(x, old(next), next)
      requires forall a :: 0 <= a < |bytes| && !(r.n <= a < r.n + SZ) ==> bytes[a] == old(bytes)[a]
      ensures Kept(old(blocks)[r.i] + SZ)
    {
      hide NoFreePair, Linked, ResizeBlocks, Insert, Without, Distinct, Sum, Payload, ResizeEnd;
      var b0 := old(blocks);
      LinkedDomain(b0, old(next), old(prev));
      forall q | old(IsLive(q)) && q != b0[r.i] + SZ ensures IsLive(q) && Payload(q) == old(Payload(q)) {
        ResizeKeepsOne(b0, old(next), old(used), r, q - SZ, SZ);
        var j := IndexOf(b0, q - SZ);
        LinkedAt(b0, old(next), old(prev), j);
        assert Same(q - SZ, old(next), next);
        LastIs(b0, j);
        ResizeApart(b0, old(used), r, j, SZ);
        KeptOne(q);
      }
    }

    /** Shrinking keeps the front of the payload and all other payloads. */
    twostate lemma ShrinkKeeps(r: Resize)
      requires old(Structure()) && Structure() && CanResize(old(blocks), old(used), r, SZ)
      requires blocks == ResizeBlocks(old(blocks), r) && used == old(used)[r.n := false]
      requires r.n !in if r.joined then Without(old(blocks), r.i + 1) else old(blocks)
      requires r.n + SZ <= old(blocks)[r.i + 1] + SZ
      requires old(blocks)[r.i] in next && next[old(blocks)[r.i]] == r.n
      requires forall x :: x != r.n && x != old(blocks)[r.i] ==> Same(x, old(next), next)
      requires forall a :: 0 <= a < |bytes| && !(r.n <= a < r.n + SZ) ==> bytes[a] == old(bytes)[a]
      ensures Kept(old(blocks)[r.i] + SZ)
      ensures forall q :: IsLive(q) ==> old(IsLive(q))
      ensures Front(old(blocks)[r.i] + SZ, r.n - old(blocks)[r.i] - SZ)
    {
      hide NoFreePair, Linked, ResizeBlocks, Insert, Without, Distinct, Sum, Front, Payload, ResizeEnd, Kept;
      ShrinkOthers(r);
      forall q | IsLive(q) ensures old(IsLive(q)) {
        ResizeOnly(old(blocks), old(used), r, q - SZ, SZ);
      }
      ShrinkFront(r);
    }

    twostate lemma ShrinkFront(r: Resize)
      requires old(Structure()) && Structure() && CanResize(old(blocks), old(used), r, SZ)
      requires blocks == ResizeBlocks(old(blocks), r) && used == old(used)[r.n := false]
      requires r.n + SZ <= old(blocks)[r.i + 1] + SZ
      requires old(blocks)[r.i] in next && next[old(blocks)[r.i]] == r.n
      requires forall a :: 0 <= a < |bytes| && !(r.n <= a < r.n + SZ) ==> bytes[a] == old(bytes)[a]
      ensures Front(old(blocks)[r.i] + SZ, r.n - old(blocks)[r.i] - SZ)
    {
      hide NoFreePair, Linked, Distinct, Sum, Spaced, ResizeBlocks, Insert, Without;
      var h := old(blocks)[r.i];
      LinkedAt(old(blocks), old(next), old(prev), r.i);
      ResizedAt(old(blocks), r);
      assert h in old(blocks);
      NotLast(old(blocks), r.i);
      SpacedAt(old(blocks), SZ, 0, r.i);
      SpacedAt(old(blocks), SZ, r.i + 1, |old(blocks)| - 1);
      PayloadInHeap(h + SZ);
      assert old(IsLive(h + SZ)) && IsLive(h + SZ);
      SameSlice(old(bytes), bytes, h + SZ, r.n);
      SlicePrefix(old(bytes), h + SZ, old(blocks)[r.i + 1], r.n - h - SZ);
    }

    /** The block behind `p` is in use as before, cut down to `size` bytes. */
    twostate predicate Front(p: int, size: nat)
      requires old(Structure()) && Structure()
      reads this`next, this`prev, this`used, this`bytes, this`blocks
    {
      old(IsLive(p)) && IsLive(p) && size <= |old(Payload(p))| && Payload(p) == old(Payload(p))[..size]
    }

    /** The split branch of rt_realloc. */
    method Shrink(ptr: int, n: int, size: int, newSize: int, ghost r: Resize)
      requires Valid() && CanResize(blocks, used, r, SZ) && blocks[r.i] == ptr && r.n == n
      requires n == ptr + SZ + newSize && size == blocks[r.i + 1] - ptr - SZ && n + SZ <= blocks[r.i + 1]
      modifies this
      ensures Valid() && Kept(ptr + SZ) && Front(ptr + SZ, newSize) && maxMem == old(maxMem) && uses == old(uses) + [usedMem]
      ensures forall q :: IsLive(q) ==> old(IsLive(q))
      ensures usedMem == old(usedMem) - (size - newSize)
      ensures old(NoFreeBelow()) ==>
                (NoFreeBelow() <==> old(lfree) < n || (old(lfree) == old(blocks)[r.i + 1] && r.joined))
      ensures lfree == if r.joined && old(lfree) == old(blocks)[r.i + 1] then n else old(lfree)
    {
      hide Linked, NoFreePair, Spaced, Sum, Distinct, NoneBelow, Kept, Front, ResizeBlocks, CanResize;
      hide Insert, Without, JoinBlocks, JoinsUnused, PlugLow, IsHighWater, Inserted;
      Spans();
      ShrinkPlan(r);
      ResizePool(blocks, used, memSize + 2 * SZ, SZ, r, 0);
      ShrinkLow(blocks, used, lfree, r);
      Discount(size - newSize);
      SplitOff(ptr, n, r);
      assert Structure();
      Spans();
      ShrinkKeeps(r);
    }

    /** The links of the split: a new free block at `n`, merged with an unused one behind it. */
    method SplitOff(ptr: int, n: int, ghost r: Resize)
      requires Linked(blocks, next, prev) && Distinct(blocks) && r.i + 1 < |blocks| && blocks[r.i] == ptr && r.n == n
      requires n !in blocks && 0 <= n && n + SZ <= |bytes| && blocks[|blocks| - 1] == HeapEnd()
      requires Inserted(r) && HeapEnd() in used[n := false] && used[n := false][HeapEnd()] && ptr != n
      modifies this`next, this`prev, this`used, this`bytes, this`blocks, this`lfree
      ensures Linked(blocks, next, prev) && blocks == ResizeBlocks(old(blocks), r) && used == old(used)[n := false]
      ensures lfree == if r.joined && old(lfree) == old(blocks)[r.i + 1] then n else old(lfree)
      ensures ptr in next && next[ptr] == n && forall x :: x != n && x != ptr ==> Same(x, old(next), next)
      ensures |bytes| == |old(bytes)| && forall a :: 0 <= a < |bytes| && !(n <= a < n + SZ) ==> bytes[a] == old(bytes)[a]
    {
      hide Linked, Spaced, Distinct, ResizeBlocks, Insert, JoinBlocks, JoinsUnused, PlugLow;
      LinkBehind(ptr, n, r.i);
      ghost var next1 := next;
      PlugHoles(n, Joined(r.i + 1, false, r.joined));
      assert Same(ptr, next1, next);
      forall x | x != n && x != ptr ensures Same(x, old(next), next) {
        assert Same(x, next1, next);
      }
    }

    /** The new free block among its neighbours. */
    lemma ShrinkPlan(r: Resize)
      requires Structure() && CanResize(blocks, used, r, SZ) && r.n + SZ <= blocks[r.i + 1]
      ensures r.i + 1 < |blocks| && r.n !in blocks && 0 <= r.n && r.n + SZ <= |bytes| && Distinct(blocks)
      ensures Inserted(r) && blocks[r.i + 1] <= HeapEnd() && r.n !in Without(blocks, r.i + 1)
      ensures used[blocks[r.i]] && blocks[r.i] + SZ <= r.n && HeapEnd() in used[r.n := false]
               && used[r.n := false][HeapEnd()]
    {
      hide NoFreePair, Linked, Insert, Without, Spaced, ResizeBlocks, JoinBlocks, JoinsUnused, Distinct;
      SpacedDistinct(blocks, SZ);
      BlocksInsert(blocks, used, memSize + 2 * SZ, SZ, r.i, r.n, false);
      SpacedAt(blocks, SZ, 0, r.i);
      SpacedAt(blocks, SZ, r.i + 1, |blocks| - 1);
      WithoutOnly(blocks, r.i + 1, r.n);
      assert blocks[r.i] in blocks && blocks[r.i + 1] in blocks && blocks[|blocks| - 1] in blocks;
      InsertedBlocks(blocks, used, r);
    }

    ghost predicate Inserted(r: Resize)
      requires r.i + 1 < |blocks|
      reads this`used, this`blocks, this`lfree
    {
      var b, used', m := Insert(blocks, r.i, r.n), used[r.n := false], Joined(r.i + 1, false, r.joined);
      && Spaced(b, SZ) && (forall i :: 0 <= i < |b| ==> b[i] in used')
      && JoinsUnused(b, used', m) && b[m.i] == r.n && b[|b| - 1] == HeapEnd()
      && JoinBlocks(b, m) == ResizeBlocks(blocks, r)
      && PlugLow(lfree, b, m) == if r.joined && lfree == blocks[r.i + 1] then r.n else lfree
    }

    /** rt_memcpy of a payload front into another block. */
    method Copy(dst: int, src: int, n: nat)
      requires Valid() && IsLive(dst) && IsLive(src) && dst != src
      requires n <= |Payload(src)| && n <= |Payload(dst)|
      modifies this`bytes
      ensures Valid() && (old(NoFreeBelow()) ==> NoFreeBelow()) && Kept(dst) && IsLive(dst)
      ensures |Payload(dst)| == old(|Payload(dst)|) && Payload(dst)[..n] == old(Payload(src))[..n]
      ensures forall q :: IsLive(q) <==> old(IsLive(q))
      ensures old(NonEmpty()) ==> NonEmpty()
    {
      hide Sum, Linked, NoFreePair, BlocksOk;
      PayloadInHeap(dst);
      PayloadInHeap(src);
      CopiedBytes(bytes, dst, src, n);
      SlicePrefix(bytes, src, src + |Payload(src)|, n);
      bytes := bytes[..dst] + bytes[src..src + n] + bytes[dst + n..];
      PayloadInHeap(dst);
      SlicePrefix(bytes, dst, dst + |Payload(dst)|, n);
      CopyKeeps(dst);
    }

    twostate lemma CopyKeeps(dst: int)
      requires old(Structure()) && Structure() && blocks == old(blocks) && next == old(next) && used == old(used)
      requires old(IsLive(dst))
      requires forall a :: 0 <= a < |bytes| && !(dst <= a < dst + old(|Payload(dst)|)) ==> bytes[a] == old(bytes)[a]
      ensures Kept(dst)
    {
      hide Linked, NoFreePair, BlocksOk;
      forall q | old(IsLive(q)) && q != dst ensures IsLive(q) && Payload(q) == old(Payload(q)) {
        PayloadInHeap(dst);
        PayloadInHeap(q);
        LiveDisjoint(q, dst);
        KeptOne(q);
      }
    }

    /** The block at `p` was charged before the old one of `size` bytes was given back: the mark is
        raised to the use in between, and `uses` has both. */
    twostate predicate MovedTo(p: int, size: nat)
      requires Structure() && IsLive(p)
      reads this
    {
      var between := old(usedMem) + |Payload(p)| + SZ;
      && maxMem == Raised(old(maxMem), between)
      && usedMem == between - size - SZ && uses == old(uses) + [between, usedMem]
    }

    /** The last resort of rt_realloc: allocate, copy what fits, free. */
    method Move(rmem: int, size: nat, newSize: nat) returns (p: int)
      requires Valid() && IsLive(rmem) && size == |Payload(rmem)| && newSize > 0 && memSize >= MIN
      modifies this
      ensures Valid() && (old(NoFreeBelow()) ==> NoFreeBelow()) && (old(NonEmpty()) ==> NonEmpty())
      ensures Kept(rmem)
      ensures p == NULL ==> unchanged(this)
      ensures p == NULL <==> old(NothingFrom(lfree, Request(newSize)))
      ensures p != NULL ==> IsLive(p) && !old(IsLive(p)) && !IsLive(rmem)
      ensures p != NULL ==> newSize <= |Payload(p)|
      ensures p != NULL ==>
                forall a :: 0 <= a < size && a < newSize ==> Payload(p)[a] == old(Payload(rmem))[a]
      ensures forall q :: IsLive(q) && q != p ==> old(IsLive(q))
      ensures p != NULL ==> MovedTo(p, size)
    {
      hide Sum, Linked, NoFreePair, BlocksOk, Payload, NothingFrom, NoneBelow, Fits, IsHighWater, Raised;
      NullIsDead();
      p := Malloc(newSize);
      if p != NULL {
        label L1:
        assert Payload(rmem) == old(Payload(rmem));
        var n := if size < newSize then size else newSize;
        Copy(p, rmem, n);
        label L2:
        assert Payload(p)[..n] == old(Payload(rmem))[..n];
        assert forall a :: 0 <= a < n ==> Payload(p)[a] == Payload(p)[..n][a];
        Free(rmem);
        assert Payload(p) == old@L2(Payload(p));
        forall q | old(IsLive(q)) && q != rmem ensures IsLive(q) && Payload(q) == old(Payload(q)) {
          assert old@L1(IsLive(q)) && old@L1(Payload(q)) == old(Payload(q));
          assert old@L2(IsLive(q)) && old@L2(Payload(q)) == old(Payload(q));
        }
      }
    }

    /** The resize of the block behind `p` down to `newSize` bytes. */
    lemma ShrinkAt(p: int, newSize: nat) returns (r: Resize)
      requires Structure() && IsLive(p) && newSize % 4 == 0
      ensures r.i + 1 < |blocks| && blocks[r.i] == p - SZ && r.n == p + newSize && blocks[r.i + 1] in used
      ensures p - SZ in next && next[p - SZ] == blocks[r.i + 1] && |Payload(p)| == next[p - SZ] - p && p >= SZ
      ensures r.joined <==> r.i + 2 < |blocks| && !used[blocks[r.i + 1]]
      ensures r.n + SZ <= blocks[r.i + 1] ==> CanResize(blocks, used, r, SZ) && r.n !in blocks
      ensures blocks[r.i + 1] == HeapEnd() ==> !r.joined
    {
      hide NoFreePair;
      PayloadInHeap(p);
      var i := IndexOf(blocks, p - SZ);
      LinkedAt(blocks, next, prev, i);
      r := Resize(i, p + newSize, !used[blocks[i + 1]]);
      if r.joined {
        SpacedAt(blocks, SZ, i + 1, i + 2);
      }
      if r.n in blocks {
        var k := IndexOf(blocks, r.n);
        SpacedApart(blocks, SZ, i, k);
      }
    }

    /** rt_realloc */
    method Realloc(rmem: int, newSize: nat) returns (p: int)
      requires Valid() && memSize >= MIN && NonEmpty()
      requires rmem == NULL || IsLive(rmem) || rmem < 0 || rmem >= HeapEnd()
      modifies this
      ensures Valid() && NonEmpty()
      ensures Kept(rmem)
      ensures newSize == 0 ==> p == NULL && !IsLive(rmem)
      ensures Align(newSize) > memSize ==> p == NULL && unchanged(this)
      ensures newSize > 0 && p == NULL ==> unchanged(this)
      ensures 0 < Align(newSize) <= memSize && rmem != NULL && !old(IsLive(rmem)) ==> p == rmem && unchanged(this)
      ensures p != NULL && (rmem == NULL || old(IsLive(rmem))) ==> IsLive(p) && |Payload(p)| >= newSize
      ensures 0 < Align(newSize) <= memSize && old(IsLive(rmem)) ==>
                (p == rmem <==> Align(newSize) == old(|Payload(rmem)|) || Align(newSize) + SZ + MIN < old(|Payload(rmem)|))
      ensures p != NULL && p == rmem && old(IsLive(rmem)) ==> |Payload(p)| == Align(newSize)
      ensures 0 < Align(newSize) <= memSize && (rmem == NULL || (old(IsLive(rmem)) && p != rmem)) ==>
                (p == NULL <==> old(NothingFrom(lfree, Request(Align(newSize)))))
      ensures p != NULL && old(IsLive(rmem)) ==>
                forall a :: 0 <= a < old(|Payload(rmem)|) && a < newSize ==> Payload(p)[a] == old(Payload(rmem))[a]
      ensures p != NULL && p != rmem ==> !old(IsLive(p)) && !IsLive(rmem)
      ensures forall q :: IsLive(q) && q != p ==> old(IsLive(q))
      ensures old(NoFreeBelow()) ==> (NoFreeBelow() <==> !(p == rmem && old(SkipsTail(rmem, Align(newSize)))))
      ensures p == rmem && old(SkipsTail(rmem, Align(newSize))) ==> lfree == old(lfree)
      ensures p != NULL && p != rmem && rmem != NULL ==> MovedTo(p, old(|Payload(rmem)|))
      ensures p != NULL && rmem == NULL ==> maxMem == Raised(old(maxMem), usedMem) && uses == old(uses) + [usedMem]
      ensures p == NULL || p == rmem ==> maxMem == old(maxMem)
      ensures p != NULL && p == rmem && old(IsLive(rmem)) ==>
                usedMem == old(usedMem) - (old(|Payload(rmem)|) - Align(newSize))
                && uses == if usedMem == old(usedMem) then old(uses) else old(uses) + [usedMem]
    {
      hide Sum, Linked, NoFreePair, BlocksOk, NothingFrom, NoneBelow, Fits, CanResize, IsHighWater, Raised;
      hide Payload, Request;
      NullIsDead();
      Outside(rmem);
      var aligned := Align(newSize);
      if aligned > memSize {
        return NULL;
      } else if aligned == 0 {
        if rmem == NULL || (0 <= rmem < HeapEnd()) {
          Free(rmem);
        }
        return NULL;
      }
      if rmem == NULL {
        p := Malloc(aligned);
        NullIsDead();
        return;
      }
      if rmem < 0 || rmem >= HeapEnd() {
        return rmem;
      }
      ghost var r := ShrinkAt(rmem, aligned);
      var ptr := rmem - SZ;
      var size := next[ptr] - ptr - SZ;
      if size == aligned {
        return rmem;
      }
      if aligned + SZ + MIN < size {
        TailSkipped(rmem, aligned, r);
        Shrink(ptr, ptr + SZ + aligned, size, aligned, r);
        return rmem;
      }
      p := Move(rmem, size, aligned);
    }

    /** No block lies outside the heap. */
    lemma Outside(p: int)
      requires Structure() && NonEmpty()
      ensures p < 0 || p >= HeapEnd() ==> !IsLive(p)
    {
      if IsLive(p) {
        PayloadInHeap(p);
        assert |Payload(p)| >= 4;
      }
    }

    lemma TailSkipped(p: int, size: nat, r: Resize)
      requires Structure() && LowOk() && IsLive(p) && size > 0 && size + SZ + MIN < |Payload(p)|
      requires r.i + 1 < |blocks| && blocks[r.i] == p - SZ && r.n == p + size && r.n !in blocks
      requires blocks[r.i + 1] == p + |Payload(p)| && blocks[r.i + 1] in used
      requires (blocks[r.i + 1] == HeapEnd() ==> !r.joined) && (r.joined <==> r.i + 2 < |blocks| && !used[blocks[r.i + 1]])
      ensures SkipsTail(p, size) <==> !(lfree < r.n || (lfree == blocks[r.i + 1] && r.joined))
    {
      if lfree == blocks[r.i + 1] && lfree != HeapEnd() {
        assert r.i + 2 < |blocks|;
      }
    }

    /** A shrink to `size` bytes splits a tail off that lies below the lowest free pointer and is
        not the block the pointer stands on. */
    ghost predicate SkipsTail(p: int, size: nat)
      requires Structure() && LowOk()
      reads this`next, this`prev, this`used, this`bytes, this`blocks, this`lfree
    {
      && IsLive(p) && size > 0 && size + SZ + MIN < |Payload(p)|
      && lfree > p + size
      && !(lfree == p + |Payload(p)| && lfree != HeapEnd())
    }
  }

  /** The one pointer in use is the first in the heap. */
  lemma Alone(heap: Heap, p: int)
    requires heap.Structure() && heap.IsLive(p) && p == SZ && forall q :: heap.IsLive(q) ==> q == p
    ensures 2 <= |heap.blocks| <= 3 && heap.blocks[0] == 0 && heap.blocks[1] == p + |heap.Payload(p)|
    ensures |heap.blocks| == 2 ==> heap.blocks[1] == heap.HeapEnd()
    ensures |heap.blocks| == 3 ==> heap.blocks[2] == heap.HeapEnd() && !heap.used[heap.blocks[1]]
    ensures |heap.blocks| == 3 ==> heap.blocks[1] in heap.next && heap.next[heap.blocks[1]] == heap.blocks[2]
  {
    var b := heap.blocks;
    LinkedAt(b, heap.next, heap.prev, 0);
    LinkedAt(b, heap.next, heap.prev, 1);
    heap.PayloadInHeap(p);
    forall i | 0 < i < |b| - 1 ensures !heap.used[b[i]] {
      SpacedAt(b, SZ, 0, i);
      SpacedAt(b, SZ, i, |b| - 1);
      assert b[i] in b && (heap.used[b[i]] ==> heap.IsLive(b[i] + SZ));
    }
  }

  /** In a new heap of 100 bytes a request for 96 gets the one block there is, and gets it whole. */
  lemma TakesAll(heap: Heap)
    requires heap.memSize == 100 && heap.blocks == [0, 112] && 112 in heap.used && heap.used[112]
    requires 0 in heap.used && !heap.used[0] && 0 in heap.next && heap.next[0] == 112
    ensures !heap.NothingFrom(0, 96) && Request(96) == 96 && Given(heap.Room(0), 96) == 100
    ensures forall x :: x in heap.blocks && heap.Fits(x, 96) ==> x == 0
  {
    assert 0 in heap.blocks && heap.Fits(0, 96);
  }

  /** With that one block in use the pointer is at the end of the heap. */
  lemma LowAtEnd(heap: Heap, p: int)
    requires heap.Structure() && heap.LowOk() && heap.IsLive(p) && p == SZ && forall q :: heap.IsLive(q) ==> q == p
    requires p + |heap.Payload(p)| == heap.HeapEnd() && |heap.Payload(p)| == 100
    ensures heap.lfree == heap.HeapEnd() && heap.SkipsTail(p, 4)
  {
    Alone(heap, p);
  }

  /** After the shrink a free block lies below the pointer, and nothing from it on. */
  lemma TailLost(heap: Heap, p: int)
    requires heap.Structure() && heap.IsLive(p) && p == SZ && forall q :: heap.IsLive(q) ==> q == p
    requires |heap.Payload(p)| == 4 && heap.memSize == 100 && heap.lfree == heap.HeapEnd()
    ensures Request(4) == 12 && heap.NothingFrom(heap.lfree, 12) && !heap.NothingFrom(0, 12)
  {
    Alone(heap, p);
    assert heap.blocks[1] in heap.blocks && heap.Fits(heap.blocks[1], 12);
  }

  /** A run that loses the shortcut: one block takes the whole heap and is shrunk, and then a
      request fails although the block split off has room for it. */
  method ShrinkLosesLow() returns (heap: Heap, p: int, q: int)
    ensures fresh(heap) && heap.Valid() && heap.IsLive(p)
    ensures !heap.NoFreeBelow() && !heap.NothingFrom(0, Request(4)) && q == NULL
  {
    hide BlocksOk, NoFreePair, Linked, Sum, IsHighWater, Raised, Request, Given, Spaced;
    heap := new Heap(100);
    TakesAll(heap);
    p := heap.Malloc(96);
    LowAtEnd(heap, p);
    var p1 := heap.Realloc(p, 4);
    assert Align(4) == 4;
    TailLost(heap, p);
    q := heap.Malloc(4);
  }

  /** A new free block behind used block `r.i` is joined to an unused block behind it, and that
      is the resize. */
  lemma InsertedBlocks(b: seq<int>, used: map<int, bool>, r: Resize)
    requires r.i + 1 < |b| && (forall i :: 0 <= i < |b| ==> b[i] in used) && r.n !in b
    requires used[b[r.i]] && (r.joined <==> !used[b[r.i + 1]]) && (r.joined ==> r.i + 2 < |b|)
    ensures var c, used', m := Insert(b, r.i, r.n), used[r.n := false], Joined(r.i + 1, false, r.joined);
            && |c| == |b| + 1 && (forall i :: 0 <= i < |c| ==> c[i] in used') && JoinsUnused(c, used', m)
            && c[m.i] == r.n && c[m.i + 1] == b[r.i + 1]
            && JoinBlocks(c, m) == ResizeBlocks(b, r)
  {
    var c, used' := Insert(b, r.i, r.n), used[r.n := false];
    InsertSwap(b, r.i, r.n);
    assert b[r.i] in b && b[r.i + 1] in b;
    forall i | 0 <= i < |c| ensures c[i] in used' {
      InsertAt(b, r.i, r.n, i);
    }
  }
}
