/**
 The memory heap of memheap.c: a pool of blocks, each behind a header, linked in address order
 through `next` and `prev` and closed by a used tailer; the unused blocks are linked a second
 time, in the free list.  Addresses count from the start of the pool.
 */
module MemHeap {
  import opened Words
  import opened Ring
  import opened Tiling
  import opened Blocks
  import opened HighWater

  /** RT_MEMHEAP_SIZE: six words. */
  const HDR: nat := 24
  /** RT_MEMHEAP_MINIALLOC */
  const MINIALLOC: nat := 12
  /** The free list header lies outside the pool. */
  const LISTHEAD: int := -1
  const NULL: int := -2

  /** The payload size that serves a request. */
  function Request(size: nat): (r: nat)
    ensures r >= size && r >= MINIALLOC && r % 4 == 0
  {
    if Align(size) < MINIALLOC then MINIALLOC else Align(size)
  }

  /** It is the smallest one that is aligned and large enough. */
  lemma RequestLeast(size: nat, n: nat)
    requires n >= size && n >= MINIALLOC && n % 4 == 0
    ensures Request(size) <= n
  {
  }

  /** A block taken whole: its index and its size. */
  datatype Taken = Taken(i: nat, size: nat)

  /** What an allocation takes from the available bytes, the block found having `room` bytes: it is
      cut if its tail can be a block. */
  function Charge(room: int, req: nat): int {
    if room >= req + HDR + MINIALLOC then req + HDR else room
  }

  lemma RequestAligned(size: nat)
    ensures Request(size) > 0 && Request(size) % 4 == 0
  {
  }

  lemma RequestTwice(size: nat)
    ensures Request(Request(size)) == Request(size)
  {
  }

  // ---- the invariant, field by field ----

  /** The free list holds exactly the unused blocks. */
  ghost predicate FreeOk(b: seq<int>, free: seq<int>, used: map<int, bool>) {
    && (forall x {:trigger x in free} :: x in free ==> x in b && x in used && !used[x])
    && (forall x {:trigger x in b} :: x in b && x in used && !used[x] ==> x in free)
  }

  lemma TailDistinct(x: int, l: seq<int>)
    requires Distinct([x] + l)
    ensures Distinct(l)
  {
    var c := [x] + l;
    forall i, j | 0 <= i < j < |l| ensures l[i] != l[j] {
      assert c[i + 1] == l[i] && c[j + 1] == l[j];
    }
  }

  /** A free block `i` is allocated and its tail from `n` on becomes a free block. */
  lemma SplitAlloc(b: seq<int>, free: seq<int>, used: map<int, bool>, poolSize: nat, i: nat, k: nat, n: int)
    requires BlocksOk(b, used, poolSize, HDR) && FreeOk(b, free, used) && NoFreePair(b, used) && Distinct(free)
    requires i + 1 < |b| && k < |free| && free[k] == b[i]
    requires b[i] + HDR <= n && n + HDR <= b[i + 1] && n % 4 == 0
    ensures var b', free', used' := Insert(b, i, n), [n] + Without(free, k), used[n := false][b[i] := true];
            && n !in b && n !in free
            && BlocksOk(b', used', poolSize, HDR) && FreeOk(b', free', used') && NoFreePair(b', used')
            && Sum(b', used', false, HDR) == Sum(b, used, false, HDR) - (n - b[i])
  {
    hide NoFreePair, Sum, Spaced, Distinct, Without, Insert;
    assert free[k] in free;
    CutBlock(b, used, poolSize, HDR, i, n, HDR);
    InsertIn(b, i, n);
    WithoutIn(free, k);
  }

  /** A free block is allocated whole. */
  lemma WholeAlloc(b: seq<int>, free: seq<int>, used: map<int, bool>, poolSize: nat, i: nat, k: nat)
    requires BlocksOk(b, used, poolSize, HDR) && FreeOk(b, free, used) && NoFreePair(b, used) && Distinct(free)
    requires i + 1 < |b| && k < |free| && free[k] == b[i]
    ensures var free', used' := Without(free, k), used[b[i] := true];
            && BlocksOk(b, used', poolSize, HDR) && FreeOk(b, free', used') && NoFreePair(b, used')
            && Sum(b, used', false, HDR) == Sum(b, used, false, HDR) - (b[i + 1] - b[i] - HDR)
  {
    hide NoFreePair, Sum, Spaced, Distinct, Without;
    assert free[k] in free;
    WithoutIn(free, k);
    TakeBlock(b, used, poolSize, HDR, i, HDR);
  }

  lemma NotNull(b: seq<int>, used: map<int, bool>, poolSize: nat)
    requires BlocksOk(b, used, poolSize, HDR)
    ensures NULL !in b && LISTHEAD !in b && NULL - HDR !in b
  {
    forall x | x in b ensures x >= 0 {
      var i := IndexOf(b, x);
      assert i > 0 ==> b[0] + HDR <= b[i];
    }
  }

  /** Block `i` is cut at address `n`. */
  datatype Cut = Cut(i: nat, n: int)

  /** The free list after block `h` was freed; `k` is where its right neighbour was. */
  ghost function JoinFree(free: seq<int>, h: int, m: Joined, k: nat): seq<int>
    requires m.right ==> k < |free|
  {
    var f := if m.right then Without(free, k) else free;
    if m.left then f else [h] + f
  }

  /** A freed block that does not join the one below it is the first in the free list. */
  lemma FreedFirst(free: seq<int>, h: int, m: Joined, k: nat)
    requires m.right ==> k < |free|
    ensures !m.left ==> JoinFree(free, h, m, k) == [h] + if m.right then Without(free, k) else free
    ensures !m.left ==> JoinFree(free, h, m, k)[0] == h
  {
  }

  /** The free list after freeing and joining holds the unused blocks. */
  lemma JoinFreeOk(b: seq<int>, free: seq<int>, used: map<int, bool>, m: Joined, k: nat)
    requires (forall i :: 0 <= i < |b| ==> b[i] in used) && Distinct(b) && Distinct(free) && FreeOk(b, free, used)
    requires JoinsUnused(b, used, m) && used[b[m.i]] && (m.right ==> k < |free| && free[k] == b[m.i + 1])
    ensures FreeOk(JoinBlocks(b, m), JoinFree(free, b[m.i], m, k), used[b[m.i] := false])
  {
    hide Distinct, JoinBlocks, Without;
    var h, b', free', used' := b[m.i], JoinBlocks(b, m), JoinFree(free, b[m.i], m, k), used[b[m.i] := false];
    if m.right {
      WithoutIn(free, k);
    }
    DistinctAt(b, m.i, m.i + 1);
    assert h in b;
    forall x ensures x in free' <==> x in b' && x in used' && !used'[x] {
      JoinIn(b, m, x);
    }
  }

  /** Freeing block `m.i` and joining it to its unused neighbours keeps the whole structure. */
  lemma FreeAll(b: seq<int>, free: seq<int>, used: map<int, bool>, poolSize: nat, m: Joined, k: nat)
    requires BlocksOk(b, used, poolSize, HDR) && FreeOk(b, free, used) && NoFreePair(b, used) && Distinct(free)
    requires JoinsUnused(b, used, m) && used[b[m.i]] && (m.right ==> k < |free| && free[k] == b[m.i + 1])
    ensures var b', free', used' := JoinBlocks(b, m), JoinFree(free, b[m.i], m, k), used[b[m.i] := false];
            && BlocksOk(b', used', poolSize, HDR) && NoFreePair(b', used') && FreeOk(b', free', used')
            && Sum(b', used', false, HDR)
               == Sum(b, used, false, HDR) + (b[m.i + 1] - b[m.i] - HDR)
                + (if m.left then HDR else 0) + (if m.right then HDR else 0)
  {
    hide Sum, Spaced, JoinBlocks, JoinFree, NoFreePair, FreeOk, Distinct;
    SpacedDistinct(b, HDR);
    JoinAll(b, used, poolSize, HDR, m, HDR);
    JoinFreeOk(b, free, used, m, k);
  }

  ghost function ResizeFree(free: seq<int>, r: Resize, k: nat): seq<int>
    requires r.joined ==> k < |free|
  {
    [r.n] + if r.joined then Without(free, k) else free
  }

  lemma ResizeFreeOk(b: seq<int>, free: seq<int>, used: map<int, bool>, r: Resize, k: nat)
    requires (forall i :: 0 <= i < |b| ==> b[i] in used) && FreeOk(b, free, used) && CanResize(b, used, r, HDR)
    requires Distinct(free) && Distinct(b) && (r.joined ==> k < |free| && free[k] == b[r.i + 1])
    requires r.n !in if r.joined then Without(b, r.i + 1) else b
    ensures FreeOk(ResizeBlocks(b, r), ResizeFree(free, r, k), used[r.n := false])
    ensures r.n !in if r.joined then Without(free, k) else free
  {
    hide Distinct, Insert, Without;
    WithoutIn(b, r.i + 1);
    InsertIn(if r.joined then Without(b, r.i + 1) else b, r.i, r.n);
    if r.joined {
      WithoutIn(free, k);
    }
  }

  /** Resizing keeps the whole structure. */
  lemma ResizeAll(b: seq<int>, free: seq<int>, used: map<int, bool>, poolSize: nat, r: Resize, k: nat)
    requires BlocksOk(b, used, poolSize, HDR) && FreeOk(b, free, used) && NoFreePair(b, used) && Distinct(free)
    requires CanResize(b, used, r, HDR) && (r.joined ==> k < |free| && free[k] == b[r.i + 1])
    ensures r.n !in if r.joined then Without(b, r.i + 1) else b
    ensures r.n !in if r.joined then Without(free, k) else free
    ensures var b', free', used' := ResizeBlocks(b, r), ResizeFree(free, r, k), used[r.n := false];
            && BlocksOk(b', used', poolSize, HDR) && NoFreePair(b', used') && FreeOk(b', free', used')
            && Sum(b', used', false, HDR) == Sum(b, used, false, HDR) + (ResizeEnd(b, r) - r.n - HDR)
                 - if r.joined then ResizeEnd(b, r) - b[r.i + 1] - HDR else 0
  {
    hide NoFreePair, FreeOk, Distinct, Without, ResizeBlocks, Sum;
    SpacedDistinct(b, HDR);
    ResizePool(b, used, poolSize, HDR, r, HDR);
    ResizeFreeOk(b, free, used, r, k);
  }

  class Heap {
    const poolSize: nat
    var available: int
    var maxUsed: int
    var next: Links
    var prev: Links
    var nextFree: Links
    var prevFree: Links
    /** The RT_MEMHEAP_USED bit of each header's magic. */
    var used: map<int, bool>
    var bytes: seq<byte>

    ghost var blocks: seq<int>
    ghost var free: seq<int>
    /** All values that `poolSize - available` has had, in order. */
    ghost var uses: seq<int>

    /** The two lists and the memory they run through. */
    ghost predicate Structure()
      reads this
    {
      && IsRing(blocks, next, prev) && IsRing([LISTHEAD] + free, nextFree, prevFree)
      && BlocksOk(blocks, used, poolSize, HDR) && FreeOk(blocks, free, used) && NoFreePair(blocks, used)
      && |bytes| == poolSize
    }

    ghost predicate Valid()
      reads this
    {
      && Structure()
      && available == Sum(blocks, used, false, HDR)
      && IsHighWater(uses, maxUsed, poolSize - available)
    }

    /** The pointers in the hands of the program. */
    ghost predicate IsLive(p: int)
      requires Structure()
      reads this
    {
      p - HDR in blocks && used[p - HDR] && p - HDR != poolSize - HDR
    }

    ghost function Payload(p: int): seq<byte>
      requires Structure() && IsLive(p)
      reads this
    {
      PayloadInPool(p);
      bytes[p..next[p - HDR]]
    }

    lemma PayloadInPool(p: int)
      requires Structure() && p - HDR in blocks && p - HDR != poolSize - HDR
      ensures p - HDR in next && 0 <= p <= next[p - HDR] <= poolSize
      ensures next[p - HDR] in blocks
    {
      var i := IndexOf(blocks, p - HDR);
      Neighbours(blocks, next, prev, i);
      assert blocks[i] + HDR <= blocks[i + 1] && blocks[i + 1] <= blocks[|blocks| - 1];
    }

    /** No live block has lost its place, its size or a byte of its payload, except `p`. */
    twostate predicate Kept(p: int)
      requires old(Structure()) && Structure()
      reads this
    {
      forall q :: old(IsLive(q)) && q != p ==> IsLive(q) && Payload(q) == old(Payload(q))
    }

    /** rt_memheap_init: one free block and the tailer. */
    constructor (size: nat)
      requires AlignDown(size) >= 2 * HDR
      ensures Valid() && poolSize == AlignDown(size)
      ensures available == poolSize - 2 * HDR && uses == [2 * HDR] && blocks == [0, poolSize - HDR] && free == [0]
      ensures forall p :: !IsLive(p)
    {
      poolSize := AlignDown(size);
      var pool := AlignDown(size);
      available := pool - 2 * HDR;
      maxUsed := pool - (pool - 2 * HDR);
      var tail := pool - 2 * HDR + HDR;
      next, prev := map[0 := tail, tail := 0], map[0 := tail, tail := 0];
      nextFree := map[LISTHEAD := 0, 0 := LISTHEAD];
      prevFree := map[LISTHEAD := 0, 0 := LISTHEAD];
      used := map[0 := false, tail := true];
      var memory := new byte[pool];
      bytes := memory[..];
      blocks, free, uses := [0, tail], [0], [2 * HDR];
      new;
      assert [LISTHEAD] + free == [LISTHEAD, 0];
      assert Sum(blocks, used, false, HDR) == pool - 2 * HDR + Sum([tail], used, false, HDR) by {
        assert blocks[1..] == [tail];
      }
    }

    // ---- the link operations the functions are made of ----

    /** Takes a block out of the free list. */
    method UnlinkFree(x: int, ghost k: nat)
      requires IsRing([LISTHEAD] + free, nextFree, prevFree) && k < |free| && free[k] == x
      modifies this`nextFree, this`prevFree, this`free
      ensures free == Without(old(free), k) && IsRing([LISTHEAD] + free, nextFree, prevFree)
    {
      ghost var l := [LISTHEAD] + free;
      RemoveRing(l, nextFree, prevFree, k + 1);
      Neighbours(l, nextFree, prevFree, k + 1);
      assert Without(l, k + 1) == [LISTHEAD] + Without(free, k);
      prevFree := prevFree[nextFree[x] := prevFree[x]];
      nextFree := nextFree[prevFree[x] := nextFree[x]];
      free := Without(free, k);
    }

    /** Puts a block at the front of the free list. */
    method PushFree(x: int)
      requires IsRing([LISTHEAD] + free, nextFree, prevFree) && x !in free && x != LISTHEAD
      modifies this`nextFree, this`prevFree, this`free
      ensures free == [x] + old(free) && IsRing([LISTHEAD] + free, nextFree, prevFree)
    {
      ghost var l := [LISTHEAD] + free;
      InsertRing(l, nextFree, prevFree, 0, x);
      Neighbours(l, nextFree, prevFree, 0);
      assert Insert(l, 0, x) == [LISTHEAD] + ([x] + free);
      ghost var s := nextFree[LISTHEAD];
      ghost var n1, p1 := nextFree[x := s][LISTHEAD := x], prevFree[s := x][x := LISTHEAD];
      nextFree := nextFree[x := nextFree[LISTHEAD]];
      prevFree := prevFree[x := LISTHEAD];
      prevFree := prevFree[nextFree[LISTHEAD] := x];
      nextFree := nextFree[LISTHEAD := x];
      assert prevFree == p1;
      free := [x] + free;
    }

    /** Links a new header behind block `h`. */
    method LinkBlock(h: int, n: int, ghost i: nat)
      requires IsRing(blocks, next, prev) && i < |blocks| && blocks[i] == h && n !in blocks
      modifies this`next, this`prev, this`blocks
      ensures blocks == Insert(old(blocks), i, n) && IsRing(blocks, next, prev)
      ensures h in old(next) && next == old(next)[n := old(next)[h]][h := n]
    {
      InsertRing(blocks, next, prev, i, n);
      Neighbours(blocks, next, prev, i);
      ghost var s := next[h];
      ghost var p1 := prev[s := n][n := h];
      prev := prev[n := h];
      next := next[n := next[h]];
      prev := prev[next[h] := n];
      next := next[h := n];
      assert prev == p1;
      blocks := Insert(blocks, i, n);
    }

    /** Takes the header behind block `h` out of the block list. */
    method UnlinkBlock(x: int, ghost i: nat)
      requires IsRing(blocks, next, prev) && i + 1 < |blocks| && blocks[i + 1] == x
      modifies this`next, this`prev, this`blocks
      ensures blocks == Without(old(blocks), i + 1) && IsRing(blocks, next, prev)
      ensures x in old(next) && next == old(next)[old(blocks)[i] := old(next)[x]]
    {
      RemoveRing(blocks, next, prev, i + 1);
      Neighbours(blocks, next, prev, i + 1);
      prev := prev[next[x] := prev[x]];
      next := next[prev[x] := next[x]];
      blocks := Without(blocks, i + 1);
    }

    /** Builds an unused header in the pool: what was in its bytes is gone. */
    method NewHeader(n: int)
      requires 0 <= n && n + HDR <= |bytes|
      modifies this`used, this`bytes
      ensures used == old(used)[n := false] && |bytes| == |old(bytes)|
      ensures forall a :: 0 <= a < |bytes| && !(n <= a < n + HDR) ==> bytes[a] == old(bytes)[a]
    {
      var image := new byte[HDR];
      bytes := bytes[..n] + image[..] + bytes[n + HDR..];
      used := used[n := false];
    }

    /** The size the code computes for a block: MEMITEM_SIZE. */
    function ItemSize(x: int): int
      requires x in next
      reads this
    {
      next[x] - x - HDR
    }

    lemma FreeAt(k: nat) returns (i: nat)
      requires Valid() && k < |free|
      ensures i + 1 < |blocks| && blocks[i] == free[k] && !used[free[k]] && free[k] in next
      ensures next[free[k]] == blocks[i + 1]
      ensures k + 1 < |free| ==> free[k] in nextFree && nextFree[free[k]] == free[k + 1]
      ensures k + 1 == |free| ==> free[k] in nextFree && nextFree[free[k]] == LISTHEAD
    {
      assert free[k] in free;
      i := IndexOf(blocks, free[k]);
      Neighbours(blocks, next, prev, i);
      Neighbours([LISTHEAD] + free, nextFree, prevFree, k + 1);
    }

    /** The search of rt_memheap_alloc: the first block of the free list that is large enough. */
    method FindFit(size: nat) returns (h: int, freeSize: int, ghost k: nat)
      requires Valid() && size > 0
      ensures k <= |free|
      ensures forall j :: 0 <= j < k ==> free[j] in next && ItemSize(free[j]) < size
      ensures k < |free| ==> h == free[k] && h in next && freeSize == ItemSize(h) && freeSize >= size
      ensures k == |free| ==> freeSize < size
    {
      freeSize := 0;
      k := 0;
      Neighbours([LISTHEAD] + free, nextFree, prevFree, 0);
      h := nextFree[LISTHEAD];
      while h != LISTHEAD && freeSize < size
        invariant k <= |free| && h == if k < |free| then free[k] else LISTHEAD
        invariant forall j :: 0 <= j < k ==> free[j] in next && ItemSize(free[j]) < size
        invariant freeSize >= size ==> k < |free| && h in next && freeSize == ItemSize(h)
        decreases |free| - k, if freeSize < size then 1 else 0
      {
        ghost var i := FreeAt(k);
        freeSize := ItemSize(h);
        if freeSize < size {
          h := nextFree[h];
          k := k + 1;
        }
      }
      if k < |free| {
        ghost var i := FreeAt(k);
        assert blocks[0] <= blocks[i];
      }
    }

    /** A live pointer whose header and neighbour are untouched keeps its payload. */
    twostate lemma KeptOne(q: int)
      requires old(Structure()) && Structure() && old(IsLive(q))
      requires q - HDR in blocks && used[q - HDR]
      requires next[q - HDR] == old(next)[q - HDR]
      requires forall a :: q <= a < next[q - HDR] && 0 <= a < poolSize ==> bytes[a] == old(bytes)[a]
      ensures IsLive(q) && Payload(q) == old(Payload(q))
    {
      PayloadInPool(q);
    }

    /** The pointer `p` is new, is the only new one, and comes from the first block of the free
        list that fits. */
    twostate predicate Granted(p: int, size: nat)
      requires old(Valid()) && Valid()
      reads this
    {
      && IsLive(p) && !old(IsLive(p)) && p % 4 == 0
      && (forall q :: IsLive(q) && q != p ==> old(IsLive(q)))
      && exists k: nat :: TakenAt(k, p, Request(size))
    }

    /** The block at index `k` of the free list was the first fit for `req` bytes: it is cut, and
        its tail comes first in the free list, if the tail can be a block; else it is taken whole. */
    twostate predicate TakenAt(k: nat, p: int, req: nat)
      requires old(Valid()) && Valid() && IsLive(p)
      reads this
    {
      && FirstFit(k, req) && old(free)[k] == p - HDR
      && available == old(available) - old(Charge(ItemSize(free[k]), req))
      && if old(ItemSize(free[k])) >= req + HDR + MINIALLOC
         then |Payload(p)| == req && free == [p + req] + Without(old(free), k)
         else |Payload(p)| == old(ItemSize(free[k])) && free == Without(old(free), k)
    }

    twostate predicate FirstFit(k: nat, size: nat)
      requires old(Valid())
      reads this
    {
      && k < |old(free)| && old(free)[k] in old(next) && old(ItemSize(free[k])) >= size
      && forall j :: 0 <= j < k ==> old(free)[j] in old(next) && old(ItemSize(free[j])) < size
    }

    /** The high-water mark follows the bytes in use. */
    method RaiseMax()
      modifies this`maxUsed, this`uses
      ensures maxUsed == Raised(old(maxUsed), poolSize - available) && Noted()
    {
      if poolSize - available > maxUsed {
        maxUsed := poolSize - available;
      }
      uses := uses + [poolSize - available];
    }

    /** The present use is the one new entry of the history. */
    twostate predicate Noted()
      reads this`uses, this`available
    {
      uses == old(uses) + [poolSize - available]
    }

    /** The split branch of rt_memheap_alloc, but for the byte count. */
    method SplitFree(h: int, n: int, ghost i: nat, ghost k: nat)
      requires Structure() && i + 1 < |blocks| && k < |free| && free[k] == h == blocks[i]
      requires h in next && h + HDR <= n && n + HDR <= next[h] == blocks[i + 1] && n % 4 == 0
      modifies this`next, this`prev, this`nextFree, this`prevFree, this`used, this`bytes, this`blocks, this`free
      ensures Structure()
      ensures SplitAt(i, n) && free == [n] + Without(old(free), k)
      ensures used == old(used)[n := false][h := true]
      ensures Sum(blocks, used, false, HDR) == Sum(old(blocks), old(used), false, HDR) - (n - h)
    {
      TailDistinct(LISTHEAD, free);
      SplitAlloc(blocks, free, used, poolSize, i, k, n);
      assert blocks[i + 1] <= blocks[|blocks| - 1];
      SplitLinks(h, n, i, k);
    }

    /** The link surgery of the split branch. */
    method SplitLinks(h: int, n: int, ghost i: nat, ghost k: nat)
      requires IsRing(blocks, next, prev) && IsRing([LISTHEAD] + free, nextFree, prevFree)
      requires i < |blocks| && blocks[i] == h && n !in blocks
      requires k < |free| && free[k] == h && n !in free && 0 <= n && n + HDR <= |bytes|
      modifies this`next, this`prev, this`nextFree, this`prevFree, this`used, this`bytes, this`blocks, this`free
      ensures IsRing(blocks, next, prev) && IsRing([LISTHEAD] + free, nextFree, prevFree)
      ensures blocks == Insert(old(blocks), i, n) && free == [n] + Without(old(free), k)
      ensures used == old(used)[n := false][h := true]
      ensures h in old(next) && next == old(next)[n := old(next)[h]][h := n]
      ensures |bytes| == |old(bytes)|
      ensures forall a :: 0 <= a < |bytes| && !(n <= a < n + HDR) ==> bytes[a] == old(bytes)[a]
    {
      NewHeader(n);
      LinkBlock(h, n, i);
      UnlinkFree(h, k);
      PushFree(n);
      used := used[h := true];
    }

    /** Block `i` was cut at `n`, where a free block now starts; no byte outside its header changed. */
    twostate predicate SplitAt(i: nat, n: int)
      reads this
    {
      && i + 1 < |old(blocks)| && old(blocks)[i] in old(next)
      && old(blocks)[i] + HDR <= n && n + HDR <= old(blocks)[i + 1]
      && blocks == Insert(old(blocks), i, n)
      && next == old(next)[n := old(next)[old(blocks)[i]]][old(blocks)[i] := n]
      && n in used && !used[n] && |bytes| == |old(bytes)|
      && forall a :: 0 <= a < |bytes| && !(n <= a < n + HDR) ==> bytes[a] == old(bytes)[a]
    }

    /** Cutting a block leaves all others alone. */
    twostate lemma SplitKeeps(cut: Cut)
      requires old(Structure()) && Structure() && SplitAt(cut.i, cut.n)
      requires used == old(used)[cut.n := false][old(blocks)[cut.i] := true]
      ensures Kept(old(blocks)[cut.i] + HDR)
      ensures forall q :: IsLive(q) && q != old(blocks)[cut.i] + HDR ==> old(IsLive(q))
    {
      hide NoFreePair, FreeOk, Sum, Spaced, Distinct, Insert;
      InsideIsNew(old(blocks), HDR, cut.i, cut.n);
      InsertIn(old(blocks), cut.i, cut.n);
      forall q | old(IsLive(q)) && q != old(blocks)[cut.i] + HDR
        ensures IsLive(q) && Payload(q) == old(Payload(q))
      {
        var k := IndexOf(old(blocks), q - HDR);
        Neighbours(old(blocks), old(next), old(prev), k);
        SpacedApart(old(blocks), HDR, k, cut.i);
        KeptOne(q);
      }
    }

    /** The whole-block branch of rt_memheap_alloc, but for the byte count. */
    method TakeFree(h: int, ghost i: nat, ghost k: nat)
      requires Structure() && i + 1 < |blocks| && k < |free| && free[k] == h == blocks[i]
      modifies this`nextFree, this`prevFree, this`used, this`free
      ensures Structure()
      ensures used == old(used)[h := true] && free == Without(old(free), k)
      ensures Sum(blocks, used, false, HDR) == Sum(old(blocks), old(used), false, HDR) - (blocks[i + 1] - h - HDR)
    {
      TailDistinct(LISTHEAD, free);
      WholeAlloc(blocks, free, used, poolSize, i, k);
      UnlinkFree(h, k);
      used := used[h := true];
    }

    twostate lemma TakeKeeps(h: int)
      requires old(Structure()) && Structure() && blocks == old(blocks) && next == old(next) && bytes == old(bytes)
      requires h in old(used) && !old(used)[h] && used == old(used)[h := true]
      ensures Kept(NULL)
      ensures forall q :: IsLive(q) && q != h + HDR ==> old(IsLive(q))
    {
      forall q | old(IsLive(q)) ensures IsLive(q) && Payload(q) == old(Payload(q)) {
        KeptOne(q);
      }
    }

    /** The effect of either branch on the pointers in use: `h + HDR` is new, with `size` bytes. */
    twostate predicate Served(h: int, size: int)
      requires old(Structure()) && Structure()
      reads this
    {
      && IsLive(h + HDR) && !old(IsLive(h + HDR)) && (h + HDR) % 4 == 0 && |Payload(h + HDR)| == size
      && (forall q :: IsLive(q) && q != h + HDR ==> old(IsLive(q)))
      && Kept(NULL)
    }

    /** The first `k` free blocks being too small, the block is cut for the request. */
    method AllocSplit(h: int, size: nat, ghost i: nat, ghost k: nat)
      requires Valid() && i + 1 < |blocks| && k < |free| && free[k] == h == blocks[i] && h in used && !used[h]
      requires h in next && next[h] == blocks[i + 1] && size % 4 == 0
      requires ItemSize(h) >= size + HDR + MINIALLOC
      modifies this
      ensures Valid() && Served(h, size) && free == [h + HDR + size] + Without(old(free), k)
      ensures available == old(available) - size - HDR
      ensures maxUsed == Raised(old(maxUsed), poolSize - available) && Noted()
    {
      hide Sum, IsRing, NoFreePair, FreeOk, Distinct, Spaced, Served, IsHighWater, Raised;
      MarkStep(uses, maxUsed, poolSize - available, poolSize - available + size + HDR);
      SplitFree(h, h + size + HDR, i, k);
      available := available - size - HDR;
      RaiseMax();
      SplitServes(Cut(i, h + size + HDR));
    }

    twostate lemma SplitServes(cut: Cut)
      requires old(Structure()) && Structure() && SplitAt(cut.i, cut.n)
      requires old(blocks)[cut.i] in old(used) && !old(used)[old(blocks)[cut.i]]
      requires used == old(used)[cut.n := false][old(blocks)[cut.i] := true]
      ensures Served(old(blocks)[cut.i], cut.n - old(blocks)[cut.i] - HDR)
    {
      SplitKeeps(cut);
      assert blocks[cut.i] == old(blocks)[cut.i];
      NewPayload(cut.i, cut.n - blocks[cut.i] - HDR);
    }

    twostate lemma TakeServes(g: Taken)
      requires old(Structure()) && Structure() && blocks == old(blocks) && next == old(next) && bytes == old(bytes)
      requires g.i + 1 < |blocks| && blocks[g.i] in old(used) && !old(used)[blocks[g.i]]
      requires used == old(used)[blocks[g.i] := true]
      requires blocks[g.i] in next && next[blocks[g.i]] == blocks[g.i] + HDR + g.size
      ensures Served(blocks[g.i], g.size)
    {
      hide Sum, IsRing, NoFreePair, FreeOk, Distinct, Spaced;
      TakeKeeps(blocks[g.i]);
      NewPayload(g.i, g.size);
    }

    method AllocWhole(h: int, freeSize: nat, ghost i: nat, ghost k: nat)
      requires Valid() && i + 1 < |blocks| && k < |free| && free[k] == h == blocks[i] && h in used && !used[h]
      requires h in next && next[h] == blocks[i + 1] && freeSize == ItemSize(h)
      modifies this
      ensures Valid() && Served(h, freeSize) && free == Without(old(free), k)
      ensures available == old(available) - freeSize
      ensures maxUsed == Raised(old(maxUsed), poolSize - available) && Noted()
    {
      hide Sum, IsRing, NoFreePair, FreeOk, Distinct, Spaced, Served, IsHighWater, Raised;
      MarkStep(uses, maxUsed, poolSize - available, poolSize - available + freeSize);
      TakeFree(h, i, k);
      available := available - freeSize;
      RaiseMax();
      TakeServes(Taken(i, freeSize));
    }

    /** rt_memheap_alloc will fail on a request for `req` bytes. */
    ghost predicate NoRoom(req: nat)
      reads this
    {
      req >= available || forall x :: x in free ==> x in next && ItemSize(x) < req
    }

    /** rt_memheap_alloc */
    method Alloc(size: nat) returns (p: int)
      requires Valid()
      modifies this
      ensures Valid() && Kept(NULL)
      ensures p == NULL <==> old(NoRoom(Request(size)))
      ensures p == NULL ==> unchanged(this)
      ensures p != NULL ==> Granted(p, size) && |Payload(p)| >= Request(size)
      ensures p != NULL ==> maxUsed == Raised(old(maxUsed), poolSize - available) && Noted()
    {
      hide Sum, IsRing, NoFreePair, FreeOk, BlocksOk, IsHighWater, Raised, Payload, IsLive, Request;
      NullIsDead();
      var req := Request(size);
      RequestAligned(size);
      if req >= available {
        KeptAll();
        return NULL;
      }
      var h, freeSize;
      ghost var k;
      h, freeSize, k := FindFit(req);
      if freeSize < req {
        NoneFits(req, k);
        KeptAll();
        return NULL;
      }
      ghost var i := FreeAt(k);
      FreeIsUnused(k);
      if freeSize >= req + HDR + MINIALLOC {
        AllocSplit(h, req, i, k);
      } else {
        AllocWhole(h, freeSize, i, k);
      }
      p := h + HDR;
      assert FirstFit(k, req);
      assert TakenAt(k, p, req);
    }

    lemma FreeIsUnused(k: nat)
      requires Structure() && k < |free|
      ensures free[k] in used && !used[free[k]] && free[k] >= 0
    {
      assert free[k] in free;
      var i := IndexOf(blocks, free[k]);
      SpacedAt(blocks, HDR, 0, i);
    }

    lemma NoneFits(size: nat, k: nat)
      requires Valid() && k == |free|
      requires forall j :: 0 <= j < k ==> free[j] in next && ItemSize(free[j]) < size
      ensures forall x :: x in free ==> x in next && ItemSize(x) < size
    {
    }

    /** The payload of block `i`. */
    lemma NewPayload(i: nat, size: nat)
      requires Structure() && i + 1 < |blocks| && used[blocks[i]]
      requires blocks[i] in next && next[blocks[i]] == blocks[i] + HDR + size
      ensures IsLive(blocks[i] + HDR) && |Payload(blocks[i] + HDR)| == size
      ensures (blocks[i] + HDR) % 4 == 0
    {
      assert blocks[i] + HDR <= blocks[|blocks| - 1];
      PayloadInPool(blocks[i] + HDR);
    }

    /** Both lists are linked in both directions. */
    ghost predicate Links()
      reads this
    {
      IsRing(blocks, next, prev) && IsRing([LISTHEAD] + free, nextFree, prevFree)
    }

    /** The merge with the previous neighbour in rt_memheap_free. */
    method MergeLeft(h: int, ghost i: nat) returns (h': int, left: bool)
      requires Links() && i + 1 < |blocks| && blocks[i] == h
      requires forall k :: 0 <= k < |blocks| ==> blocks[k] in used
      requires used[blocks[|blocks| - 1]]
      modifies this`next, this`prev, this`blocks, this`available
      ensures Links() && (left <==> i > 0 && !used[old(blocks)[i - 1]])
      ensures blocks == JoinLeftBlocks(old(blocks), i, left) && h' == old(blocks)[JoinAt(i, left)]
      ensures h in old(next) && next == if left then old(next)[h' := old(next)[h]] else old(next)
      ensures available == old(available) + if left then HDR else 0
    {
      Neighbours(blocks, next, prev, i);
      if !used[prev[h]] {
        available := available + HDR;
        h' := prev[h];
        UnlinkBlock(h, i - 1);
        return h', true;
      }
      return h, false;
    }

    /** Takes the unused block behind `h` out of both lists. */
    method AbsorbNext(x: int, ghost j: nat, ghost k: nat)
      requires Links() && j + 2 < |blocks| && blocks[j + 1] == x && k < |free| && free[k] == x
      modifies this`next, this`prev, this`blocks, this`nextFree, this`prevFree, this`free
      ensures Links() && blocks == Without(old(blocks), j + 1) && free == Without(old(free), k)
      ensures x in old(next) && next == old(next)[old(blocks)[j] := old(next)[x]]
    {
      UnlinkBlock(x, j);
      UnlinkFree(x, k);
    }

    /** The merge with the next neighbour in rt_memheap_free. */
    method MergeRight(h: int, ghost j: nat, ghost k: nat) returns (right: bool)
      requires Links() && j + 1 < |blocks| && blocks[j] == h
      requires forall i :: 0 <= i < |blocks| ==> blocks[i] in used
      requires used[blocks[|blocks| - 1]]
      requires !used[blocks[j + 1]] ==> k < |free| && free[k] == blocks[j + 1]
      modifies this`next, this`prev, this`blocks, this`available, this`nextFree, this`prevFree, this`free
      ensures Links() && (right <==> j + 2 < |old(blocks)| && !used[old(blocks)[j + 1]])
      ensures blocks == JoinLeftBlocks(old(blocks), j + 1, right)
      ensures free == if right then Without(old(free), k) else old(free)
      ensures right ==> old(blocks)[j + 1] in old(next)
      ensures next == if right then old(next)[h := old(next)[old(blocks)[j + 1]]] else old(next)
      ensures available == old(available) + if right then HDR else 0
    {
      Neighbours(blocks, next, prev, j);
      var x := next[h];
      right := !used[x];
      if right {
        available := available + HDR;
        AbsorbNext(x, j, k);
      }
    }

    /** Both merges of rt_memheap_free; `k` is where an unused right neighbour is listed. */
    method MergeBoth(h: int, ghost m: Joined, ghost k: nat) returns (h': int, left: bool)
      requires Links() && m.i + 1 < |blocks| && blocks[m.i] == h
      requires forall i :: 0 <= i < |blocks| ==> blocks[i] in used
      requires used[blocks[|blocks| - 1]] && Distinct(blocks)
      requires JoinsUnused(blocks, used, m)
      requires m.right ==> k < |free| && free[k] == blocks[m.i + 1]
      modifies this`next, this`prev, this`blocks, this`available, this`nextFree, this`prevFree, this`free
      ensures Links() && left == m.left && (!left ==> h' == h)
      ensures blocks == JoinBlocks(old(blocks), m)
      ensures free == if m.right then Without(old(free), k) else old(free)
      ensures h in old(next) && (m.right ==> old(blocks)[m.i + 1] in old(next))
      ensures next == JoinNext(old(blocks), old(next), m)
      ensures available == old(available) + (if m.left then HDR else 0) + (if m.right then HDR else 0)
    {
      hide IsRing, Distinct, JoinLeftBlocks, Without;
      Neighbours(blocks, next, prev, m.i);
      Neighbours(blocks, next, prev, m.i + 1);
      DistinctAt(blocks, m.i - 1, m.i + 1);
      h', left := MergeLeft(h, m.i);
      assert left == m.left;
      JoinLeftAt(old(blocks), m.i, left);
      JoinLeftUsed(old(blocks), m.i, left, used);
      var right := MergeRight(h', JoinAt(m.i, left), k);
      assert right == m.right;
    }

    /** The list surgery of rt_memheap_free. */
    method Release(h: int, ghost m: Joined, ghost k: nat)
      requires Links() && m.i + 1 < |blocks| && blocks[m.i] == h && h !in free && h != LISTHEAD
      requires forall i :: 0 <= i < |blocks| ==> blocks[i] in used
      requires used[blocks[|blocks| - 1]] && Distinct(blocks)
      requires JoinsUnused(blocks, used, m) && used[h]
      requires m.right ==> k < |free| && free[k] == blocks[m.i + 1]
      modifies this`next, this`prev, this`blocks, this`available, this`nextFree, this`prevFree, this`free, this`used
      ensures Links() && used == old(used)[h := false]
      ensures blocks == JoinBlocks(old(blocks), m) && free == JoinFree(old(free), h, m, k)
      ensures h in old(next) && (m.right ==> old(blocks)[m.i + 1] in old(next))
      ensures next == JoinNext(old(blocks), old(next), m)
      ensures available == old(available) + (old(blocks)[m.i + 1] - h - HDR)
                         + (if m.left then HDR else 0) + (if m.right then HDR else 0)
    {
      hide IsRing, Distinct, JoinBlocks, JoinNext;
      Neighbours(blocks, next, prev, m.i);
      DistinctAt(blocks, m.i - 1, m.i);
      DistinctAt(blocks, m.i, m.i + 1);
      DistinctAt(blocks, m.i, |blocks| - 1);
      used := used[h := false];
      available := available + ItemSize(h);
      var h', left := MergeBoth(h, m, k);
      if !left {
        WithoutOnly(old(free), k, h);
        PushFree(h');
      }
    }

    /** Freeing takes one pointer away and leaves the others alone. */
    twostate lemma ReleaseKeeps(m: Joined)
      requires old(Structure()) && Structure() && bytes == old(bytes) && CanJoin(old(blocks), m)
      requires JoinsUnused(old(blocks), old(used), m)
      requires blocks == JoinBlocks(old(blocks), m) && next == JoinNext(old(blocks), old(next), m)
      requires used == old(used)[old(blocks)[m.i] := false]
      ensures Kept(old(blocks)[m.i] + HDR) && !IsLive(old(blocks)[m.i] + HDR)
      ensures forall q :: IsLive(q) ==> old(IsLive(q))
    {
      hide JoinBlocks, JoinNext, JoinsUnused, FreeOk, NoFreePair;
      var b0 := old(blocks);
      forall q | old(IsLive(q)) && q != b0[m.i] + HDR ensures IsLive(q) && Payload(q) == old(Payload(q)) {
        JoinKeeps(b0, old(next), old(used), m, q - HDR, HDR);
        KeptOne(q);
      }
      forall q | IsLive(q) ensures old(IsLive(q)) {
        JoinOnly(b0, m, q - HDR, HDR);
      }
    }

    /** What rt_memheap_free will find around block `i`. */
    lemma FreePlan(i: nat) returns (m: Joined, k: nat)
      requires Structure() && i + 1 < |blocks| && used[blocks[i]]
      ensures m.i == i && JoinsUnused(blocks, used, m)
      ensures m.right ==> k < |free| && free[k] == blocks[i + 1]
      ensures blocks[i] !in free && blocks[i] != LISTHEAD && Distinct(free)
    {
      m := Joined(i, i > 0 && !used[blocks[i - 1]], i + 2 < |blocks| && !used[blocks[i + 1]]);
      k := 0;
      if m.right {
        assert blocks[i + 1] in blocks;
        k := IndexOf(free, blocks[i + 1]);
      }
      TailDistinct(LISTHEAD, free);
      NotNull(blocks, used, poolSize);
      assert blocks[i] in blocks;
    }

    /** rt_memheap_free of the block at index `m.i`. */
    method FreeBlock(h: int, ghost m: Joined, ghost k: nat)
      requires Valid() && m.i + 1 < |blocks| && blocks[m.i] == h && used[h]
      requires JoinsUnused(blocks, used, m) && (m.right ==> k < |free| && free[k] == blocks[m.i + 1])
      requires h !in free && h != LISTHEAD && Distinct(free)
      modifies this
      ensures Valid() && Kept(h + HDR) && maxUsed == old(maxUsed) && Noted()
      ensures !IsLive(h + HDR)
      ensures forall q :: IsLive(q) ==> old(IsLive(q))
      ensures available == old(available) + (old(blocks)[m.i + 1] - h - HDR)
                         + (if m.left then HDR else 0) + (if m.right then HDR else 0)
      ensures blocks == JoinBlocks(old(blocks), m) && free == JoinFree(old(free), h, m, k)
    {
      hide Sum, IsRing, NoFreePair, FreeOk, Distinct, Spaced, Kept, JoinFree, JoinNext, JoinBlocks, IsHighWater;
      SpacedAt(blocks, HDR, m.i, m.i + 1);
      FreeAll(blocks, free, used, poolSize, m, k);
      SpacedDistinct(blocks, HDR);
      Release(h, m, k);
      MarkStep(uses, maxUsed, poolSize - old(available), poolSize - available);
      uses := uses + [poolSize - available];
      assert Structure();
      ReleaseKeeps(m);
    }

    /** What freeing `p` gives back: its payload, and a header for every merge. */
    ghost function Credit(p: int): int
      requires Structure() && IsLive(p)
      reads this
    {
      PayloadInPool(p);
      PrevInUsed(p);
      |Payload(p)| + (if used[prev[p - HDR]] then 0 else HDR) + (if used[next[p - HDR]] then 0 else HDR)
    }

    lemma PrevInUsed(p: int)
      requires Structure() && IsLive(p)
      ensures p - HDR in next && next[p - HDR] in used && p - HDR in prev && prev[p - HDR] in used
    {
      var i := IndexOf(blocks, p - HDR);
      Neighbours(blocks, next, prev, i);
    }

    /** The block in front of `p` is in use, so that freeing does not join the two. */
    ghost predicate JoinsNoneBelow(p: int)
      requires Structure() && IsLive(p)
      reads this
    {
      PrevInUsed(p);
      used[prev[p - HDR]]
    }

    /** rt_memheap_free */
    method Free(p: int)
      requires Valid() && (p == NULL || IsLive(p))
      modifies this
      ensures Valid() && Kept(p) && maxUsed == old(maxUsed)
      ensures !IsLive(p)
      ensures forall q :: IsLive(q) ==> old(IsLive(q))
      ensures p == NULL ==> unchanged(this)
      ensures p != NULL ==> available == old(available) + old(Credit(p)) && Noted()
      ensures p != NULL && old(JoinsNoneBelow(p)) ==> free != [] && free[0] == p - HDR
    {
      hide Sum, IsRing, NoFreePair, FreeOk, Distinct, Spaced, JoinsUnused, JoinBlocks, JoinFree;
      if p == NULL {
        NotNull(blocks, used, poolSize);
        return;
      }
      ghost var i := IndexOf(blocks, p - HDR);
      PayloadInPool(p);
      Neighbours(blocks, next, prev, i);
      ghost var m, k := FreePlan(i);
      FreedFirst(free, p - HDR, m, k);
      FreeBlock(p - HDR, m, k);
    }

    // ---- realloc ----

    /** The in-place growth of rt_memheap_realloc: the unused neighbour starts later. */
    method GrowLinks(h: int, x: int, n: int, ghost r: Resize, ghost k: nat)
      requires Links() && r.joined && r.i + 2 < |blocks| && blocks[r.i] == h && blocks[r.i + 1] == x && r.n == n
      requires k < |free| && free[k] == x && 0 <= n && n + HDR <= |bytes|
      requires n !in Without(blocks, r.i + 1) && n !in Without(free, k)
      modifies this`next, this`prev, this`blocks, this`nextFree, this`prevFree, this`free, this`used, this`bytes
      ensures Links() && blocks == ResizeBlocks(old(blocks), r) && free == ResizeFree(old(free), r, k)
      ensures next == old(next)[n := ResizeEnd(old(blocks), r)][h := n]
      ensures used == old(used)[n := false] && |bytes| == |old(bytes)|
      ensures forall a :: 0 <= a < |bytes| && !(n <= a < n + HDR) ==> bytes[a] == old(bytes)[a]
    {
      hide IsRing, Distinct;
      Neighbours(blocks, next, prev, r.i + 1);
      AbsorbNext(x, r.i, k);
      NewHeader(n);
      LinkBlock(h, n, r.i);
      PushFree(n);
    }

    lemma SetTwice(m: Links, n: int, a: int, h: int, b: int)
      requires h != n
      ensures m[n := a][h := n][n := b] == m[n := b][h := n]
    {
    }

    /** The split of rt_memheap_realloc, merging the tail with an unused neighbour. */
    method ShrinkLinks(h: int, n: int, ghost r: Resize, ghost k: nat)
      requires Links() && r.i + 1 < |blocks| && blocks[r.i] == h && r.n == n && n !in blocks && h != blocks[r.i + 1]
      requires (forall i :: 0 <= i < |blocks| ==> blocks[i] in used) && (r.joined <==> !used[blocks[r.i + 1]])
      requires 0 <= n && n + HDR <= |bytes| && n !in free
      requires r.joined ==> r.i + 2 < |blocks| && k < |free| && free[k] == blocks[r.i + 1]
      modifies this`next, this`prev, this`blocks, this`nextFree, this`prevFree, this`free, this`used,
               this`bytes, this`available
      ensures Links() && blocks == ResizeBlocks(old(blocks), r) && free == ResizeFree(old(free), r, k)
      ensures next == old(next)[n := ResizeEnd(old(blocks), r)][h := n]
      ensures used == old(used)[n := false] && |bytes| == |old(bytes)|
      ensures forall a :: 0 <= a < |bytes| && !(n <= a < n + HDR) ==> bytes[a] == old(bytes)[a]
      ensures available == old(available) + (ResizeEnd(old(blocks), r) - n - HDR)
                - if r.joined then ResizeEnd(old(blocks), r) - old(blocks)[r.i + 1] - HDR else 0
    {
      hide IsRing, Distinct, Insert, Without;
      Neighbours(blocks, next, prev, r.i);
      Neighbours(blocks, next, prev, r.i + 1);
      SetTwice(next, n, next[h], h, ResizeEnd(blocks, r));
      InsertSwap(blocks, r.i, n);
      assert h != n && blocks[r.i + 1] != n;
      NewHeader(n);
      LinkBlock(h, n, r.i);
      var f := next[n];
      if !used[f] {
        available := available - ItemSize(f);
        AbsorbNext(f, r.i + 1, k);
      }
      WithoutOnly(old(free), k, n);
      PushFree(n);
      available := available + ItemSize(n);
    }

    twostate lemma ResizedFront(r: Resize)
      requires old(Structure()) && Structure() && CanResize(old(blocks), old(used), r, HDR)
      requires blocks == ResizeBlocks(old(blocks), r) && used == old(used)[r.n := false]
      requires next == old(next)[r.n := ResizeEnd(old(blocks), r)][old(blocks)[r.i] := r.n]
      requires forall a :: 0 <= a < |bytes| && !(r.n <= a < r.n + HDR) ==> bytes[a] == old(bytes)[a]
      ensures Resized(old(blocks)[r.i] + HDR, r.n - old(blocks)[r.i] - HDR)
    {
      hide NoFreePair, FreeOk, IsRing, Spaced, Distinct, Insert, Without, Sum;
      Neighbours(old(blocks), old(next), old(prev), r.i);
      SpacedAt(old(blocks), HDR, 0, r.i);
      SpacedAt(old(blocks), HDR, r.i, r.i + 1);
      SpacedAt(old(blocks), HDR, r.i + 1, |old(blocks)| - 1);
      if r.joined {
        SpacedAt(old(blocks), HDR, r.i + 2, |old(blocks)| - 1);
      }
      ResizedAt(old(blocks), r);
      assert old(blocks)[r.i] in old(blocks);
      var p := old(blocks)[r.i] + HDR;
      assert old(IsLive(p)) && IsLive(p);
      SliceFront(old(bytes), bytes, p, old(blocks)[r.i + 1], r.n);
    }

    lemma SliceFront(old0: seq<byte>, b: seq<byte>, p: nat, end: nat, n: nat)
      requires |old0| == |b| && p <= end <= |b| && p <= n <= |b|
      requires forall a :: p <= a < n && a < end ==> b[a] == old0[a]
      ensures |b[p..n]| == n - p
      ensures forall a :: 0 <= a < n - p && a < |old0[p..end]| ==> b[p..n][a] == old0[p..end][a]
    {
    }

    /** A resize keeps all other payloads. */
    twostate lemma ResizeOthers(r: Resize)
      requires old(Structure()) && Structure() && CanResize(old(blocks), old(used), r, HDR)
      requires blocks == ResizeBlocks(old(blocks), r) && used == old(used)[r.n := false]
      requires r.n !in if r.joined then Without(old(blocks), r.i + 1) else old(blocks)
      requires next == old(next)[r.n := ResizeEnd(old(blocks), r)][old(blocks)[r.i] := r.n]
      requires forall a :: 0 <= a < |bytes| && !(r.n <= a < r.n + HDR) ==> bytes[a] == old(bytes)[a]
      ensures Kept(old(blocks)[r.i] + HDR)
    {
      hide NoFreePair, FreeOk, ResizeBlocks, Insert, Without, Distinct, Resized, Sum, Payload, ResizeEnd, IsRing, Spaced;
      var b0 := old(blocks);
      forall i | 0 <= i < |b0| ensures b0[i] in old(next) {
        Neighbours(b0, old(next), old(prev), i);
      }
      forall q | old(IsLive(q)) && q != b0[r.i] + HDR ensures IsLive(q) && Payload(q) == old(Payload(q)) {
        ResizeKeepsOne(b0, old(next), old(used), r, q - HDR, HDR);
        var j := IndexOf(b0, q - HDR);
        Neighbours(b0, old(next), old(prev), j);
        ResizeApart(b0, old(used), r, j, HDR);
        KeptOne(q);
      }
    }

    /** A resize keeps the front of the payload and all other payloads. */
    twostate lemma ResizeKeeps(r: Resize)
      requires old(Structure()) && Structure() && CanResize(old(blocks), old(used), r, HDR)
      requires blocks == ResizeBlocks(old(blocks), r) && used == old(used)[r.n := false]
      requires r.n !in if r.joined then Without(old(blocks), r.i + 1) else old(blocks)
      requires next == old(next)[r.n := ResizeEnd(old(blocks), r)][old(blocks)[r.i] := r.n]
      requires forall a :: 0 <= a < |bytes| && !(r.n <= a < r.n + HDR) ==> bytes[a] == old(bytes)[a]
      ensures Kept(old(blocks)[r.i] + HDR)
      ensures forall q :: IsLive(q) ==> old(IsLive(q))
      ensures Resized(old(blocks)[r.i] + HDR, r.n - old(blocks)[r.i] - HDR)
    {
      hide NoFreePair, FreeOk, ResizeBlocks, Insert, Without, Distinct, Resized, Sum, Payload, ResizeEnd, Kept, IsRing;
      ResizeOthers(r);
      forall q | IsLive(q) ensures old(IsLive(q)) {
        ResizeOnly(old(blocks), old(used), r, q - HDR, HDR);
      }
      ResizedFront(r);
    }

    /** The block behind `p` is still in use, `size` bytes long, and its front is what it was. */
    twostate predicate Resized(p: int, size: nat)
      requires old(Structure()) && Structure()
      reads this
    {
      && old(IsLive(p)) && IsLive(p) && |Payload(p)| == size
      && forall a :: 0 <= a < size && a < |old(Payload(p))| ==> Payload(p)[a] == old(Payload(p))[a]
    }

    /** The index of the block behind `p`, the resize to `req` bytes, and where an unused
        neighbour is listed. */
    lemma ResizePlan(p: int, req: nat) returns (r: Resize, k: nat)
      requires Structure() && IsLive(p) && req % 4 == 0
      ensures r.i + 1 < |blocks| && blocks[r.i] == p - HDR && r.n == p + req
      ensures p - HDR in next && next[p - HDR] == blocks[r.i + 1] && blocks[r.i + 1] in used
      ensures r.joined <==> !used[blocks[r.i + 1]]
      ensures r.joined ==> r.i + 2 < |blocks| && k < |free| && free[k] == blocks[r.i + 1]
      ensures r.joined ==> blocks[r.i + 1] in next && next[blocks[r.i + 1]] == blocks[r.i + 2]
      ensures r.n + HDR <= ResizeEnd(blocks, r) ==> CanResize(blocks, used, r, HDR)
      ensures Distinct(free) && 0 <= p && blocks[r.i + 1] <= ResizeEnd(blocks, r) <= |bytes|
      ensures next[p - HDR] - p == |Payload(p)|
      ensures blocks[r.i] < r.n < blocks[r.i + 1] ==> r.n !in blocks
    {
      hide NoFreePair, Sum, Spaced;
      PayloadInPool(p);
      var i := IndexOf(blocks, p - HDR);
      Neighbours(blocks, next, prev, i);
      BetweenIsNew(blocks, HDR, i, p + req);
      r := Resize(i, p + req, !used[blocks[i + 1]]);
      k := 0;
      if r.joined {
        assert blocks[i + 1] in blocks;
        k := IndexOf(free, blocks[i + 1]);
        Neighbours(blocks, next, prev, i + 1);
      }
      TailDistinct(LISTHEAD, free);
      SpacedAt(blocks, HDR, 0, i);
      SpacedAt(blocks, HDR, i + 1, |blocks| - 1);
      if r.joined {
        SpacedAt(blocks, HDR, i + 1, i + 2);
        SpacedAt(blocks, HDR, i + 2, |blocks| - 1);
      }
    }

    lemma NullIsDead()
      requires Structure()
      ensures !IsLive(NULL)
    {
      NotNull(blocks, used, poolSize);
    }

    /** Growth in place, `size` being the old payload size. */
    method Grow(p: int, req: nat, ghost r: Resize, ghost k: nat)
      requires Valid() && p - HDR in next && next[p - HDR] in next
      requires CanResize(blocks, used, r, HDR) && r.joined && blocks[r.i] == p - HDR && r.n == p + req
      requires next[p - HDR] == blocks[r.i + 1] && k < |free| && free[k] == blocks[r.i + 1] && Distinct(free)
      requires 0 <= p && ResizeEnd(blocks, r) <= |bytes| && blocks[r.i + 1] <= r.n
      modifies this
      ensures Valid() && Kept(p) && Resized(p, req)
      ensures forall q :: IsLive(q) ==> old(IsLive(q))
      ensures available == old(available) - (r.n - old(blocks)[r.i + 1])
      ensures maxUsed == Raised(old(maxUsed), poolSize - available) && Noted()
    {
      hide Sum, IsRing, NoFreePair, FreeOk, Distinct, Spaced, Kept, ResizeFree, ResizeBlocks, Resized;
      hide IsLive, Insert, Without, IsHighWater, Raised;
      MarkStep(uses, maxUsed, poolSize - available, poolSize - available + (r.n - blocks[r.i + 1]));
      ResizeAll(blocks, free, used, poolSize, r, k);
      var oldSize := ItemSize(p - HDR);
      available := available - (req - oldSize);
      RaiseMax();
      var x := next[p - HDR];
      GrowLinks(p - HDR, x, p + req, r, k);
      assert Structure();
      ResizeKeeps(r);
    }

    /** Shrinking in place. */
    method Shrink(p: int, req: nat, ghost r: Resize, ghost k: nat)
      requires Valid()
      requires CanResize(blocks, used, r, HDR) && blocks[r.i] == p - HDR && r.n == p + req && r.n !in blocks
      requires r.joined ==> k < |free| && free[k] == blocks[r.i + 1]
      requires Distinct(free) && 0 <= p && ResizeEnd(blocks, r) <= |bytes| && r.n + HDR <= blocks[r.i + 1]
      modifies this
      ensures Valid() && Kept(p) && Resized(p, req) && maxUsed == old(maxUsed) && Noted()
      ensures forall q :: IsLive(q) ==> old(IsLive(q))
      ensures available == old(available) + (old(blocks)[r.i + 1] - r.n - if r.joined then 0 else HDR)
    {
      hide Sum, IsRing, NoFreePair, FreeOk, Distinct, Spaced, Kept, ResizeFree, ResizeBlocks, Resized, IsHighWater;
      ResizeAll(blocks, free, used, poolSize, r, k);
      NotListed(r.n);
      ShrinkLinks(p - HDR, p + req, r, k);
      MarkStep(uses, maxUsed, poolSize - old(available), poolSize - available);
      uses := uses + [poolSize - available];
      assert Structure();
      ResizeKeeps(r);
    }

    lemma NotListed(x: int)
      requires Structure() && x !in blocks
      ensures x !in free
    {
    }

    /** rt_memcpy of a payload front into another block. */
    method Copy(dst: int, src: int, n: nat)
      requires Valid() && IsLive(dst) && IsLive(src) && dst != src
      requires n <= |Payload(src)| && n <= |Payload(dst)|
      modifies this`bytes
      ensures Valid() && Kept(dst) && IsLive(dst)
      ensures |Payload(dst)| == old(|Payload(dst)|) && Payload(dst)[..n] == old(Payload(src))[..n]
      ensures forall q :: IsLive(q) <==> old(IsLive(q))
    {
      hide Sum, IsRing, NoFreePair, FreeOk, BlocksOk;
      PayloadInPool(dst);
      PayloadInPool(src);
      CopiedBytes(bytes, dst, src, n);
      SlicePrefix(bytes, src, src + |Payload(src)|, n);
      bytes := bytes[..dst] + bytes[src..src + n] + bytes[dst + n..];
      SlicePrefix(bytes, dst, dst + |Payload(dst)|, n);
      CopyKeeps(dst);
    }

    twostate lemma CopyKeeps(dst: int)
      requires old(Valid()) && Structure() && blocks == old(blocks) && next == old(next) && used == old(used)
      requires old(IsLive(dst))
      requires forall a :: 0 <= a < |bytes| && !(dst <= a < dst + old(|Payload(dst)|)) ==> bytes[a] == old(bytes)[a]
      ensures Kept(dst)
    {
      hide Sum, IsRing, NoFreePair, FreeOk, BlocksOk;
      forall q | old(IsLive(q)) && q != dst ensures IsLive(q) && Payload(q) == old(Payload(q)) {
        PayloadInPool(dst);
        PayloadInPool(q);
        LiveDisjoint(q, dst);
        KeptOne(q);
      }
    }

    /** Live payloads lie in the pool and do not overlap each other or a header. */
    lemma LiveDisjoint(p: int, q: int)
      requires Structure() && IsLive(p) && IsLive(q) && p != q
      ensures HDR <= p && p + |Payload(p)| <= poolSize - HDR
      ensures p + |Payload(p)| <= q - HDR || q + |Payload(q)| <= p - HDR
    {
      PayloadInPool(p);
      PayloadInPool(q);
      var i := IndexOf(blocks, p - HDR);
      var j := IndexOf(blocks, q - HDR);
      Neighbours(blocks, next, prev, i);
      Neighbours(blocks, next, prev, j);
      SpacedAt(blocks, HDR, 0, i);
      SpacedAt(blocks, HDR, i + 1, |blocks| - 1);
    }

    /** Free bytes, payload in use and one header per block make up the pool. */
    lemma Accounting()
      requires Valid()
      ensures available + Sum(blocks, used, true, HDR) + HDR * |blocks| == poolSize
      ensures 0 <= available && poolSize - available <= maxUsed
      ensures maxUsed in uses && (forall u :: u in uses ==> u <= maxUsed) && uses[|uses| - 1] == poolSize - available
    {
      SumTotal(blocks, used, HDR);
      SumBounds(blocks, used, false, HDR);
      MarkBounds(uses, maxUsed, poolSize - available);
    }

    /** A block was allocated from the block at index `k` of the free list, and then another one
        freed: the mark is raised to the use in between, and `uses` has both. */
    twostate predicate MovedFrom(k: nat, req: nat)
      requires old(Valid())
      reads this
    {
      && FirstFit(k, req)
      && (var between := poolSize - old(available) + old(Charge(ItemSize(free[k]), req));
          && maxUsed == Raised(old(maxUsed), between)
          && uses == old(uses) + [between, poolSize - available])
    }

    lemma Marked()
      requires Valid()
      ensures Raised(maxUsed, poolSize - available) == maxUsed
    {
      MarkBounds(uses, maxUsed, poolSize - available);
    }

    twostate predicate NotedIfNew()
      reads this`uses, this`available
    {
      Noted() || (uses == old(uses) && available == old(available))
    }

    /** The last resort of rt_memheap_realloc: allocate, copy, free. */
    method Move(ptr: int, oldSize: nat, req: nat) returns (p: int)
      requires Valid() && IsLive(ptr) && oldSize == |Payload(ptr)| && req > oldSize && req == Request(req)
      modifies this
      ensures Valid() && Kept(ptr)
      ensures p == NULL <==> old(NoRoom(req))
      ensures p == NULL ==> unchanged(this)
      ensures p != NULL ==> IsLive(p) && !old(IsLive(p)) && !IsLive(ptr)
      ensures p != NULL ==> |Payload(p)| >= req && Payload(p)[..oldSize] == old(Payload(ptr))
      ensures forall q :: IsLive(q) && q != p ==> old(IsLive(q))
      ensures p != NULL ==> exists k: nat :: MovedFrom(k, req)
    {
      hide Sum, IsRing, NoFreePair, FreeOk, BlocksOk, Payload, IsHighWater;
      NotNull(blocks, used, poolSize);
      p := Alloc(req);
      if p != NULL {
        ghost var k: nat :| TakenAt(k, p, Request(req));
        assert maxUsed == Raised(old(maxUsed), poolSize - available);
        label L1:
        assert Payload(ptr) == old(Payload(ptr));
        Copy(p, ptr, oldSize);
        label L2:
        assert Payload(p)[..oldSize] == old(Payload(ptr));
        Free(ptr);
        assert MovedFrom(k, req);
        assert Payload(p) == old@L2(Payload(p));
        forall q | old(IsLive(q)) && q != ptr ensures IsLive(q) && Payload(q) == old(Payload(q)) {
          assert old@L1(IsLive(q)) && old@L1(Payload(q)) == old(Payload(q));
          assert old@L2(IsLive(q)) && old@L2(Payload(q)) == old(Payload(q));
        }
      }
    }

    /** The block behind `p` can grow to `req` bytes at the cost of the unused block behind it. */
    ghost predicate CanGrow(p: int, req: nat)
      requires Structure() && IsLive(p)
      reads this
    {
      PayloadInPool(p);
      var x := next[p - HDR];
      x in used && !used[x] && x in next && ItemSize(x) + |Payload(p)| > req + MINIALLOC
    }

    /** More room than the block has: in place, at the cost of the unused block behind it, or moved. */
    method Enlarge(ptr: int, oldSize: nat, req: nat) returns (p: int)
      requires Valid() && IsLive(ptr) && oldSize == |Payload(ptr)| && req > oldSize && req == Request(req)
      modifies this
      ensures Valid() && Kept(ptr)
      ensures old(CanGrow(ptr, req)) ==>
                p == ptr && Resized(ptr, req) && maxUsed == Raised(old(maxUsed), poolSize - available) && Noted()
      ensures !old(CanGrow(ptr, req)) ==> p != ptr && (p == NULL <==> old(NoRoom(req)))
      ensures p == NULL ==> unchanged(this)
      ensures p != NULL && p != ptr ==> IsLive(p) && !old(IsLive(p)) && !IsLive(ptr)
      ensures p != NULL && p != ptr ==> |Payload(p)| >= req && Payload(p)[..oldSize] == old(Payload(ptr))
      ensures p != NULL && p != ptr ==> exists k: nat :: MovedFrom(k, req)
      ensures forall q :: IsLive(q) && q != p ==> old(IsLive(q))
    {
      hide Sum, IsRing, NoFreePair, FreeOk, BlocksOk, IsHighWater, Payload, IsLive, Kept, Noted, MovedFrom, Resized, NoRoom;
      NullIsDead();
      LiveHeader(ptr);
      ghost var r, k := ResizePlan(ptr, req);
      var x := next[ptr - HDR];
      if !used[x] {
        var nextSize := ItemSize(x);
        if nextSize + oldSize > req + MINIALLOC {
          Grow(ptr, req, r, k);
          return ptr;
        }
      }
      p := Move(ptr, oldSize, req);
    }

    lemma LiveHeader(p: int)
      requires Structure() && IsLive(p)
      ensures p - HDR in next && next[p - HDR] in used && ItemSize(p - HDR) == |Payload(p)|
    {
      PayloadInPool(p);
    }

    /** rt_memheap_realloc */
    method Realloc(ptr: int, size: nat) returns (p: int)
      requires Valid() && (ptr == NULL || IsLive(ptr))
      modifies this
      ensures Valid() && Kept(ptr)
      ensures size == 0 ==> p == NULL && !IsLive(ptr)
      ensures size > 0 && p == NULL ==> unchanged(this)
      ensures p != NULL ==> IsLive(p) && |Payload(p)| >= Request(size)
      ensures size > 0 && ptr == NULL ==> (p == NULL <==> old(NoRoom(Request(size))))
      ensures size > 0 && ptr != NULL && Request(size) <= old(|Payload(ptr)|) ==>
                p == ptr && |Payload(p)| == if Request(size) + HDR + MINIALLOC >= old(|Payload(ptr)|)
                                            then old(|Payload(ptr)|) else Request(size)
      ensures size > 0 && ptr != NULL && Request(size) > old(|Payload(ptr)|) ==>
                if old(CanGrow(ptr, Request(size))) then p == ptr && |Payload(p)| == Request(size)
                else p != ptr && (p == NULL <==> old(NoRoom(Request(size))))
      ensures p != NULL && ptr != NULL ==>
                forall a :: 0 <= a < old(|Payload(ptr)|) && a < Request(size) ==> Payload(p)[a] == old(Payload(ptr))[a]
      ensures p != NULL && p != ptr ==> !old(IsLive(p)) && !IsLive(ptr)
      ensures forall q :: IsLive(q) && q != p ==> old(IsLive(q))
      ensures p != NULL && ptr != NULL && p != ptr ==> exists k: nat :: MovedFrom(k, Request(size))
      ensures p != NULL && (ptr == NULL || p == ptr) ==>
                maxUsed == Raised(old(maxUsed), poolSize - available) && NotedIfNew()
      ensures size == 0 ==> maxUsed == old(maxUsed) && (ptr != NULL ==> Noted())
    {
      hide Sum, IsRing, NoFreePair, FreeOk, BlocksOk, TakenAt, IsHighWater, Payload, IsLive, Noted, MovedFrom;
      hide CanGrow, NoRoom, Kept, Request;
      Marked();
      NullIsDead();
      if size == 0 {
        Free(ptr);
        return NULL;
      }
      var req := Request(size);
      RequestTwice(size);
      if ptr == NULL {
        p := Alloc(req);
        return;
      }
      LiveHeader(ptr);
      var oldSize := ItemSize(ptr - HDR);
      if req > oldSize {
        p := Enlarge(ptr, oldSize, req);
        return;
      }
      if req + HDR + MINIALLOC >= oldSize {
        KeptAll();
        return ptr;
      }
      ghost var r, k := ResizePlan(ptr, req);
      Shrink(ptr, req, r, k);
      return ptr;
    }

    twostate lemma KeptAll()
      requires old(Structure()) && Structure() && unchanged(this)
      ensures forall p :: Kept(p)
    {
    }
  }
}
