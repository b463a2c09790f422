/**
 Pools of blocks as the two heaps keep them: used and unused blocks, each behind a header, that
 tile the pool in address order up to a used block that closes it; and what cutting, joining and
 resizing blocks does to them.  `hdr` is the size of a header; sums may leave out `h` per block.
 */
module Blocks {
  import opened Ring
  import opened Tiling

  /** The block list tiles the pool in address order from 0 to the used tailer. */
  ghost predicate BlocksOk(b: seq<int>, used: map<int, bool>, poolSize: nat, hdr: nat) {
    && |b| >= 2 && b[0] == 0 && b[|b| - 1] == poolSize - hdr
    && Spaced(b, hdr)
    && (forall i :: 0 <= i < |b| ==> b[i] in used && b[i] % 4 == 0)
    && used[b[|b| - 1]]
  }

  /** No two physical neighbours are both unused. */
  ghost predicate NoFreePair(b: seq<int>, used: map<int, bool>)
    requires forall i :: 0 <= i < |b| ==> b[i] in used
  {
    forall i, j :: 0 <= i < j < |b| && j == i + 1 ==> used[b[i]] || used[b[j]]
  }

  lemma InsertIn(b: seq<int>, i: nat, n: int)
    requires i < |b|
    ensures forall x :: x in Insert(b, i, n) <==> x in b || x == n
  {
    var c := Insert(b, i, n);
    assert c[i + 1] == n;
    forall x | x in b ensures x in c {
      var k := IndexOf(b, x);
      assert c[if k <= i then k else k + 1] == x;
    }
  }

  lemma WithoutIn(b: seq<int>, i: nat)
    requires i < |b| && Distinct(b)
    ensures |Without(b, i)| == |b| - 1
    ensures forall x :: x in Without(b, i) <==> x in b && x != b[i]
  {
    var c := Without(b, i);
    forall x | x in b && x != b[i] ensures x in c {
      var k := IndexOf(b, x);
      assert c[if k < i then k else k - 1] == x;
    }
  }

  lemma WithoutDistinct(b: seq<int>, i: nat)
    requires i < |b| && Distinct(b)
    ensures Distinct(Without(b, i))
  {
  }

  lemma BlocksInsert(b: seq<int>, used: map<int, bool>, poolSize: nat, hdr: nat, i: nat, n: int, u: bool)
    requires BlocksOk(b, used, poolSize, hdr) && i + 1 < |b| && hdr > 0
    requires b[i] + hdr <= n && n + hdr <= b[i + 1] && n % 4 == 0
    ensures n !in b && BlocksOk(Insert(b, i, n), used[n := u], poolSize, hdr)
  {
    var c := Insert(b, i, n);
    forall k | 0 <= k < |b| ensures b[k] != n {
      if k < i {
        assert b[k] + hdr <= b[i];
      } else if k > i + 1 {
        assert b[i + 1] + hdr <= b[k];
      }
    }
    forall k, m | 0 <= k < m < |c| ensures c[k] + hdr <= c[m] {
      InsertAt(b, i, n, k);
      InsertAt(b, i, n, m);
      if k < i {
        assert b[k] + hdr <= b[i];
      }
      if m > i + 2 {
        assert b[i + 1] + hdr <= b[m - 1];
      }
    }
    forall k | 0 <= k < |c| ensures c[k] in used[n := u] && c[k] % 4 == 0 {
      InsertAt(b, i, n, k);
    }
    assert c[0] == b[0] && c[|c| - 1] == b[|b| - 1];
  }

  /** An address with room on both sides inside block `i` is no block. */
  lemma InsideIsNew(b: seq<int>, hdr: nat, i: nat, n: int)
    requires Spaced(b, hdr) && hdr > 0 && i + 1 < |b| && b[i] + hdr <= n && n + hdr <= b[i + 1]
    ensures n !in b
  {
    forall k | 0 <= k < |b| ensures b[k] != n {
      SpacedAt(b, hdr, if k < i then k else i, i);
      SpacedAt(b, hdr, i + 1, if k > i + 1 then k else i + 1);
    }
  }

  lemma InsertAt(b: seq<int>, i: nat, n: int, k: nat)
    requires i < |b| && k <= |b|
    ensures Insert(b, i, n)[k] == if k <= i then b[k] else if k == i + 1 then n else b[k - 1]
  {
  }

  lemma SpacedAt(b: seq<int>, hdr: nat, i: nat, j: nat)
    requires Spaced(b, hdr) && i <= j < |b|
    ensures i < j ==> b[i] + hdr <= b[j]
  {
  }

  lemma BetweenIsNew(b: seq<int>, hdr: nat, i: nat, n: int)
    requires Spaced(b, hdr) && i + 1 < |b|
    ensures b[i] < n < b[i + 1] ==> n !in b
  {
    if b[i] < n < b[i + 1] && n in b {
      var j := IndexOf(b, n);
    }
  }

  lemma SpacedApart(b: seq<int>, hdr: nat, i: nat, j: nat)
    requires Spaced(b, hdr) && i < |b| && j < |b| && i != j
    ensures i + 1 < |b| && j + 1 < |b| ==> b[j + 1] <= b[i] || b[i + 1] <= b[j]
  {
  }

  lemma BlocksRemove(b: seq<int>, used: map<int, bool>, poolSize: nat, hdr: nat, i: nat)
    requires BlocksOk(b, used, poolSize, hdr) && i + 2 < |b|
    ensures BlocksOk(Without(b, i + 1), used, poolSize, hdr)
  {
    hide Spaced, Without;
    var c := Without(b, i + 1);
    WithoutLength(b, i + 1);
    WithoutAt(b, i + 1, 0);
    WithoutAt(b, i + 1, |c| - 1);
    forall k | 0 <= k < |c| ensures c[k] in used && c[k] % 4 == 0 {
      WithoutAt(b, i + 1, k);
    }
    SpacedWithout(b, hdr, i + 1);
  }

  lemma SpacedWithout(b: seq<int>, hdr: nat, i: nat)
    requires Spaced(b, hdr) && i < |b|
    ensures Spaced(Without(b, i), hdr)
  {
    hide Without;
    WithoutLength(b, i);
    forall k, m | 0 <= k < m < |b| - 1 ensures Without(b, i)[k] + hdr <= Without(b, i)[m] {
      WithoutAt(b, i, k);
      WithoutAt(b, i, m);
    }
  }

  lemma WithoutAt(b: seq<int>, i: nat, k: nat)
    requires i < |b| && k + 1 < |b|
    ensures Without(b, i)[k] == if k < i then b[k] else b[k + 1]
  {
  }

  lemma DistinctAt(l: seq<int>, i: int, j: int)
    requires Distinct(l)
    ensures 0 <= i < j < |l| ==> l[i] != l[j]
  {
  }

  lemma InsertPairs(c: seq<int>, used: map<int, bool>, i: nat, n: int)
    requires (forall k :: 0 <= k < |c| ==> c[k] in used) && NoFreePair(c, used)
    requires i + 1 < |c| && used[c[i]] && used[c[i + 1]] && n !in c
    ensures forall k :: 0 <= k < |Insert(c, i, n)| ==> Insert(c, i, n)[k] in used[n := false]
    ensures NoFreePair(Insert(c, i, n), used[n := false])
  {
    var b, used' := Insert(c, i, n), used[n := false];
    forall k | 0 <= k < |b| ensures b[k] in used' && (k != i + 1 ==> b[k] in c && used'[b[k]] == used[b[k]]) {
      InsertAt(c, i, n, k);
    }
    forall k, m | 0 <= k < m < |b| && m == k + 1 ensures used'[b[k]] || used'[b[m]] {
      InsertAt(c, i, n, k);
      InsertAt(c, i, n, m);
    }
  }

  lemma WithoutPairs(b: seq<int>, used: map<int, bool>, i: nat)
    requires (forall k :: 0 <= k < |b| ==> b[k] in used) && NoFreePair(b, used)
    requires i + 1 < |b| && used[b[i]]
    ensures var c := Without(b, i + 1); (forall k :: 0 <= k < |c| ==> c[k] in used) && NoFreePair(c, used)
  {
    var c := Without(b, i + 1);
    forall k, m | 0 <= k < m < |c| && m == k + 1 ensures used[c[k]] || used[c[m]] {
      WithoutAt(b, i + 1, k);
      WithoutAt(b, i + 1, m);
    }
  }

  // ---- allocating ----

  /** A free block is allocated whole. */
  lemma TakeBlock(b: seq<int>, used: map<int, bool>, poolSize: nat, hdr: nat, i: nat, h: nat)
    requires BlocksOk(b, used, poolSize, hdr) && NoFreePair(b, used) && hdr > 0
    requires i + 1 < |b| && !used[b[i]]
    ensures var used' := used[b[i] := true];
            && BlocksOk(b, used', poolSize, hdr) && NoFreePair(b, used')
            && Sum(b, used', false, h) == Sum(b, used, false, h) - (b[i + 1] - b[i] - h)
  {
    SpacedDistinct(b, hdr);
    SumFlag(b, used, true, false, h, i);
  }

  /** A free block is allocated and its tail from `n` on becomes a free block. */
  lemma CutBlock(b: seq<int>, used: map<int, bool>, poolSize: nat, hdr: nat, i: nat, n: int, h: nat)
    requires BlocksOk(b, used, poolSize, hdr) && NoFreePair(b, used) && hdr > 0
    requires i + 1 < |b| && !used[b[i]]
    requires b[i] + hdr <= n && n + hdr <= b[i + 1] && n % 4 == 0
    ensures var b', used' := Insert(b, i, n), used[n := false][b[i] := true];
            && n !in b && BlocksOk(b', used', poolSize, hdr) && NoFreePair(b', used')
            && Sum(b', used', false, h) == Sum(b, used, false, h) - (n - b[i])
  {
    hide Sum, Spaced, Insert, NoFreePair, Distinct;
    BlocksInsert(b, used, poolSize, hdr, i, n, false);
    SpacedDistinct(Insert(b, i, n), hdr);
    CutSum(b, used, i, n, h);
    CutPairs(b, used, i, n);
    InsertAt(b, i, n, |b|);
  }

  lemma CutPairs(b: seq<int>, used: map<int, bool>, i: nat, n: int)
    requires (forall k :: 0 <= k < |b| ==> b[k] in used) && NoFreePair(b, used)
    requires i + 1 < |b| && !used[b[i]] && n !in b
    ensures var b', used' := Insert(b, i, n), used[n := false][b[i] := true];
            (forall k :: 0 <= k < |b'| ==> b'[k] in used') && NoFreePair(b', used')
  {
    var b', used' := Insert(b, i, n), used[n := false][b[i] := true];
    assert used[b[i]] || used[b[i + 1]];
    assert b[i + 1] in b;
    forall j, m | 0 <= j < m < |b'| && m == j + 1 ensures used'[b'[j]] || used'[b'[m]] {
      InsertAt(b, i, n, j);
      InsertAt(b, i, n, m);
      assert j > i + 1 || m < i ==> b'[j] in b && b'[m] in b;
    }
  }

  lemma CutSum(b: seq<int>, used: map<int, bool>, i: nat, n: int, h: nat)
    requires (forall k :: 0 <= k < |b| ==> b[k] in used) && n !in b && i + 1 < |b| && !used[b[i]]
    requires Distinct(Insert(b, i, n))
    ensures forall k :: 0 <= k < |Insert(b, i, n)| ==> Insert(b, i, n)[k] in used[n := false][b[i] := true]
    ensures Sum(Insert(b, i, n), used[n := false][b[i] := true], false, h) == Sum(b, used, false, h) - (n - b[i])
  {
    var b', used1 := Insert(b, i, n), used[n := false];
    SumFrame(b, used, used1, false, h);
    SumInsert(b, used1, false, h, i, n);
    assert b'[i] == b[i] && b'[i + 1] == n;
    SumFlag(b', used1, true, false, h, i);
  }

  // ---- joining ----

  /** Block `i` is joined to the block before it, to the block behind it, or both. */
  datatype Joined = Joined(i: nat, left: bool, right: bool)

  ghost predicate CanJoin(b: seq<int>, m: Joined) {
    m.i + 1 < |b| && (m.left ==> m.i > 0) && (m.right ==> m.i + 2 < |b|)
  }

  /** The neighbours of block `m.i` that are unused, and only those, are joined to it. */
  ghost predicate JoinsUnused(b: seq<int>, used: map<int, bool>, m: Joined)
    requires forall i :: 0 <= i < |b| ==> b[i] in used
  {
    && CanJoin(b, m)
    && (m.left <==> m.i > 0 && !used[b[m.i - 1]])
    && (m.right <==> m.i + 2 < |b| && !used[b[m.i + 1]])
  }

  ghost function JoinLeftBlocks(b: seq<int>, i: nat, left: bool): seq<int>
    requires i < |b|
  {
    if left then Without(b, i) else b
  }

  /** Where the joined block is. */
  ghost function JoinAt(i: nat, left: bool): nat
    requires left ==> i > 0
  {
    if left then i - 1 else i
  }

  lemma JoinLeftAt(b: seq<int>, i: nat, left: bool)
    requires i + 1 < |b| && (left ==> i > 0)
    ensures var b', j := JoinLeftBlocks(b, i, left), JoinAt(i, left);
            && |b'| == (if left then |b| - 1 else |b|) && j + 1 < |b'|
            && b'[j] == b[j] && b'[j + 1] == b[i + 1] && b'[|b'| - 1] == b[|b| - 1]
  {
  }

  lemma JoinLeftUsed(b: seq<int>, i: nat, left: bool, used: map<int, bool>)
    requires i < |b| && forall k :: 0 <= k < |b| ==> b[k] in used
    ensures forall k :: 0 <= k < |JoinLeftBlocks(b, i, left)| ==> JoinLeftBlocks(b, i, left)[k] in used
  {
  }

  ghost function JoinBlocks(b: seq<int>, m: Joined): seq<int>
    requires CanJoin(b, m)
  {
    JoinLeftBlocks(JoinLeftBlocks(b, m.i, m.left), JoinAt(m.i, m.left) + 1, m.right)
  }

  ghost function JoinNext(b: seq<int>, next: Links, m: Joined): Links
    requires CanJoin(b, m) && b[m.i] in next && (m.right ==> b[m.i + 1] in next)
  {
    var h := b[JoinAt(m.i, m.left)];
    var n1 := if m.left then next[h := next[b[m.i]]] else next;
    if m.right then n1[h := next[b[m.i + 1]]] else n1
  }

  /** No two neighbours are unused, except possibly `j` and the block behind it. */
  ghost predicate PairsBut(b: seq<int>, used: map<int, bool>, j: nat)
    requires forall i :: 0 <= i < |b| ==> b[i] in used
  {
    forall i, m :: 0 <= i < m < |b| && m == i + 1 && i != j ==> used[b[i]] || used[b[m]]
  }

  /** Block `i` is marked unused. */
  lemma Mark(b: seq<int>, used: map<int, bool>, poolSize: nat, hdr: nat, i: nat, h: nat)
    requires BlocksOk(b, used, poolSize, hdr) && NoFreePair(b, used) && hdr > 0
    requires i + 1 < |b| && used[b[i]]
    ensures var used' := used[b[i] := false];
            && BlocksOk(b, used', poolSize, hdr)
            && (forall k, m :: 0 <= k < m < |b| && m == k + 1 && k != i && m != i ==> used'[b[k]] || used'[b[m]])
            && Sum(b, used', false, h) == Sum(b, used, false, h) + (b[i + 1] - b[i] - h)
  {
    SpacedDistinct(b, hdr);
    SumFlag(b, used, false, false, h, i);
  }

  lemma WithoutLength(b: seq<int>, i: nat)
    requires i < |b|
    ensures |Without(b, i)| == |b| - 1
  {
  }

  /** Unused block `i` is joined to the unused block before it. */
  lemma JoinLeft(b: seq<int>, used: map<int, bool>, poolSize: nat, hdr: nat, i: nat, h: nat)
    requires 0 < i && i + 1 < |b| && BlocksOk(b, used, poolSize, hdr) && hdr > 0
    requires forall k, m :: 0 <= k < m < |b| && m == k + 1 && k != i && m != i ==> used[b[k]] || used[b[m]]
    requires !used[b[i]] && !used[b[i - 1]]
    ensures var b' := Without(b, i);
            && BlocksOk(b', used, poolSize, hdr) && PairsBut(b', used, i - 1)
            && Sum(b', used, false, h) == Sum(b, used, false, h) + h
  {
    hide Sum, Spaced, Without;
    BlocksRemove(b, used, poolSize, hdr, i - 1);
    SumRemove(b, used, false, h, i - 1);
    var b' := Without(b, i);
    WithoutLength(b, i);
    forall k, m | 0 <= k < m < |b'| && m == k + 1 && k != i - 1 ensures used[b'[k]] || used[b'[m]] {
      WithoutAt(b, i, k);
      WithoutAt(b, i, m);
    }
  }

  /** Block `i` is marked unused, and joined to an unused block before it. */
  lemma FreeLeft(b: seq<int>, used: map<int, bool>, poolSize: nat, hdr: nat, i: nat, left: bool, h: nat)
    requires BlocksOk(b, used, poolSize, hdr) && NoFreePair(b, used) && hdr > 0
    requires i + 1 < |b| && used[b[i]] && (left <==> i > 0 && !used[b[i - 1]])
    ensures var j, b', used' := JoinAt(i, left), JoinLeftBlocks(b, i, left), used[b[i] := false];
            && BlocksOk(b', used', poolSize, hdr) && PairsBut(b', used', j) && j + 1 < |b'|
            && Sum(b', used', false, h)
               == Sum(b, used, false, h) + (b[i + 1] - b[i] - h) + if left then h else 0
  {
    hide Sum, Spaced;
    Mark(b, used, poolSize, hdr, i, h);
    SpacedDistinct(b, hdr);
    DistinctAt(b, i - 1, i);
    if left {
      JoinLeft(b, used[b[i] := false], poolSize, hdr, i, h);
    }
  }

  /** An unused block behind unused block `j` is joined to it. */
  lemma FreeRight(b: seq<int>, used: map<int, bool>, poolSize: nat, hdr: nat, j: nat, right: bool, h: nat)
    requires BlocksOk(b, used, poolSize, hdr) && PairsBut(b, used, j) && hdr > 0
    requires j + 1 < |b| && !used[b[j]] && (right <==> j + 2 < |b| && !used[b[j + 1]])
    ensures var b' := JoinLeftBlocks(b, j + 1, right);
            && BlocksOk(b', used, poolSize, hdr) && NoFreePair(b', used)
            && Sum(b', used, false, h) == Sum(b, used, false, h) + if right then h else 0
  {
    hide Sum, Spaced, Without;
    if right {
      WithoutLength(b, j + 1);
      BlocksRemove(b, used, poolSize, hdr, j);
      SumRemove(b, used, false, h, j);
      var b' := Without(b, j + 1);
      forall i, m | 0 <= i < m < |b'| && m == i + 1 ensures used[b'[i]] || used[b'[m]] {
        WithoutAt(b, j + 1, i);
        WithoutAt(b, j + 1, m);
        assert used[b[j + 1]] || used[b[j + 2]];
      }
    }
  }

  /** Freeing block `m.i` and joining it to its unused neighbours keeps the pool in order. */
  lemma JoinAll(b: seq<int>, used: map<int, bool>, poolSize: nat, hdr: nat, m: Joined, h: nat)
    requires BlocksOk(b, used, poolSize, hdr) && NoFreePair(b, used) && hdr > 0
    requires JoinsUnused(b, used, m) && used[b[m.i]]
    ensures var b', used' := JoinBlocks(b, m), used[b[m.i] := false];
            && BlocksOk(b', used', poolSize, hdr) && NoFreePair(b', used')
            && Sum(b', used', false, h) == Sum(b, used, false, h) + (b[m.i + 1] - b[m.i] - h)
                + (if m.left then h else 0) + (if m.right then h else 0)
  {
    hide Sum, Spaced, JoinLeftBlocks, NoFreePair, PairsBut, Distinct, Without;
    var used' := used[b[m.i] := false];
    FreeLeft(b, used, poolSize, hdr, m.i, m.left, h);
    SpacedDistinct(b, hdr);
    DistinctAt(b, m.i, m.i + 1);
    DistinctAt(b, m.i - 1, m.i);
    JoinLeftAt(b, m.i, m.left);
    FreeRight(JoinLeftBlocks(b, m.i, m.left), used', poolSize, hdr, JoinAt(m.i, m.left), m.right, h);
  }

  /** Which blocks are left after joining. */
  lemma JoinIn(b: seq<int>, m: Joined, x: int)
    requires Distinct(b) && CanJoin(b, m)
    ensures x in JoinBlocks(b, m) <==> x in b && !(m.left && x == b[m.i]) && !(m.right && x == b[m.i + 1])
  {
    hide Distinct, Without;
    var b1 := JoinLeftBlocks(b, m.i, m.left);
    WithoutIn(b, m.i);
    WithoutDistinct(b, m.i);
    JoinLeftAt(b, m.i, m.left);
    if m.right {
      WithoutIn(b1, JoinAt(m.i, m.left) + 1);
    }
  }

  /** A block that is not merged away keeps its place; one that is not merged with keeps its end. */
  lemma JoinKeeps(b: seq<int>, next: Links, used: map<int, bool>, m: Joined, x: int, hdr: nat)
    requires Spaced(b, hdr) && hdr > 0 && CanJoin(b, m) && (forall i :: 0 <= i < |b| ==> b[i] in used && b[i] in next)
    requires JoinsUnused(b, used, m) && x in b && used[x] && x != b[m.i]
    ensures x in JoinBlocks(b, m) && x in JoinNext(b, next, m) && JoinNext(b, next, m)[x] == next[x]
  {
    hide Spaced, Distinct, Without;
    SpacedDistinct(b, hdr);
    var b1, j := JoinLeftBlocks(b, m.i, m.left), JoinAt(m.i, m.left);
    WithoutIn(b, m.i);
    WithoutDistinct(b, m.i);
    JoinLeftAt(b, m.i, m.left);
    if m.right {
      WithoutIn(b1, j + 1);
    }
  }

  /** A block present after the join was present before. */
  lemma JoinOnly(b: seq<int>, m: Joined, x: int, hdr: nat)
    requires Spaced(b, hdr) && hdr > 0 && CanJoin(b, m) && x in JoinBlocks(b, m)
    ensures x in b
  {
    hide Spaced, Distinct, Without;
    SpacedDistinct(b, hdr);
    WithoutIn(b, m.i);
    WithoutDistinct(b, m.i);
    JoinLeftAt(b, m.i, m.left);
    WithoutIn(JoinLeftBlocks(b, m.i, m.left), JoinAt(m.i, m.left) + 1);
  }

  // ---- resizing ----

  /** Used block `i` is made to end at `n`, where an unused block begins; `joined` says that the
      block behind it was unused, and so gives way to the one at `n`. */
  datatype Resize = Resize(i: nat, n: int, joined: bool)

  ghost predicate CanResize(b: seq<int>, used: map<int, bool>, r: Resize, hdr: nat)
    requires forall i :: 0 <= i < |b| ==> b[i] in used
  {
    && r.i + 1 < |b| && used[b[r.i]] && (r.joined <==> !used[b[r.i + 1]]) && (r.joined ==> r.i + 2 < |b|)
    && b[r.i] + hdr <= r.n && r.n + hdr <= ResizeEnd(b, r) && r.n % 4 == 0
  }

  /** Where the unused block at `n` ends. */
  ghost function ResizeEnd(b: seq<int>, r: Resize): int
    requires r.i + 1 < |b| && (r.joined ==> r.i + 2 < |b|)
  {
    if r.joined then b[r.i + 2] else b[r.i + 1]
  }

  ghost function ResizeBlocks(b: seq<int>, r: Resize): seq<int>
    requires r.i + 1 < |b|
  {
    if r.joined then Insert(Without(b, r.i + 1), r.i, r.n) else Insert(b, r.i, r.n)
  }

  /** The block list without a block that gives way. */
  lemma ResizeRest(b: seq<int>, used: map<int, bool>, poolSize: nat, hdr: nat, r: Resize, h: nat)
    requires BlocksOk(b, used, poolSize, hdr) && CanResize(b, used, r, hdr) && r.joined && hdr > 0
    ensures var c := Without(b, r.i + 1);
            && BlocksOk(c, used, poolSize, hdr) && r.i + 1 < |c| && c[r.i] == b[r.i] && c[r.i + 1] == b[r.i + 2]
            && Sum(c, used, false, h) == Sum(b, used, false, h) - (b[r.i + 2] - b[r.i + 1] - h)
            && forall x :: x in c <==> x in b && x != b[r.i + 1]
  {
    hide Spaced, Distinct, Sum, Without;
    SpacedDistinct(b, hdr);
    BlocksRemove(b, used, poolSize, hdr, r.i);
    WithoutIn(b, r.i + 1);
    WithoutAt(b, r.i + 1, r.i);
    WithoutAt(b, r.i + 1, r.i + 1);
    SumRemove(b, used, false, h, r.i);
  }

  lemma ResizeBoundary(b: seq<int>, used: map<int, bool>, poolSize: nat, hdr: nat, r: Resize, h: nat)
    requires BlocksOk(b, used, poolSize, hdr) && CanResize(b, used, r, hdr) && hdr > 0
    ensures var c := if r.joined then Without(b, r.i + 1) else b;
            && r.n !in c && BlocksOk(ResizeBlocks(b, r), used[r.n := false], poolSize, hdr)
            && BlocksOk(c, used, poolSize, hdr) && r.i + 1 < |c| && c[r.i] == b[r.i] && c[r.i + 1] == ResizeEnd(b, r)
            && Sum(c, used, false, h) == Sum(b, used, false, h)
                 - (if r.joined then ResizeEnd(b, r) - b[r.i + 1] - h else 0)
  {
    hide Spaced, Sum, Without, Insert;
    if r.joined {
      ResizeRest(b, used, poolSize, hdr, r, h);
      BlocksInsert(Without(b, r.i + 1), used, poolSize, hdr, r.i, r.n, false);
    } else {
      BlocksInsert(b, used, poolSize, hdr, r.i, r.n, false);
    }
  }

  lemma ResizePairs(b: seq<int>, used: map<int, bool>, r: Resize, hdr: nat)
    requires (forall i :: 0 <= i < |b| ==> b[i] in used) && NoFreePair(b, used) && CanResize(b, used, r, hdr)
    requires r.n !in if r.joined then Without(b, r.i + 1) else b
    ensures forall i :: 0 <= i < |ResizeBlocks(b, r)| ==> ResizeBlocks(b, r)[i] in used[r.n := false]
    ensures NoFreePair(ResizeBlocks(b, r), used[r.n := false])
  {
    if r.joined {
      assert used[b[r.i + 1]] || used[b[r.i + 2]];
      WithoutPairs(b, used, r.i);
      WithoutAt(b, r.i + 1, r.i);
      WithoutAt(b, r.i + 1, r.i + 1);
      InsertPairs(Without(b, r.i + 1), used, r.i, r.n);
    } else {
      InsertPairs(b, used, r.i, r.n);
    }
  }

  /** Resizing keeps the pool in order. */
  lemma ResizePool(b: seq<int>, used: map<int, bool>, poolSize: nat, hdr: nat, r: Resize, h: nat)
    requires BlocksOk(b, used, poolSize, hdr) && NoFreePair(b, used) && CanResize(b, used, r, hdr) && hdr > 0
    ensures r.n !in if r.joined then Without(b, r.i + 1) else b
    ensures var b', used' := ResizeBlocks(b, r), used[r.n := false];
            && BlocksOk(b', used', poolSize, hdr) && NoFreePair(b', used')
            && Sum(b', used', false, h) == Sum(b, used, false, h) + (ResizeEnd(b, r) - r.n - h)
                 - if r.joined then ResizeEnd(b, r) - b[r.i + 1] - h else 0
  {
    hide NoFreePair, Distinct, Without;
    ResizeBoundary(b, used, poolSize, hdr, r, h);
    ResizePairs(b, used, r, hdr);
    ResizeSum(if r.joined then Without(b, r.i + 1) else b, used, r.i, r.n, h);
  }

  lemma ResizeSum(c: seq<int>, used: map<int, bool>, i: nat, n: int, h: nat)
    requires (forall k :: 0 <= k < |c| ==> c[k] in used) && n !in c && i + 1 < |c| && used[c[i]]
    ensures forall k :: 0 <= k < |Insert(c, i, n)| ==> Insert(c, i, n)[k] in used[n := false]
    ensures Sum(Insert(c, i, n), used[n := false], false, h) == Sum(c, used, false, h) + (c[i + 1] - n - h)
  {
    SumFrame(c, used, used[n := false], false, h);
    SumInsert(c, used[n := false], false, h, i, n);
  }

  /** The other used blocks keep their place and their end. */
  lemma ResizeKeepsOne(b: seq<int>, next: Links, used: map<int, bool>, r: Resize, x: int, hdr: nat)
    requires (forall i :: 0 <= i < |b| ==> b[i] in used && b[i] in next) && Spaced(b, hdr) && hdr > 0 && CanResize(b, used, r, hdr)
    requires x in b && used[x] && x != b[r.i]
    requires r.n !in if r.joined then Without(b, r.i + 1) else b
    ensures x in ResizeBlocks(b, r) && x != r.n && next[r.n := ResizeEnd(b, r)][b[r.i] := r.n][x] == next[x]
  {
    hide Spaced, Distinct, Insert, Without;
    SpacedDistinct(b, hdr);
    WithoutIn(b, r.i + 1);
    InsertIn(if r.joined then Without(b, r.i + 1) else b, r.i, r.n);
  }

  lemma ResizeApart(b: seq<int>, used: map<int, bool>, r: Resize, j: nat, hdr: nat)
    requires (forall i :: 0 <= i < |b| ==> b[i] in used) && Spaced(b, hdr) && hdr > 0 && CanResize(b, used, r, hdr)
    requires j + 1 < |b| && used[b[j]] && j != r.i
    ensures b[j + 1] <= r.n || r.n + hdr <= b[j]
  {
  }

  lemma ResizedAt(b: seq<int>, r: Resize)
    requires r.i + 1 < |b| && (r.joined ==> r.i + 2 < |b|)
    ensures ResizeBlocks(b, r)[r.i] == b[r.i] && b[r.i] in ResizeBlocks(b, r)
    ensures ResizeBlocks(b, r)[|ResizeBlocks(b, r)| - 1] == b[|b| - 1]
  {
    assert ResizeBlocks(b, r)[r.i] == b[r.i];
  }

  lemma InsertSwap(b: seq<int>, i: nat, n: int)
    requires i + 1 < |b|
    ensures Insert(b, i, n)[i] == b[i] && Insert(b, i, n)[i + 1] == n && Insert(b, i, n)[i + 2] == b[i + 1]
    ensures |Insert(b, i, n)| == |b| + 1
    ensures Without(Insert(b, i, n), i + 2) == Insert(Without(b, i + 1), i, n)
  {
  }

  lemma ResizeOnly(b: seq<int>, used: map<int, bool>, r: Resize, x: int, hdr: nat)
    requires (forall i :: 0 <= i < |b| ==> b[i] in used) && Spaced(b, hdr) && hdr > 0 && CanResize(b, used, r, hdr)
    requires x in ResizeBlocks(b, r) && x != r.n
    ensures x in b
  {
    SpacedDistinct(b, hdr);
    InsertIn(if r.joined then Without(b, r.i + 1) else b, r.i, r.n);
    WithoutIn(b, r.i + 1);
  }
}
