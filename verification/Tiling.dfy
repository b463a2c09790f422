/**
 Blocks that tile a pool: their addresses in order, the last one closing the pool, and sums of
 block sizes over them.
 */
module Tiling {
  import opened Ring

  /** Consecutive blocks leave room for a header each. */
  ghost predicate Spaced(b: seq<int>, hdr: nat) {
    forall i, j :: 0 <= i < j < |b| ==> b[i] + hdr <= b[j]
  }

  /** The part of a block that the sum counts. */
  function Share(used: bool, want: bool, hdr: nat, from: int, to: int): int {
    if used == want then to - from - hdr else 0
  }

  /** Sum, over the blocks whose used flag is `want`, of their sizes less `hdr`. */
  ghost function Sum(b: seq<int>, used: map<int, bool>, want: bool, hdr: nat): int
    requires forall i :: 0 <= i < |b| ==> b[i] in used
  {
    if |b| < 2 then 0 else Share(used[b[0]], want, hdr, b[0], b[1]) + Sum(b[1..], used, want, hdr)
  }

  lemma {:induction false} SumFrame(b: seq<int>, used: map<int, bool>, used': map<int, bool>, want: bool, hdr: nat)
    requires forall i :: 0 <= i < |b| ==> b[i] in used && b[i] in used' && used'[b[i]] == used[b[i]]
    ensures Sum(b, used', want, hdr) == Sum(b, used, want, hdr)
  {
    if |b| >= 2 {
      SumFrame(b[1..], used, used', want, hdr);
    }
  }

  /** Changing the flag of one block. */
  lemma {:induction false} SumFlag(b: seq<int>, used: map<int, bool>, u: bool, want: bool, hdr: nat, i: nat)
    requires forall k :: 0 <= k < |b| ==> b[k] in used
    requires i + 1 < |b| && Distinct(b)
    ensures Sum(b, used[b[i] := u], want, hdr)
         == Sum(b, used, want, hdr) - Share(used[b[i]], want, hdr, b[i], b[i + 1]) + Share(u, want, hdr, b[i], b[i + 1])
  {
    if i == 0 {
      SumFrame(b[1..], used, used[b[i] := u], want, hdr);
    } else {
      SumFlag(b[1..], used, u, want, hdr, i - 1);
    }
  }

  /** Cutting block `i` at `n`. */
  lemma {:induction false} SumInsert(b: seq<int>, used: map<int, bool>, want: bool, hdr: nat, i: nat, n: int)
    requires forall k :: 0 <= k < |b| ==> b[k] in used
    requires i + 1 < |b| && n in used
    ensures forall k :: 0 <= k < |Insert(b, i, n)| ==> Insert(b, i, n)[k] in used
    ensures Sum(Insert(b, i, n), used, want, hdr)
         == Sum(b, used, want, hdr) - Share(used[b[i]], want, hdr, b[i], b[i + 1])
          + Share(used[b[i]], want, hdr, b[i], n) + Share(used[n], want, hdr, n, b[i + 1])
  {
    var c := Insert(b, i, n);
    if i == 0 {
      assert c[1..] == [n] + b[1..];
      assert c[1..][1..] == b[1..];
    } else {
      assert c[1..] == Insert(b[1..], i - 1, n);
      SumInsert(b[1..], used, want, hdr, i - 1, n);
    }
  }

  /** Joining block `i + 1` to block `i`. */
  lemma SumRemove(b: seq<int>, used: map<int, bool>, want: bool, hdr: nat, i: nat)
    requires forall k :: 0 <= k < |b| ==> b[k] in used
    requires i + 2 < |b|
    ensures Sum(Without(b, i + 1), used, want, hdr)
         == Sum(b, used, want, hdr)
          - Share(used[b[i]], want, hdr, b[i], b[i + 1]) - Share(used[b[i + 1]], want, hdr, b[i + 1], b[i + 2])
          + Share(used[b[i]], want, hdr, b[i], b[i + 2])
  {
    var c := Without(b, i + 1);
    assert Insert(c, i, b[i + 1]) == b;
    SumInsert(c, used, want, hdr, i, b[i + 1]);
  }

  /** Free and used payload and one header per block fill the span. */
  lemma {:induction false} SumTotal(b: seq<int>, used: map<int, bool>, hdr: nat)
    requires b != [] && forall k :: 0 <= k < |b| ==> b[k] in used
    ensures Sum(b, used, false, hdr) + Sum(b, used, true, hdr) + hdr * (|b| - 1) == b[|b| - 1] - b[0]
  {
    if |b| >= 2 {
      SumTotal(b[1..], used, hdr);
      assert hdr * (|b| - 1) == hdr * (|b| - 2) + hdr;
    }
  }

  lemma {:induction false} SumBounds(b: seq<int>, used: map<int, bool>, want: bool, hdr: nat)
    requires Spaced(b, hdr) && forall k :: 0 <= k < |b| ==> b[k] in used
    ensures Sum(b, used, want, hdr) >= 0
    ensures b != [] ==> Sum(b, used, want, hdr) <= b[|b| - 1] - b[0]
  {
    if |b| >= 2 {
      SumBounds(b[1..], used, want, hdr);
    }
  }

  lemma SpacedDistinct(b: seq<int>, hdr: nat)
    requires Spaced(b, hdr) && hdr > 0
    ensures Distinct(b)
  {
  }

  /** An address in the list is at one index only. */
  lemma IndexOf(b: seq<int>, x: int) returns (i: nat)
    requires x in b
    ensures i < |b| && b[i] == x
  {
    i :| 0 <= i < |b| && b[i] == x;
  }
}
