/**
 The circular doubly linked list of rtservice.h.  Nodes are addresses; `next` and `prev` are the
 two link fields of all nodes.  A list is the sequence of its nodes starting at its head.
 */
module Ring {

  type Links = map<int, int>

  ghost predicate Distinct(l: seq<int>) {
    forall i, j :: 0 <= i < j < |l| ==> l[i] != l[j]
  }

  /** The links run through `l` and back to its first node, both ways. */
  ghost predicate IsRing(l: seq<int>, next: Links, prev: Links) {
    && l != [] && Distinct(l)
    && (forall i :: 0 <= i < |l| ==> l[i] in next && l[i] in prev)
    && (forall i, j :: 0 <= i < j < |l| && j == i + 1 ==> next[l[i]] == l[j] && prev[l[j]] == l[i])
    && next[l[|l| - 1]] == l[0] && prev[l[0]] == l[|l| - 1]
  }

  function Insert(l: seq<int>, i: nat, n: int): seq<int>
    requires i < |l|
  {
    l[..i + 1] + [n] + l[i + 1..]
  }

  function Without(l: seq<int>, i: nat): seq<int>
    requires i < |l|
  {
    l[..i] + l[i + 1..]
  }

  lemma WithoutOnly(l: seq<int>, k: nat, x: int)
    requires x !in l
    ensures k < |l| ==> x !in Without(l, k)
  {
  }

  /** What is left of a list without its first node. */
  lemma TailIn(l: seq<int>)
    requires Distinct(l) && l != []
    ensures Distinct(l[1..]) && l[0] in l
    ensures forall x :: x in l[1..] <==> x in l && x != l[0]
  {
    var r := l[1..];
    assert forall i :: 0 <= i < |r| ==> r[i] == l[i + 1];
    assert l == [l[0]] + r;
  }

  /** The neighbours that the links give are the neighbours in the sequence. */
  lemma Neighbours(l: seq<int>, next: Links, prev: Links, i: nat)
    requires IsRing(l, next, prev) && i < |l|
    ensures l[i] in next && next[l[i]] == if i + 1 < |l| then l[i + 1] else l[0]
    ensures l[i] in prev && prev[l[i]] == if i == 0 then l[|l| - 1] else l[i - 1]
  {
  }

  lemma InsertRing(l: seq<int>, next: Links, prev: Links, i: nat, n: int)
    requires IsRing(l, next, prev) && i < |l| && n !in l
    ensures l[i] in next
    ensures IsRing(Insert(l, i, n), next[n := next[l[i]]][l[i] := n], prev[next[l[i]] := n][n := l[i]])
  {
    Neighbours(l, next, prev, i);
    var l', s := Insert(l, i, n), next[l[i]];
    var next', prev' := next[n := s][l[i] := n], prev[s := n][n := l[i]];
    forall k, m | 0 <= k < m < |l'| && m == k + 1
      ensures l'[k] in next' && l'[m] in prev' && next'[l'[k]] == l'[m] && prev'[l'[m]] == l'[k]
    {
      if k < i {
        assert l'[k] == l[k] && l'[m] == l[k + 1];
      } else if k > i + 1 {
        assert l'[k] == l[k - 1] && l'[m] == l[k];
      }
    }
  }

  lemma RemoveRing(l: seq<int>, next: Links, prev: Links, i: nat)
    requires IsRing(l, next, prev) && i < |l| && |l| >= 2
    ensures l[i] in next && l[i] in prev
    ensures IsRing(Without(l, i), next[prev[l[i]] := next[l[i]]], prev[next[l[i]] := prev[l[i]]])
  {
    Neighbours(l, next, prev, i);
    var l', x := Without(l, i), l[i];
    var next', prev' := next[prev[x] := next[x]], prev[next[x] := prev[x]];
    forall k, m | 0 <= k < m < |l'| && m == k + 1
      ensures l'[k] in next' && l'[m] in prev' && next'[l'[k]] == l'[m] && prev'[l'[m]] == l'[k]
    {
      if m < i {
        assert l'[k] == l[k] && l'[m] == l[m];
      } else if k >= i {
        assert l'[k] == l[k + 1] && l'[m] == l[m + 1];
      } else {
        assert l'[k] == l[i - 1] && l'[m] == l[i + 1];
      }
    }
  }

  /** Only the links of the list's own nodes matter. */
  lemma FrameRing(l: seq<int>, next: Links, prev: Links, next': Links, prev': Links)
    requires IsRing(l, next, prev)
    requires forall k :: 0 <= k < |l| ==> Same(l[k], next, next') && Same(l[k], prev, prev')
    ensures IsRing(l, next', prev')
  {
  }

  ghost predicate Same(x: int, m: Links, m': Links) {
    (x in m <==> x in m') && (x in m ==> m[x] == m'[x])
  }

  /** All list nodes of the system: the link fields that the rt_list functions rewrite. */
  class ListNodes {
    var next: Links
    var prev: Links

    constructor ()
      ensures next == map[] && prev == map[]
    {
      next, prev := map[], map[];
    }

    /** rt_list_init */
    method Init(l: int)
      modifies this
      ensures IsRing([l], next, prev)
      ensures next == old(next)[l := l] && prev == old(prev)[l := l]
    {
      prev := prev[l := l];
      next := next[l := l];
    }

    /** rt_list_insert_after */
    method InsertAfter(ghost list: seq<int>, ghost i: nat, l: int, n: int)
      requires IsRing(list, next, prev) && i < |list| && list[i] == l && n !in list
      modifies this
      ensures IsRing(Insert(list, i, n), next, prev)
      ensures forall x :: x !in list && x != n ==> Same(x, old(next), next) && Same(x, old(prev), prev)
    {
      InsertRing(list, next, prev, i, n);
      Neighbours(list, next, prev, i);
      prev := prev[next[l] := n];
      next := next[n := next[l]];
      next := next[l := n];
      prev := prev[n := l];
    }

    /** rt_list_insert_before: before the head means at the end. */
    method InsertBefore(ghost list: seq<int>, ghost i: nat, l: int, n: int)
      requires IsRing(list, next, prev) && i < |list| && list[i] == l && n !in list
      modifies this
      ensures IsRing(if i == 0 then list + [n] else Insert(list, i - 1, n), next, prev)
      ensures forall x :: x !in list && x != n ==> Same(x, old(next), next) && Same(x, old(prev), prev)
    {
      ghost var p := if i == 0 then |list| - 1 else i - 1;
      Neighbours(list, next, prev, i);
      Neighbours(list, next, prev, p);
      InsertRing(list, next, prev, p, n);
      assert i == 0 ==> Insert(list, p, n) == list + [n];
      next := next[prev[l] := n];
      prev := prev[n := prev[l]];
      prev := prev[l := n];
      next := next[n := l];
      assert next == old(next)[n := l][list[p] := n];
      assert prev == old(prev)[l := n][n := list[p]];
    }

    /** rt_list_remove: the node becomes a list of its own. */
    method Remove(ghost list: seq<int>, ghost i: nat, n: int)
      requires IsRing(list, next, prev) && i < |list| && list[i] == n && |list| >= 2
      modifies this
      ensures IsRing(Without(list, i), next, prev) && IsRing([n], next, prev)
      ensures forall x :: x !in list ==> Same(x, old(next), next) && Same(x, old(prev), prev)
    {
      RemoveRing(list, next, prev, i);
      Neighbours(list, next, prev, i);
      prev := prev[next[n] := prev[n]];
      next := next[prev[n] := next[n]];
      ghost var next0, prev0 := next, prev;
      next := next[n := n];
      prev := prev[n := n];
      FrameRing(Without(list, i), next0, prev0, next, prev);
    }

    /** rt_list_isempty */
    method IsEmpty(ghost list: seq<int>, l: int) returns (empty: bool)
      requires IsRing(list, next, prev) && list[0] == l
      ensures empty <==> |list| == 1
    {
      Neighbours(list, next, prev, 0);
      return next[l] == l;
    }

    /** rt_list_len: the nodes other than the head. */
    method Len(ghost list: seq<int>, l: int) returns (len: nat)
      requires IsRing(list, next, prev) && list[0] == l
      ensures len == |list| - 1
    {
      len := 0;
      var p := l;
      Neighbours(list, next, prev, 0);
      while next[p] != l
        invariant len < |list| && p == list[len] && p in next
        invariant next[p] == if len + 1 < |list| then list[len + 1] else l
        decreases |list| - len
      {
        p := next[p];
        len := len + 1;
        Neighbours(list, next, prev, len);
      }
    }
  }
}
