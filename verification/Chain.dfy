/** Null-terminated singly linked lists through a `next` field, as in mq free lists and block pools. */
module Chain {
  import opened Ring

  const NULL: int := -1

  ghost predicate IsChain(l: seq<int>, h: int, next: Links) {
    && Distinct(l) && h == (if l == [] then NULL else l[0])
    && (forall i :: 0 <= i < |l| ==> l[i] in next && l[i] != NULL)
    && (forall i, j :: 0 <= i < j < |l| && j == i + 1 ==> next[l[i]] == l[j])
    && (l != [] ==> next[l[|l| - 1]] == NULL)
  }

  lemma ChainFirst(l: seq<int>, h: int, next: Links)
    requires IsChain(l, h, next)
    ensures h == NULL <==> l == []
    ensures l != [] ==> h == l[0] && h in next && h in l && h !in l[1..] && IsChain(l[1..], next[h], next)
    ensures l != [] ==> forall x :: x in l[1..] <==> x in l && x != h
  {
    if l != [] {
      TailIn(l);
      var r := l[1..];
      assert forall i :: 0 <= i < |r| ==> r[i] == l[i + 1];
    }
  }

  lemma ChainLast(l: seq<int>, h: int, next: Links)
    requires IsChain(l, h, next) && l != []
    ensures var z := l[|l| - 1]; z in l && z != NULL && z in next && (z == h <==> |l| == 1)
    ensures |l| > 1 ==> l[1..] != [] && l[1..][|l[1..]| - 1] == l[|l| - 1]
  {
  }

  lemma ChainPush(l: seq<int>, h: int, next: Links, n: int)
    requires IsChain(l, h, next) && n !in l && n != NULL
    ensures IsChain([n] + l, n, next[n := h])
  {
    var r, next' := [n] + l, next[n := h];
    forall i | 0 <= i < |r| ensures r[i] in next' && r[i] != NULL && (i > 0 ==> r[i] == l[i - 1]) {
    }
    forall i, j | 0 <= i < j < |r| && j == i + 1 ensures next'[r[i]] == r[j] {
      if i > 0 {
        assert r[i] == l[i - 1] && r[j] == l[j - 1];
      }
    }
  }

  lemma ChainAppend(l: seq<int>, h: int, next: Links, n: int)
    requires IsChain(l, h, next) && n !in l && n != NULL && n in next && next[n] == NULL
    ensures l == [] ==> IsChain(l + [n], n, next)
    ensures l != [] ==> IsChain(l + [n], h, next[l[|l| - 1] := n])
  {
  }

  lemma ChainFrame(l: seq<int>, h: int, next: Links, x: int, v: int)
    requires IsChain(l, h, next) && x !in l
    ensures IsChain(l, h, next[x := v])
  {
  }

  lemma ChainDistinct(l: seq<int>, h: int, next: Links)
    requires IsChain(l, h, next)
    ensures Distinct(l)
  {
  }

  lemma EmptyChain(next: Links)
    ensures IsChain([], NULL, next)
  {
  }
}
