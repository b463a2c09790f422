/**
 Threads that wait on an IPC object (the rt_ipc_list functions of ipc.c).  A thread is its
 number; a waiting thread is asleep in the object's list until it is resumed, and then woken
 but not yet run until the scheduler gives it the processor and it looks at the object again.
 */
module Waiting {
  import opened Ring

  /** current_priority of each thread: a smaller number is more urgent. */
  type Priorities = map<int, int>

  function Prio(prio: Priorities, t: int): int {
    if t in prio then prio[t] else 0
  }

  /** rt_ipc_list_suspend: to the end, or before the first less urgent thread. */
  function Enqueue(q: seq<int>, t: int, prio: Priorities, byPrio: bool): (r: seq<int>)
    ensures |r| == |q| + 1
  {
    if q == [] then [t]
    else if byPrio && Prio(prio, t) < Prio(prio, q[0]) then [t] + q
    else [q[0]] + Enqueue(q[1..], t, prio, byPrio)
  }

  /** `t` put into `q` at index `k`. */
  function Put(q: seq<int>, k: nat, t: int): seq<int>
    requires k <= |q|
  {
    q[..k] + [t] + q[k..]
  }

  /** Where the thread goes, and what is before and behind it. */
  lemma {:induction false} EnqueueSplit(q: seq<int>, t: int, prio: Priorities, byPrio: bool) returns (k: nat)
    ensures k <= |q| && Enqueue(q, t, prio, byPrio) == Put(q, k, t)
    ensures !byPrio ==> k == |q|
    ensures byPrio ==> forall i :: 0 <= i < k ==> Prio(prio, q[i]) <= Prio(prio, t)
    ensures k < |q| ==> Prio(prio, t) < Prio(prio, q[k])
  {
    hide Put, Prio;
    if q == [] || (byPrio && Prio(prio, t) < Prio(prio, q[0])) {
      k := 0;
      PutFirst(q, t);
    } else {
      var m := EnqueueSplit(q[1..], t, prio, byPrio);
      k := m + 1;
      PutLater(q, k, t);
      forall i | 0 <= i < k && byPrio ensures Prio(prio, q[i]) <= Prio(prio, t) {
        if i > 0 {
          assert q[i] == q[1..][i - 1];
        }
      }
    }
  }

  lemma PutFirst(q: seq<int>, t: int)
    ensures Put(q, 0, t) == [t] + q
  {
  }

  lemma PutLater(q: seq<int>, k: nat, t: int)
    requires 0 < k <= |q|
    ensures Put(q, k, t) == [q[0]] + Put(q[1..], k - 1, t)
    ensures k < |q| ==> q[1..][k - 1] == q[k]
  {
  }

  ghost predicate SortedByPrio(q: seq<int>, prio: Priorities) {
    forall i, j :: 0 <= i < j < |q| ==> Prio(prio, q[i]) <= Prio(prio, q[j])
  }

  /** Priority order is kept, and among equals the newcomer is last. */
  lemma EnqueueSorted(q: seq<int>, t: int, prio: Priorities)
    requires SortedByPrio(q, prio)
    ensures SortedByPrio(Enqueue(q, t, prio, true), prio)
  {
    var k := EnqueueSplit(q, t, prio, true);
  }

  lemma PutIn(q: seq<int>, k: nat, t: int)
    requires k <= |q|
    ensures forall x :: x in Put(q, k, t) <==> x in q || x == t
    ensures Distinct(q) && t !in q ==> Distinct(Put(q, k, t))
  {
    var r := Put(q, k, t);
    assert r[k] == t;
    forall x | x in q ensures x in r {
      var i :| 0 <= i < |q| && q[i] == x;
      assert r[if i < k then i else i + 1] == x;
    }
  }

  lemma EnqueueIn(q: seq<int>, t: int, prio: Priorities, byPrio: bool)
    ensures forall x :: x in Enqueue(q, t, prio, byPrio) <==> x in q || x == t
    ensures Distinct(q) && t !in q ==> Distinct(Enqueue(q, t, prio, byPrio))
  {
    hide Enqueue, Distinct;
    var k := EnqueueSplit(q, t, prio, byPrio);
    PutIn(q, k, t);
  }

  /** rt_ipc_list_suspend on the links of the list nodes; `l` heads the list `q`. */
  method Suspend(nodes: ListNodes, l: int, ghost q: seq<int>, t: int, prio: Priorities, byPrio: bool)
    requires IsRing([l] + q, nodes.next, nodes.prev) && t !in [l] + q
    modifies nodes
    ensures IsRing([l] + Enqueue(q, t, prio, byPrio), nodes.next, nodes.prev)
    ensures forall x :: x !in [l] + q && x != t ==>
              Same(x, old(nodes.next), nodes.next) && Same(x, old(nodes.prev), nodes.prev)
  {
    hide Enqueue, Distinct, IsRing, Put;
    ghost var list := [l] + q;
    ghost var m := EnqueueSplit(q, t, prio, byPrio);
    if !byPrio {
      nodes.InsertBefore(list, 0, l, t);
      PutInRing(l, q, |q|, t);
      return;
    }
    Neighbours(list, nodes.next, nodes.prev, 0);
    var n := nodes.next[l];
    ghost var k := 0;
    while n != l
      invariant k <= m && nodes.next == old(nodes.next) && nodes.prev == old(nodes.prev)
      invariant n == if k < |q| then q[k] else l
      decreases |q| - k
    {
      if Prio(prio, t) < Prio(prio, n) {
        nodes.InsertBefore(list, k + 1, n, t);
        PutInRing(l, q, k, t);
        return;
      }
      Neighbours(list, nodes.next, nodes.prev, k + 1);
      n := nodes.next[n];
      k := k + 1;
    }
    HeadApart(l, q, k, nodes.next, nodes.prev);
    nodes.InsertBefore(list, 0, l, t);
    PutInRing(l, q, |q|, t);
  }

  lemma HeadApart(l: int, q: seq<int>, k: nat, next: Links, prev: Links)
    requires IsRing([l] + q, next, prev)
    ensures k < |q| ==> q[k] != l
  {
    assert k < |q| ==> ([l] + q)[k + 1] == q[k];
  }

  lemma PutInRing(l: int, q: seq<int>, k: nat, t: int)
    requires k <= |q|
    ensures Insert([l] + q, k, t) == [l] + Put(q, k, t)
    ensures k == |q| ==> [l] + q + [t] == [l] + Put(q, k, t)
  {
  }

  /** The threads that wait for something an IPC object has to give. */
  datatype Waiters = Waiters(asleep: seq<int>, woken: set<int>)

  ghost predicate WaitersOk(w: Waiters) {
    Distinct(w.asleep) && forall t :: t in w.woken ==> t !in w.asleep
  }

  ghost predicate Waits(w: Waiters, t: int) {
    t in w.asleep || t in w.woken
  }

  /** While somebody sleeps, everything on offer is spoken for by threads already woken. */
  ghost predicate NoneForgotten(w: Waiters, offer: nat) {
    w.asleep != [] ==> offer <= |w.woken|
  }

  /** rt_ipc_list_resume, when the list is not empty. */
  function Wake(w: Waiters): Waiters {
    if w.asleep == [] then w else Waiters(w.asleep[1..], w.woken + {w.asleep[0]})
  }

  /** The thread runs. */
  function Run(w: Waiters, t: int): Waiters {
    Waiters(w.asleep, w.woken - {t})
  }

  function Sleep(w: Waiters, t: int, prio: Priorities, byPrio: bool): Waiters {
    Waiters(Enqueue(w.asleep, t, prio, byPrio), w.woken - {t})
  }

  /** The thread's timer expires: it leaves the list with an error and returns to its caller. */
  function Expire(w: Waiters, i: nat): Waiters
    requires i < |w.asleep|
  {
    Waiters(Without(w.asleep, i), w.woken)
  }

  /** rt_ipc_list_resume_all: everybody leaves with an error. */
  function Dismiss(w: Waiters): Waiters {
    Waiters([], w.woken)
  }

  /** One more is on offer, and the first sleeper is resumed. */
  lemma Offered(w: Waiters, offer: nat)
    requires WaitersOk(w) && NoneForgotten(w, offer)
    ensures WaitersOk(Wake(w)) && NoneForgotten(Wake(w), offer + 1)
    ensures forall t :: Waits(Wake(w), t) <==> Waits(w, t)
  {
    if w.asleep != [] {
      assert w.asleep[0] in w.asleep;
      assert |w.woken + {w.asleep[0]}| == |w.woken| + 1;
      assert w.asleep == [w.asleep[0]] + w.asleep[1..];
    }
  }

  /** One less is on offer: taken by a woken thread, or by a newcomer ahead of it. */
  lemma Claimed(w: Waiters, t: int, offer: nat)
    requires WaitersOk(w) && NoneForgotten(w, offer) && offer > 0 && t !in w.asleep
    ensures WaitersOk(Run(w, t)) && NoneForgotten(Run(w, t), offer - 1)
    ensures forall x :: Waits(Run(w, t), x) <==> Waits(w, x) && x != t
  {
    if t in w.woken {
      assert |w.woken - {t}| == |w.woken| - 1;
      assert t !in w.asleep;
    } else {
      assert w.woken - {t} == w.woken;
    }
  }

  /** Nothing is on offer, and the thread goes (back) to sleep or gives up. */
  lemma Refused(w: Waiters, t: int, prio: Priorities, byPrio: bool)
    requires WaitersOk(w) && t !in w.asleep
    ensures t in Sleep(w, t, prio, byPrio).asleep
    ensures WaitersOk(Sleep(w, t, prio, byPrio)) && NoneForgotten(Sleep(w, t, prio, byPrio), 0)
    ensures WaitersOk(Run(w, t)) && NoneForgotten(Run(w, t), 0)
    ensures forall x :: Waits(Sleep(w, t, prio, byPrio), x) <==> Waits(w, x) || x == t
    ensures forall x :: Waits(Run(w, t), x) <==> Waits(w, x) && x != t
  {
    EnqueueIn(w.asleep, t, prio, byPrio);
  }

  lemma Expired(w: Waiters, i: nat, offer: nat)
    requires WaitersOk(w) && NoneForgotten(w, offer) && i < |w.asleep|
    ensures WaitersOk(Expire(w, i)) && NoneForgotten(Expire(w, i), offer) && Waits(w, w.asleep[i])
    ensures forall x :: Waits(Expire(w, i), x) <==> Waits(w, x) && x != w.asleep[i]
  {
    var r := Without(w.asleep, i);
    assert w.asleep[i] in w.asleep;
    forall x | x in w.asleep && x != w.asleep[i] ensures x in r {
      var k :| 0 <= k < |w.asleep| && w.asleep[k] == x;
      assert r[if k < i then k else k - 1] == x;
    }
  }

  lemma Dismissed(w: Waiters, offer: nat)
    requires WaitersOk(w)
    ensures Dismiss(w).asleep == [] && WaitersOk(Dismiss(w)) && NoneForgotten(Dismiss(w), offer)
    ensures forall t :: Waits(Dismiss(w), t) ==> Waits(w, t)
  {
  }

  /** The first sleeper, and nobody else, was resumed, and the others keep their order. */
  ghost predicate FirstResumed(w: Waiters, w': Waiters) {
    if w.asleep == [] then w' == w
    else w.asleep == [w.asleep[0]] + w'.asleep && w'.woken == w.woken + {w.asleep[0]}
  }

  lemma WakeFirst(w: Waiters)
    ensures FirstResumed(w, Wake(w))
  {
  }

  // ---- who is served first ----

  /** When thread `t` last went to sleep, `came` being the threads in the order in which they did. */
  function Slept(came: seq<int>, t: int): (k: int)
    ensures -1 <= k < |came| && (k >= 0 ==> came[k] == t)
    decreases |came|
  {
    if came == [] then -1
    else if came[|came| - 1] == t then |came| - 1
    else Slept(came[..|came| - 1], t)
  }

  /** Thread `a` is to be served before `b`: the more urgent one under the PRIO flag, and the
      one that came first among equals and under the FIFO flag. */
  ghost predicate Precedes(a: int, b: int, came: seq<int>, prio: Priorities, byPrio: bool) {
    || (byPrio && Prio(prio, a) < Prio(prio, b))
    || ((!byPrio || Prio(prio, a) == Prio(prio, b)) && Slept(came, a) < Slept(came, b))
  }

  ghost predicate Lined(q: seq<int>, came: seq<int>, prio: Priorities, byPrio: bool) {
    forall i, j :: 0 <= i < j < |q| ==> Precedes(q[i], q[j], came, prio, byPrio)
  }

  lemma SleptOne(came: seq<int>, t: int, x: int)
    ensures Slept(came + [t], x) == if x == t then |came| else Slept(came, x)
  {
    assert (came + [t])[..|came|] == came;
  }

  /** A thread that goes to sleep takes its place in the line. */
  lemma LinedSleep(q: seq<int>, t: int, came: seq<int>, prio: Priorities, byPrio: bool)
    requires Lined(q, came, prio, byPrio) && t !in q
    ensures Lined(Enqueue(q, t, prio, byPrio), came + [t], prio, byPrio)
  {
    hide Enqueue, Slept, Prio, Put;
    var k := EnqueueSplit(q, t, prio, byPrio);
    LinedPut(q, k, t, came, prio, byPrio);
  }

  lemma LinedPut(q: seq<int>, k: nat, t: int, came: seq<int>, prio: Priorities, byPrio: bool)
    requires Lined(q, came, prio, byPrio) && t !in q && k <= |q| && (!byPrio ==> k == |q|)
    requires byPrio ==> forall i :: 0 <= i < k ==> Prio(prio, q[i]) <= Prio(prio, t)
    requires k < |q| ==> Prio(prio, t) < Prio(prio, q[k])
    ensures Lined(Put(q, k, t), came + [t], prio, byPrio)
  {
    hide Slept, Prio;
    var r := Put(q, k, t);
    forall i | 0 <= i < |r| ensures i != k ==> r[i] == q[if i < k then i else i - 1] && r[i] != t {
      assert i != k ==> q[if i < k then i else i - 1] in q;
    }
    forall i, j | 0 <= i < j < |r| ensures Precedes(r[i], r[j], came + [t], prio, byPrio) {
      SleptOne(came, t, r[i]);
      SleptOne(came, t, r[j]);
      var i0, j0 := if i < k then i else i - 1, if j < k then j else j - 1;
      assert i != k && j != k ==> Precedes(q[i0], q[j0], came, prio, byPrio);
      assert i == k && j > k + 1 ==> Precedes(q[k], q[j0], came, prio, byPrio);
    }
  }

  /** The head leaves the line; it precedes everybody left in it. */
  lemma LinedTail(q: seq<int>, came: seq<int>, prio: Priorities, byPrio: bool)
    requires Lined(q, came, prio, byPrio) && q != []
    ensures Lined(q[1..], came, prio, byPrio)
    ensures forall x :: x in q[1..] ==> Precedes(q[0], x, came, prio, byPrio)
  {
    hide Precedes;
    var r := q[1..];
    assert forall i :: 0 <= i < |r| ==> r[i] == q[i + 1];
    forall x | x in r ensures Precedes(q[0], x, came, prio, byPrio) {
      var i :| 0 <= i < |r| && r[i] == x;
      assert q[i + 1] == x;
    }
  }

  lemma LinedWithout(q: seq<int>, i: nat, came: seq<int>, prio: Priorities, byPrio: bool)
    requires Lined(q, came, prio, byPrio) && i < |q|
    ensures Lined(Without(q, i), came, prio, byPrio)
  {
    hide Precedes;
    var r := Without(q, i);
    assert forall k :: 0 <= k < |r| ==> r[k] == q[if k < i then k else k + 1];
  }

  lemma LinedRest(w: Waiters, t: int, came: seq<int>, prio: Priorities, byPrio: bool)
    ensures Run(w, t).asleep == w.asleep && Lined(Dismiss(w).asleep, came, prio, byPrio)
  {
  }

  /** The threads resumed between `w` and `w'` precede everybody left asleep. */
  ghost predicate ServedInOrder(w: Waiters, w': Waiters, came: seq<int>, prio: Priorities, byPrio: bool) {
    forall t, x :: t in w'.woken && t !in w.woken && x in w'.asleep ==> t in w.asleep && Precedes(t, x, came, prio, byPrio)
  }

  lemma WakeInOrder(w: Waiters, came: seq<int>, prio: Priorities, byPrio: bool)
    requires Lined(w.asleep, came, prio, byPrio)
    ensures Lined(Wake(w).asleep, came, prio, byPrio)
    ensures ServedInOrder(w, Wake(w), came, prio, byPrio)
  {
    hide Precedes, Lined;
    if w.asleep != [] {
      LinedTail(w.asleep, came, prio, byPrio);
    }
  }

  lemma NobodyResumed(w: Waiters, w': Waiters, came: seq<int>, prio: Priorities, byPrio: bool)
    requires w'.woken <= w.woken
    ensures ServedInOrder(w, w', came, prio, byPrio)
  {
  }

  /** Nobody sleeps beside a message or a free place that no woken thread is about to take, and
      a thread is in one call at a time; `busy` are the threads in the middle of a copy. */
  ghost predicate WakingOk(receivers: Waiters, senders: Waiters, busy: set<int>, messages: nat, room: nat) {
    && WaitersOk(receivers) && WaitersOk(senders)
    && NoneForgotten(receivers, messages) && NoneForgotten(senders, room)
    && (forall t :: Waits(receivers, t) ==> !Waits(senders, t))
    && (forall t :: t in busy ==> !Waits(receivers, t) && !Waits(senders, t))
  }

  /** Thread `t` moves on, and the others stay where they are or leave. */
  lemma WakingStep(r: Waiters, s: Waiters, busy: set<int>, messages: nat, room: nat,
                   t: int, r': Waiters, s': Waiters, busy': set<int>, messages': nat, room': nat)
    requires WakingOk(r, s, busy, messages, room)
    requires WaitersOk(r') && WaitersOk(s') && NoneForgotten(r', messages') && NoneForgotten(s', room')
    requires forall x :: x != t && Waits(r', x) ==> Waits(r, x)
    requires forall x :: x != t && Waits(s', x) ==> Waits(s, x)
    requires forall x :: x != t && x in busy' ==> x in busy
    requires !(Waits(r', t) && Waits(s', t)) && (t in busy' ==> !Waits(r', t) && !Waits(s', t))
    ensures WakingOk(r', s', busy', messages', room')
  {
  }

  /** Everybody leaves on both sides, whatever is on offer then. */
  lemma DismissedAll(r: Waiters, s: Waiters, busy: set<int>, messages: nat, room: nat, messages': nat, room': nat)
    requires WakingOk(r, s, busy, messages, room)
    ensures WakingOk(Dismiss(r), Dismiss(s), busy, messages', room')
  {
    hide WaitersOk, NoneForgotten;
    Dismissed(r, messages');
    Dismissed(s, room');
  }
}
