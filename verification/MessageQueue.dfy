/**
 The message queue of ipc.c as a step machine: each method is one region between disabling and
 enabling interrupts, or one copy made outside such a region.  While a message is copied in or
 out its node is in neither list.
 */
module MessageQueue {
  import opened Words
  import opened Ring
  import opened Chain
  import opened Waiting

  type Message = seq<byte>

  /** What a thread inside rt_mq_send_wait, rt_mq_urgent or rt_mq_recv has in its hands. */
  datatype Hold = Filling(node: int, urgent: bool) | Ready(node: int, urgent: bool) | Emptying(node: int)

  datatype Place = Queued | Free | Held(thread: int)

  datatype Outcome = Taken | Asleep | Full | Empty | TooBig

  /** The free list, the queued list and the nodes in threads' hands are disjoint and together
      are all nodes, and no two threads hold the same node. */
  ghost predicate Placed(queued: seq<int>, free: seq<int>, hold: map<int, Hold>, place: map<int, Place>, maxMsgs: nat) {
    && (forall x {:trigger x in place} :: x in place <==> 0 <= x < maxMsgs)
    && (forall x {:trigger x in queued} :: x in queued <==> x in place && place[x] == Queued)
    && (forall x {:trigger x in free} :: x in free <==> x in place && place[x] == Free)
    && (forall t {:trigger t in hold} :: t in hold ==> hold[t].node in place && place[hold[t].node] == Held(t))
    && (forall x {:trigger place[x]} :: x in place && place[x].Held? ==>
          place[x].thread in hold && hold[place[x].thread].node == x)
  }

  /** A node from the free list comes into thread `t`'s hands. */
  lemma FreeToHold(queued: seq<int>, free: seq<int>, hold: map<int, Hold>, place: map<int, Place>,
          maxMsgs: nat, t: int, urgent: bool)
    requires Placed(queued, free, hold, place, maxMsgs) && Distinct(free) && free != [] && t !in hold
    ensures Placed(queued, free[1..], hold[t := Filling(free[0], urgent)], place[free[0] := Held(t)], maxMsgs)
  {
    hide Distinct;
    TailIn(free);
    var n := free[0];
    assert n in free;
  }

  lemma QueuedToHold(queued: seq<int>, free: seq<int>, hold: map<int, Hold>, place: map<int, Place>,
          maxMsgs: nat, t: int)
    requires Placed(queued, free, hold, place, maxMsgs) && Distinct(queued) && queued != [] && t !in hold
    ensures Placed(queued[1..], free, hold[t := Emptying(queued[0])], place[queued[0] := Held(t)], maxMsgs)
  {
    hide Distinct;
    TailIn(queued);
    var n := queued[0];
    assert n in queued;
  }

  lemma HoldToQueued(queued: seq<int>, free: seq<int>, hold: map<int, Hold>, place: map<int, Place>,
          maxMsgs: nat, t: int)
    requires Placed(queued, free, hold, place, maxMsgs) && t in hold
    ensures var n := hold[t].node;
            && n !in queued && n !in free && 0 <= n < maxMsgs
            && Placed(queued + [n], free, hold - {t}, place[n := Queued], maxMsgs)
            && Placed([n] + queued, free, hold - {t}, place[n := Queued], maxMsgs)
  {
    var n := hold[t].node;
    assert n in place && place[n] == Held(t);
  }

  lemma HoldToFree(queued: seq<int>, free: seq<int>, hold: map<int, Hold>, place: map<int, Place>, maxMsgs: nat, t: int)
    requires Placed(queued, free, hold, place, maxMsgs) && t in hold
    ensures var n := hold[t].node;
            && n !in queued && n !in free && 0 <= n < maxMsgs
            && Placed(queued, [n] + free, hold - {t}, place[n := Free], maxMsgs)
  {
    var n := hold[t].node;
    assert n in place && place[n] == Held(t);
  }

  lemma QueuedToFree(queued: seq<int>, free: seq<int>, hold: map<int, Hold>, place: map<int, Place>, maxMsgs: nat)
    requires Placed(queued, free, hold, place, maxMsgs) && Distinct(queued) && queued != []
    ensures queued[0] !in free && 0 <= queued[0] < maxMsgs
    ensures Placed(queued[1..], [queued[0]] + free, hold, place[queued[0] := Free], maxMsgs)
  {
    hide Distinct;
    TailIn(queued);
    var n := queued[0];
    assert n in queued;
  }

  lemma SameHold(queued: seq<int>, free: seq<int>, hold: map<int, Hold>, place: map<int, Place>, maxMsgs: nat,
          t: int, h: Hold)
    requires Placed(queued, free, hold, place, maxMsgs) && t in hold && h.node == hold[t].node
    ensures Placed(queued, free, hold[t := h], place, maxMsgs)
    ensures h.node !in queued && h.node !in free && 0 <= h.node < maxMsgs
    ensures forall u :: u in hold && u != t ==> hold[u].node != h.node
  {
    assert place[h.node] == Held(t);
  }

  /** Every node is in exactly one of the three places. */
  lemma Partition(queued: seq<int>, free: seq<int>, hold: map<int, Hold>, place: map<int, Place>, maxMsgs: nat, n: int)
    requires Placed(queued, free, hold, place, maxMsgs)
    ensures 0 <= n < maxMsgs <==> n in queued || n in free || exists t :: t in hold && hold[t].node == n
    ensures !(n in queued && n in free)
    ensures forall t :: t in hold && hold[t].node == n ==> n !in queued && n !in free
    ensures forall t, u :: t in hold && u in hold && hold[t].node == n && hold[u].node == n ==> t == u
  {
    if n in place && place[n].Held? {
      var t := place[n].thread;
      assert t in hold && hold[t].node == n;
    }
  }

  lemma NoneQueued(queued: seq<int>, free: seq<int>, hold: map<int, Hold>, place: map<int, Place>, maxMsgs: nat)
    requires Placed(queued, free, hold, place, maxMsgs)
    ensures forall t :: t in hold ==> hold[t].node !in queued
    ensures forall x :: x in queued ==> x !in free
  {
  }

  lemma QueuedNotHeld(queued: seq<int>, free: seq<int>, hold: map<int, Hold>, place: map<int, Place>,
          maxMsgs: nat, n: int)
    requires Placed(queued, free, hold, place, maxMsgs) && n in queued
    ensures forall t :: t in hold ==> hold[t].node != n
  {
  }

  lemma NonePlaced()
    ensures Placed([], [], map[], map[], 0)
  {
  }

  lemma OneMore(free: seq<int>, place: map<int, Place>, n: nat)
    requires Placed([], free, map[], place, n)
    ensures n !in free && Placed([], [n] + free, map[], place[n := Free], n + 1)
  {
  }

  function Get(body: map<int, Message>, n: int): Message {
    if n in body then body[n] else []
  }

  /** The messages in the queue, in the order in which they leave. */
  function Bodies(q: seq<int>, body: map<int, Message>): (r: seq<Message>)
    ensures |r| == |q|
  {
    seq(|q|, i requires 0 <= i < |q| => Get(body, q[i]))
  }

  function Reversed(q: seq<int>): (r: seq<int>)
    ensures |r| == |q|
  {
    if q == [] then [] else Reversed(q[1..]) + [q[0]]
  }

  lemma BodiesFrame(q: seq<int>, body: map<int, Message>, n: int, m: Message)
    requires n !in q
    ensures Bodies(q, body[n := m]) == Bodies(q, body)
  {
  }

  lemma BodiesParts(q: seq<int>, body: map<int, Message>, n: int)
    ensures Bodies(q + [n], body) == Bodies(q, body) + [Get(body, n)]
    ensures Bodies([n] + q, body) == [Get(body, n)] + Bodies(q, body)
    ensures q != [] ==> Bodies(q, body) == [Get(body, q[0])] + Bodies(q[1..], body)
  {
  }

  /** A filled node holds a whole message and, unless urgent, ends a chain; a node being emptied
      still holds the message that was taken. */
  ghost predicate CopiesOk(body: map<int, Message>, hold: map<int, Hold>, due: map<int, Message>, next: Links,
          maxMsgs: nat, msgSize: nat) {
    && (forall n :: 0 <= n < maxMsgs ==> n in body && |body[n]| == msgSize)
    && (forall t :: t in hold ==> CopyOk(hold[t], t, body, due, next))
  }

  ghost predicate CopyOk(h: Hold, t: int, body: map<int, Message>, due: map<int, Message>, next: Links) {
    match h
    case Filling(n, urgent) => true
    case Ready(n, urgent) => urgent || (n in next && next[n] == NULL)
    case Emptying(n) => t in due && due[t] == Get(body, n)
  }

  lemma JustTaken(t: int, msg: int, body: map<int, Message>, due: map<int, Message>, next: Links)
    ensures CopyOk(Emptying(msg), t, body, due[t := Get(body, msg)], next)
  {
  }

  /** Thread `t` moves on, and no link of another thread's node changes. */
  lemma CopiesStep(body: map<int, Message>, hold: map<int, Hold>, due: map<int, Message>, next: Links,
          maxMsgs: nat, msgSize: nat,
                   t: int, hold': map<int, Hold>, due': map<int, Message>, next': Links)
    requires CopiesOk(body, hold, due, next, maxMsgs, msgSize)
    requires forall x :: x in hold' && x != t ==>
               x in hold && hold'[x] == hold[x] && (x in due ==> x in due' && due'[x] == due[x])
    requires forall x :: x in hold' && x != t ==> Same(hold'[x].node, next, next')
    requires t in hold' ==> CopyOk(hold'[t], t, body, due', next')
    ensures CopiesOk(body, hold', due', next', maxMsgs, msgSize)
  {
  }

  /** The copy into a node that `t` fills. */
  lemma FillCopies(body: map<int, Message>, hold: map<int, Hold>, due: map<int, Message>, next: Links,
          maxMsgs: nat, msgSize: nat, t: int, m: Message)
    requires CopiesOk(body, hold, due, next, maxMsgs, msgSize) && t in hold && hold[t].Filling? && |m| == msgSize
    requires forall u :: u in hold && u != t ==> hold[u].node != hold[t].node
    ensures var h := hold[t];
            var next' := if h.urgent then next else next[h.node := NULL];
            CopiesOk(body[h.node := m], hold[t := Ready(h.node, h.urgent)], due, next', maxMsgs, msgSize)
  {
  }

  lemma NobodyWaits(n: nat)
    ensures var none: map<int, Hold> := map[]; WakingOk(Waiters([], {}), Waiters([], {}), none.Keys, 0, n)
  {
  }

  lemma NoCopies(body: map<int, Message>, next: Links, maxMsgs: nat, msgSize: nat)
    requires forall n :: 0 <= n < maxMsgs ==> n in body && |body[n]| == msgSize
    ensures CopiesOk(body, map[], map[], next, maxMsgs, msgSize)
  {
  }

  class Queue {
    const maxMsgs: nat
    const msgSize: nat
    const byPrio: bool
    const prio: Priorities

    var next: Links
    var head: int
    var tail: int
    var freeHead: int
    var entry: nat
    var body: map<int, Message>
    var receivers: Waiters
    var senders: Waiters
    /** The threads in the middle of a call. */
    var hold: map<int, Hold>

    ghost var queued: seq<int>
    ghost var free: seq<int>
    ghost var place: map<int, Place>
    /** The message each receiver has taken and not yet returned with. */
    ghost var due: map<int, Message>
    /** The threads of either side in the order in which they went to sleep. */
    ghost var receiversCame: seq<int>
    ghost var sendersCame: seq<int>

    /** The two chains and the tail. */
    ghost predicate Chains()
      reads this`next, this`head, this`tail, this`freeHead, this`queued, this`free
    {
      && IsChain(queued, head, next) && IsChain(free, freeHead, next)
      && tail == (if queued == [] then NULL else queued[|queued| - 1])
    }

    ghost predicate Lists()
      reads this`next, this`head, this`tail, this`freeHead, this`entry, this`hold, this`queued, this`free, this`place
    {
      Chains() && entry == |queued| && Placed(queued, free, hold, place, maxMsgs)
    }

    ghost predicate Copies()
      reads this`next, this`body, this`hold, this`due
    {
      CopiesOk(body, hold, due, next, maxMsgs, msgSize)
    }

    ghost predicate Waking()
      reads this`receivers, this`senders, this`hold, this`queued, this`free
    {
      WakingOk(receivers, senders, hold.Keys, |queued|, |free|)
    }

    /** Both waiting lists are in the order in which their threads are to be served. */
    ghost predicate Lines()
      reads this`receivers, this`senders, this`receiversCame, this`sendersCame
    {
      && Lined(receivers.asleep, receiversCame, prio, byPrio)
      && Lined(senders.asleep, sendersCame, prio, byPrio)
    }

    ghost predicate Valid()
      reads this
    {
      Lists() && Copies() && Waking() && Lines()
    }

    ghost function Contents(): seq<Message>
      reads this`queued, this`body
    {
      Bodies(queued, body)
    }

    lemma WakingParts(t: int)
      requires Waking()
      ensures WaitersOk(receivers) && WaitersOk(senders)
      ensures NoneForgotten(receivers, |queued|) && NoneForgotten(senders, |free|)
      ensures t in hold ==> !Waits(receivers, t) && !Waits(senders, t)
    {
    }

    /** Thread `t` moved on and the others did not. */
    twostate lemma Moved(t: int)
      requires old(Copies()) && old(Waking()) && body == old(body)
      requires WaitersOk(receivers) && NoneForgotten(receivers, |queued|)
      requires WaitersOk(senders) && NoneForgotten(senders, |free|)
      requires forall x :: x != t && Waits(receivers, x) ==> old(Waits(receivers, x))
      requires forall x :: x != t && Waits(senders, x) ==> old(Waits(senders, x))
      requires !(Waits(receivers, t) && Waits(senders, t))
      requires t in hold ==> !Waits(receivers, t) && !Waits(senders, t) && CopyOk(hold[t], t, body, due, next)
      requires forall x :: x in hold && x != t ==>
                 x in old(hold) && hold[x] == old(hold)[x] && Same(hold[x].node, old(next), next)
      requires forall x :: x in old(due) && x != t ==> x in due && due[x] == old(due)[x]
      ensures Copies() && Waking()
    {
      hide WaitersOk, NoneForgotten, Waits, WakingOk, CopiesOk, CopyOk;
      CopiesStep(body, old(hold), old(due), old(next), maxMsgs, msgSize, t, hold, due, next);
      WakingStep(old(receivers), old(senders), old(hold).Keys, |old(queued)|, |old(free)|,
                 t, receivers, senders, hold.Keys, |queued|, |free|);
    }

    /** rt_mq_init: every node goes to the front of the free list. */
    constructor (maxMsgs: nat, msgSize: nat, byPrio: bool, prio: Priorities)
      ensures Valid() && this.maxMsgs == maxMsgs && this.msgSize == msgSize
      ensures queued == [] && |free| == maxMsgs && hold == map[]
      ensures receivers == Waiters([], {}) && senders == Waiters([], {})
    {
      hide IsChain, Placed, CopiesOk, WakingOk, Distinct;
      this.maxMsgs, this.msgSize, this.byPrio, this.prio := maxMsgs, msgSize, byPrio, prio;
      head, tail, entry := NULL, NULL, 0;
      receivers, senders, hold := Waiters([], {}), Waiters([], {}), map[];
      queued, due, receiversCame, sendersCame := [], map[], [], [];
      next, freeHead, free := map[], NULL, [];
      place, body := map[], map[];
      new;
      EmptyChain(next);
      NonePlaced();
      NobodyWaits(maxMsgs);
      var memory := seq(msgSize, i => 0);
      var i: nat := 0;
      while i < maxMsgs
        invariant i <= maxMsgs && |free| == i
        invariant IsChain(free, freeHead, next) && Placed([], free, map[], place, i)
        invariant forall n :: 0 <= n < i ==> n in body && |body[n]| == msgSize
        modifies this`next, this`freeHead, this`free, this`body, this`place
      {
        AddNode(i, memory);
        i := i + 1;
      }
      EmptyChain(next);
      NoCopies(body, next, maxMsgs, msgSize);
    }

    /** One round of the loop over the pool. */
    method AddNode(i: nat, memory: Message)
      requires IsChain(free, freeHead, next) && Placed([], free, map[], place, i)
      modifies this`next, this`freeHead, this`free, this`body, this`place
      ensures IsChain(free, freeHead, next) && Placed([], free, map[], place, i + 1)
      ensures free == [i] + old(free) && body == old(body)[i := memory]
    {
      hide IsChain, Placed;
      OneMore(free, place, i);
      ChainPush(free, freeHead, next, i);
      next := next[i := freeHead];
      body := body[i := memory];
      freeHead := i;
      place := place[i := Free];
      free := [i] + free;
    }

    /** The critical section that takes a free node: a new call of rt_mq_send_wait or rt_mq_urgent,
        or a sender that was woken and looks again, `timeout` being what is left to wait. */
    method SendTry(t: int, size: nat, urgent: bool, timeout: int) returns (r: Outcome)
      requires Valid() && t !in hold && t !in senders.asleep && !Waits(receivers, t)
      requires t in senders.woken ==> size <= msgSize && !urgent
      modifies this`freeHead, this`free, this`hold, this`place, this`senders, this`sendersCame
      ensures Valid()
      ensures sendersCame == if r == Asleep then old(sendersCame) + [t] else old(sendersCame)
      ensures r == if size > msgSize then TooBig else if |old(free)| > 0 then Taken
                   else if urgent || timeout == 0 then Full else Asleep
      ensures r == TooBig ==> unchanged(this)
      ensures r == Taken ==> t in hold && hold == old(hold)[t := Filling(old(free)[0], urgent)] && free == old(free)[1..]
      ensures r != Taken ==> hold == old(hold) && free == old(free)
      ensures r != TooBig ==>
                senders == if r == Asleep then Sleep(old(senders), t, prio, byPrio) else Run(old(senders), t)
    {
      hide IsChain, Placed, Distinct, Bodies, Enqueue, Run, Sleep, Chains, Copies, Waking, Waits, Lines;
      if size > msgSize {
        return TooBig;
      }
      FreeKnown();
      if freeHead == NULL {
        SenderRefused(t, urgent || timeout == 0);
        return if urgent || timeout == 0 then Full else Asleep;
      }
      TakeFree(t, urgent);
      return Taken;
    }

    lemma FreeKnown()
      requires Lists()
      ensures freeHead == NULL <==> free == []
    {
      hide IsChain, Placed;
      ChainFirst(free, freeHead, next);
    }

    /** The sender gives up, or sleeps. */
    method SenderRefused(t: int, last: bool)
      requires Valid() && t !in hold && t !in senders.asleep && !Waits(receivers, t) && free == []
      modifies this`senders, this`sendersCame
      ensures Valid()
      ensures senders == if last then Run(old(senders), t) else Sleep(old(senders), t, prio, byPrio)
      ensures sendersCame == if last then old(sendersCame) else old(sendersCame) + [t]
    {
      hide IsChain, Placed, WaitersOk, NoneForgotten, Distinct, Waits, CopiesOk, WakingOk, CopyOk, Enqueue, Chains, Lined;
      WakingParts(t);
      Refused(senders, t, prio, byPrio);
      LinedSleep(senders.asleep, t, sendersCame, prio, byPrio);
      senders := if last then Run(senders, t) else Sleep(senders, t, prio, byPrio);
      sendersCame := if last then sendersCame else sendersCame + [t];
      Moved(t);
    }

    /** The first free node comes into the sender's hands. */
    method TakeFree(t: int, urgent: bool)
      requires Valid() && t !in hold && t !in senders.asleep && !Waits(receivers, t) && free != []
      modifies this`freeHead, this`free, this`hold, this`place, this`senders
      ensures Valid() && hold == old(hold)[t := Filling(old(free)[0], urgent)] && free == old(free)[1..]
      ensures senders == Run(old(senders), t)
    {
      hide IsChain, Placed, WaitersOk, NoneForgotten, Distinct, Waits, CopiesOk, WakingOk, Bodies, Lined, Run, Chains, Lines;
      WakingParts(t);
      LinedRest(senders, t, sendersCame, prio, byPrio);
      Claimed(senders, t, |free|);
      HoldFree(t, urgent);
      senders := Run(senders, t);
      Moved(t);
      LinesKept();
    }

    /** The first free node comes into `t`'s hands. */
    method HoldFree(t: int, urgent: bool)
      requires Lists() && t !in hold && free != []
      modifies this`freeHead, this`free, this`hold, this`place
      ensures Lists() && hold == old(hold)[t := Filling(old(free)[0], urgent)] && free == old(free)[1..]
    {
      hide IsChain, Placed, Distinct;
      ChainFirst(free, freeHead, next);
      ChainDistinct(free, freeHead, next);
      FreeToHold(queued, free, hold, place, maxMsgs, t, urgent);
      var n := freeHead;
      freeHead := next[n];
      hold := hold[t := Filling(n, urgent)];
      place := place[n := Held(t)];
      free := free[1..];
    }

    twostate lemma LinesKept()
      requires old(Lines()) && receivers.asleep == old(receivers).asleep && senders.asleep == old(senders).asleep
      requires receiversCame == old(receiversCame) && sendersCame == old(sendersCame)
      ensures Lines()
    {
      hide Lined;
    }

    /** The copy into the node; a normal message also becomes the end of a chain. */
    method Fill(t: int, data: Message)
      requires Valid() && t in hold && hold[t].Filling? && |data| <= msgSize
      modifies this`next, this`body, this`hold
      ensures Valid() && Contents() == old(Contents())
      ensures var h := old(hold[t]);
              && hold == old(hold)[t := Ready(h.node, h.urgent)]
              && |Get(body, h.node)| == msgSize && Get(body, h.node)[..|data|] == data
              && forall x :: x != h.node ==> Get(body, x) == Get(old(body), x)
    {
      hide IsChain, Placed, WaitersOk, NoneForgotten, Distinct, Waits, Bodies, CopiesOk, CopyOk, WakingOk, Chains, Lines;
      var h := hold[t];
      var n := h.node;
      WakingParts(t);
      InPool(t);
      SameHold(queued, free, hold, place, maxMsgs, t, Ready(n, h.urgent));
      if !h.urgent {
        EndChain(n);
      }
      ghost var m := data + body[n][|data|..];
      FillCopies(body, hold, due, old(next), maxMsgs, msgSize, t, m);
      BodiesFrame(queued, body, n, m);
      body := body[n := data + body[n][|data|..]];
      hold := hold[t := Ready(n, h.urgent)];
      WakingStep(receivers, senders, old(hold).Keys, |queued|, |free|, t, receivers, senders, hold.Keys, |queued|, |free|);
    }

    /** A node outside both chains gets the end mark. */
    method EndChain(n: int)
      requires Chains() && n !in queued && n !in free
      modifies this`next
      ensures Chains() && next == old(next)[n := NULL]
    {
      hide IsChain;
      ChainFrame(queued, head, next, n, NULL);
      ChainFrame(free, freeHead, next, n, NULL);
      next := next[n := NULL];
    }

    /** A filled node becomes the last message. */
    method Append(n: int)
      requires Chains() && n !in queued && n !in free && n != NULL && n in next && next[n] == NULL
      requires forall x :: x in queued ==> x !in free
      modifies this`next, this`head, this`tail, this`queued
      ensures Chains() && queued == old(queued) + [n]
      ensures forall x :: x !in old(queued) ==> Same(x, old(next), next)
    {
      hide IsChain, Distinct;
      ChainAppend(queued, head, next, n);
      ChainFirst(queued, head, next);
      if tail != NULL {
        assert tail in queued;
        FreeApart(tail, n);
        next := next[tail := n];
      }
      tail := n;
      if head == NULL {
        head := n;
      }
      queued := queued + [n];
    }

    /** An urgent node becomes the first message. */
    method Prepend(n: int)
      requires Chains() && n !in queued && n !in free && n != NULL
      modifies this`next, this`head, this`tail, this`queued
      ensures Chains() && queued == [n] + old(queued)
      ensures forall x :: x != n ==> Same(x, old(next), next)
    {
      hide IsChain, Distinct;
      ChainPush(queued, head, next, n);
      ChainFrame(free, freeHead, next, n, head);
      TailKnown();
      next := next[n := head];
      head := n;
      if tail == NULL {
        tail := n;
      }
      queued := [n] + queued;
    }

    /** The first message is taken off. */
    method TakeHead() returns (msg: int)
      requires Chains() && queued != []
      modifies this`head, this`tail, this`queued
      ensures Chains() && queued == old(queued)[1..] && msg == old(queued)[0]
    {
      hide IsChain, Distinct;
      ChainFirst(queued, head, next);
      TailKnown();
      msg := head;
      head := next[msg];
      if tail == msg {
        tail := NULL;
      }
      queued := queued[1..];
    }

    /** A link behind a queued node does not touch the free list. */
    lemma FreeApart(x: int, n: int)
      requires Chains() && x !in free
      ensures IsChain(free, freeHead, next[x := n])
    {
      ChainFrame(free, freeHead, next, x, n);
    }

    lemma TailKnown()
      requires Chains()
      ensures tail == NULL <==> queued == []
      ensures queued != [] ==> (tail == head <==> |queued| == 1)
      ensures |queued| > 1 ==> queued[1..] != [] && queued[1..][|queued[1..]| - 1] == tail
    {
      if queued != [] {
        ChainLast(queued, head, next);
      }
    }

    lemma ReadyEnds(t: int)
      requires Copies() && t in hold && hold[t].Ready? && !hold[t].urgent
      ensures hold[t].node in next && next[hold[t].node] == NULL
    {
    }

    /** The critical section that links a normal message behind the last one. */
    method SendLink(t: int)
      requires Valid() && t in hold && hold[t].Ready? && !hold[t].urgent
      modifies this`next, this`head, this`tail, this`entry, this`receivers, this`hold, this`queued, this`place
      ensures Valid() && hold == old(hold) - {t}
      ensures Contents() == old(Contents()) + [Get(body, old(hold[t].node))]
      ensures FirstResumed(old(receivers), receivers)
      ensures ServedInOrder(old(receivers), receivers, receiversCame, prio, byPrio)
    {
      hide IsChain, Placed, WaitersOk, NoneForgotten, Distinct, Waits, CopiesOk, CopyOk, WakingOk, Bodies, Wake, Chains;
      hide Lined, FirstResumed, ServedInOrder;
      WakingParts(t);
      ReadyEnds(t);
      BodiesParts(queued, body, hold[t].node);
      Offered(receivers, |queued|);
      WakeFirst(receivers);
      WakeInOrder(receivers, receiversCame, prio, byPrio);
      LinkLast(t);
      receivers := Wake(receivers);
      Moved(t);
    }

    /** The node in `t`'s hands becomes the last message. */
    method LinkLast(t: int)
      requires Lists() && t in hold && hold[t].node in next && next[hold[t].node] == NULL
      modifies this`next, this`head, this`tail, this`entry, this`hold, this`queued, this`place
      ensures Lists() && hold == old(hold) - {t} && queued == old(queued) + [old(hold[t].node)]
      ensures forall x :: x in hold ==> Same(hold[x].node, old(next), next)
    {
      hide IsChain, Placed, Distinct;
      var n := hold[t].node;
      HoldToQueued(queued, free, hold, place, maxMsgs, t);
      NoneQueued(queued, free, hold, place, maxMsgs);
      Append(n);
      entry := entry + 1;
      hold := hold - {t};
      place := place[n := Queued];
    }

    /** The critical section that links an urgent message before the first one. */
    method UrgentLink(t: int)
      requires Valid() && t in hold && hold[t].Ready? && hold[t].urgent
      modifies this`next, this`head, this`tail, this`entry, this`receivers, this`hold, this`queued, this`place
      ensures Valid() && hold == old(hold) - {t}
      ensures Contents() == [Get(body, old(hold[t].node))] + old(Contents())
      ensures FirstResumed(old(receivers), receivers)
      ensures ServedInOrder(old(receivers), receivers, receiversCame, prio, byPrio)
    {
      hide IsChain, Placed, WaitersOk, NoneForgotten, Distinct, Waits, CopiesOk, CopyOk, WakingOk, Bodies, Wake, Chains;
      hide Lined, FirstResumed, ServedInOrder;
      WakingParts(t);
      BodiesParts(queued, body, hold[t].node);
      Offered(receivers, |queued|);
      WakeFirst(receivers);
      WakeInOrder(receivers, receiversCame, prio, byPrio);
      LinkFirst(t);
      receivers := Wake(receivers);
      Moved(t);
    }

    /** The node in `t`'s hands becomes the first message. */
    method LinkFirst(t: int)
      requires Lists() && t in hold
      modifies this`next, this`head, this`tail, this`entry, this`hold, this`queued, this`place
      ensures Lists() && hold == old(hold) - {t} && queued == [old(hold[t].node)] + old(queued)
      ensures forall x :: x in hold ==> Same(hold[x].node, old(next), next)
    {
      hide IsChain, Placed, Distinct;
      var n := hold[t].node;
      SameHold(queued, free, hold, place, maxMsgs, t, hold[t]);
      HoldToQueued(queued, free, hold, place, maxMsgs, t);
      Prepend(n);
      entry := entry + 1;
      hold := hold - {t};
      place := place[n := Queued];
    }

    /** The critical section that takes the first message, or finds none. */
    method RecvTry(t: int, timeout: int) returns (r: Outcome)
      requires Valid() && t !in hold && t !in receivers.asleep && !Waits(senders, t)
      modifies this`head, this`tail, this`entry, this`hold, this`receivers, this`queued, this`place, this`due,
               this`receiversCame
      ensures Valid()
      ensures receiversCame == if r == Asleep then old(receiversCame) + [t] else old(receiversCame)
      ensures r == if |old(queued)| > 0 then Taken else if timeout == 0 then Empty else Asleep
      ensures r == Taken ==> t in due && old(Contents()) == [due[t]] + Contents()
      ensures r == Taken ==> hold == old(hold)[t := Emptying(old(queued)[0])] && queued == old(queued)[1..]
      ensures forall x :: x in old(due) && x != t ==> x in due && due[x] == old(due)[x]
      ensures r != Taken ==> hold == old(hold) && queued == old(queued)
      ensures receivers == if r == Asleep then Sleep(old(receivers), t, prio, byPrio) else Run(old(receivers), t)
    {
      hide Chains, Placed, Distinct, Waits, Copies, Waking, Bodies, Enqueue, Run, Sleep, Lines;
      if entry == 0 {
        ReceiverRefused(t, timeout == 0);
        return if timeout == 0 then Empty else Asleep;
      }
      TakeMessage(t);
      return Taken;
    }

    /** The receiver gives up, or sleeps. */
    method ReceiverRefused(t: int, last: bool)
      requires Valid() && t !in hold && t !in receivers.asleep && !Waits(senders, t) && queued == []
      modifies this`receivers, this`receiversCame
      ensures Valid()
      ensures receivers == if last then Run(old(receivers), t) else Sleep(old(receivers), t, prio, byPrio)
      ensures receiversCame == if last then old(receiversCame) else old(receiversCame) + [t]
    {
      hide IsChain, Placed, WaitersOk, NoneForgotten, Distinct, Waits, CopiesOk, WakingOk, CopyOk, Enqueue, Chains, Lined;
      WakingParts(t);
      Refused(receivers, t, prio, byPrio);
      LinedSleep(receivers.asleep, t, receiversCame, prio, byPrio);
      receivers := if last then Run(receivers, t) else Sleep(receivers, t, prio, byPrio);
      receiversCame := if last then receiversCame else receiversCame + [t];
      Moved(t);
    }

    /** The first message comes into the receiver's hands. */
    method TakeMessage(t: int)
      requires Valid() && t !in hold && t !in receivers.asleep && !Waits(senders, t) && queued != []
      modifies this`head, this`tail, this`entry, this`hold, this`receivers, this`queued, this`place, this`due
      ensures Valid() && t in due && old(Contents()) == [due[t]] + Contents()
      ensures hold == old(hold)[t := Emptying(old(queued)[0])] && queued == old(queued)[1..]
      ensures forall x :: x in old(due) && x != t ==> x in due && due[x] == old(due)[x]
      ensures receivers == Run(old(receivers), t)
    {
      hide WaitersOk, NoneForgotten, Waits, Bodies, Run, CopyOk, Lists, Lines, Copies, Waking, Contents, Get;
      WakingParts(t);
      LinedRest(receivers, t, receiversCame, prio, byPrio);
      Claimed(receivers, t, |queued|);
      var msg := HoldHead(t);
      JustTaken(t, msg, body, due, next);
      due := due[t := Get(body, msg)];
      receivers := Run(receivers, t);
      Moved(t);
      LinesKept();
    }

    /** The first node comes into `t`'s hands. */
    method HoldHead(t: int) returns (msg: int)
      requires Lists() && t !in hold && queued != []
      modifies this`head, this`tail, this`entry, this`hold, this`queued, this`place
      ensures Lists() && msg == old(queued)[0] && queued == old(queued)[1..] && hold == old(hold)[t := Emptying(msg)]
      ensures old(Contents()) == [Get(body, msg)] + Contents()
    {
      hide IsChain, Placed, Distinct, Bodies, Get;
      BodiesParts(queued, body, 0);
      ChainDistinct(queued, head, next);
      QueuedToHold(queued, free, hold, place, maxMsgs, t);
      msg := TakeHead();
      entry := entry - 1;
      hold := hold[t := Emptying(msg)];
      place := place[msg := Held(t)];
    }

    /** The copy out of the node, as much as the caller has room for. */
    method RecvCopy(t: int, size: nat) returns (data: Message)
      requires Valid() && t in hold && hold[t].Emptying?
      ensures t in due && |due[t]| == msgSize
      ensures data == due[t][..if size > msgSize then msgSize else size]
    {
      InPool(t);
      data := body[hold[t].node][..if size > msgSize then msgSize else size];
    }

    lemma InPool(t: int)
      requires Valid() && t in hold
      ensures 0 <= hold[t].node < maxMsgs && hold[t].node in body && |body[hold[t].node]| == msgSize
    {
    }

    /** The critical section that gives the node back. */
    method RecvReturn(t: int)
      requires Valid() && t in hold && hold[t].Emptying?
      modifies this`next, this`freeHead, this`senders, this`hold, this`free, this`place
      ensures Valid() && hold == old(hold) - {t} && free == [old(hold[t].node)] + old(free)
      ensures FirstResumed(old(senders), senders)
      ensures ServedInOrder(old(senders), senders, sendersCame, prio, byPrio)
    {
      hide IsChain, Placed, WaitersOk, NoneForgotten, Distinct, Waits, CopiesOk, CopyOk, WakingOk, Bodies, Wake, Chains;
      hide Lined, FirstResumed, ServedInOrder;
      WakingParts(t);
      Offered(senders, |free|);
      WakeFirst(senders);
      WakeInOrder(senders, sendersCame, prio, byPrio);
      GiveBack(t);
      senders := Wake(senders);
      Moved(t);
    }

    /** The node in `t`'s hands becomes the first free one. */
    method GiveBack(t: int)
      requires Lists() && t in hold
      modifies this`next, this`freeHead, this`hold, this`free, this`place
      ensures Lists() && hold == old(hold) - {t} && free == [old(hold[t].node)] + old(free)
      ensures forall x :: x in hold ==> Same(hold[x].node, old(next), next)
    {
      hide IsChain, Placed, Distinct;
      var n := hold[t].node;
      SameHold(queued, free, hold, place, maxMsgs, t, hold[t]);
      HoldToFree(queued, free, hold, place, maxMsgs, t);
      ChainPush(free, freeHead, next, n);
      ChainFrame(queued, head, next, n, freeHead);
      next := next[n := freeHead];
      freeHead := n;
      hold := hold - {t};
      place := place[n := Free];
      free := [n] + free;
    }

    /** The timer of the sleeping thread at index `i` of its list expires. */
    method Timeout(i: nat, sender: bool) returns (t: int)
      requires Valid() && i < |(if sender then senders else receivers).asleep|
      modifies this`senders, this`receivers
      ensures Valid() && t == old((if sender then senders else receivers).asleep[i])
      ensures !Waits(senders, t) && !Waits(receivers, t)
      ensures if sender then senders == Expire(old(senders), i) && receivers == old(receivers)
              else receivers == Expire(old(receivers), i) && senders == old(senders)
    {
      hide Lists, Copies, Waits, WaitersOk, NoneForgotten, Lined;
      if sender {
        t := senders.asleep[i];
        LinedWithout(senders.asleep, i, sendersCame, prio, byPrio);
        Expired(senders, i, |free|);
        senders := Expire(senders, i);
      } else {
        t := receivers.asleep[i];
        LinedWithout(receivers.asleep, i, receiversCame, prio, byPrio);
        Expired(receivers, i, |queued|);
        receivers := Expire(receivers, i);
      }
    }

    /** rt_mq_control with RT_IPC_CMD_RESET */
    method Reset()
      requires Valid()
      modifies this`next, this`head, this`tail, this`freeHead, this`entry, this`receivers, this`senders,
               this`queued, this`free, this`place
      ensures Valid() && queued == [] && free == Reversed(old(queued)) + old(free)
      ensures receivers == Dismiss(old(receivers)) && senders == Dismiss(old(senders))
    {
      hide IsChain, Placed, Distinct, WaitersOk, NoneForgotten, Waits, CopiesOk, WakingOk, Dismiss, Chains, Copies, Lined, Lines;
      DismissedAll(receivers, senders, hold.Keys, |queued|, |free|, 0, |queued| + |free|);
      HeadKnown();
      DismissBoth();
      while head != NULL
        invariant Chains() && Placed(queued, free, hold, place, maxMsgs) && Copies()
        invariant Reversed(queued) + free == Reversed(old(queued)) + old(free)
        invariant head == NULL <==> queued == []
        modifies this`next, this`head, this`tail, this`freeHead, this`queued, this`free, this`place
        decreases |queued|
      {
        Recycle();
        HeadKnown();
      }
      entry := 0;
    }

    method DismissBoth()
      modifies this`receivers, this`senders
      ensures receivers == Dismiss(old(receivers)) && senders == Dismiss(old(senders)) && Lines()
    {
      hide Lined, Dismiss;
      LinedRest(receivers, 0, receiversCame, prio, byPrio);
      LinedRest(senders, 0, sendersCame, prio, byPrio);
      receivers, senders := Dismiss(receivers), Dismiss(senders);
    }

    lemma HeadKnown()
      requires Chains()
      ensures head == NULL <==> queued == []
    {
      hide IsChain;
      ChainFirst(queued, head, next);
    }

    /** One round of the loop that empties the queue on reset. */
    method Recycle()
      requires Chains() && Placed(queued, free, hold, place, maxMsgs) && Copies() && queued != []
      modifies this`next, this`head, this`tail, this`freeHead, this`queued, this`free, this`place
      ensures Chains() && Placed(queued, free, hold, place, maxMsgs) && Copies()
      ensures queued == old(queued)[1..] && free == [old(queued)[0]] + old(free)
    {
      hide IsChain, Placed, Distinct;
      ChainFirst(queued, head, next);
      ChainDistinct(queued, head, next);
      QueuedToFree(queued, free, hold, place, maxMsgs);
      QueuedNotHeld(queued, free, hold, place, maxMsgs, head);
      var msg := TakeHead();
      ChainPush(free, freeHead, next, msg);
      ChainFrame(queued, head, next, msg, freeHead);
      next := next[msg := freeHead];
      freeHead := msg;
      place := place[msg := Free];
      free := [msg] + free;
    }
  }
}
