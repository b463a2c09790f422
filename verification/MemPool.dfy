/**
 The block pool of mempool.c.  Blocks are numbered by their place in the pool; the word in front
 of a block is the link to the next free block, or the pool pointer while it is allocated.
 */
module MemPool {
  import opened Words
  import opened Ring
  import opened Chain
  import opened Waiting

  /** The pool pointer stored in front of an allocated block. */
  const POOL: int := -2

  datatype Outcome = Done | Asleep | TimedOut

  function Quotient(a: nat, b: nat): nat
    requires b > 0
  {
    a / b
  }

  /** block_total_count */
  function Total(size: nat, blockSize: nat): nat {
    Quotient(AlignDown(size), Align(blockSize) + 4)
  }

  /** The bytes of block `i`, its word included. */
  function Start(i: nat, blockSize: nat): nat {
    i * (Align(blockSize) + 4)
  }

  /** The blocks lie in the pool, behind one another, and are large enough; one more would not fit. */
  lemma BlocksFit(size: nat, blockSize: nat, i: nat, j: nat)
    requires i < j <= Total(size, blockSize)
    ensures Start(i, blockSize) + 4 + blockSize <= Start(j, blockSize) <= size
    ensures AlignDown(size) < Start(Total(size, blockSize) + 1, blockSize)
  {
    hide Quotient, Align, AlignDown;
    var w := Align(blockSize) + 4;
    MulLe(i + 1, j, w);
    MulLe(j, Total(size, blockSize), w);
    QuotientBound(AlignDown(size), w);
    OneMore(i, w);
  }

  lemma QuotientBound(a: nat, b: nat)
    requires b > 0
    ensures Quotient(a, b) * b <= a < (Quotient(a, b) + 1) * b
  {
  }

  lemma OneMore(i: nat, w: nat)
    ensures (i + 1) * w == i * w + w
  {
  }

  lemma MulLe(a: nat, b: nat, w: nat)
    requires a <= b
    ensures a * w <= b * w
  {
  }

  /** The allocator goes to the front of the list. */
  function SleepFirst(w: Waiters, t: int): Waiters {
    Waiters([t] + w.asleep, w.woken - {t})
  }

  lemma RefusedFirst(w: Waiters, t: int)
    requires WaitersOk(w) && t !in w.asleep
    ensures WaitersOk(SleepFirst(w, t)) && NoneForgotten(SleepFirst(w, t), 0)
    ensures WaitersOk(Run(w, t)) && NoneForgotten(Run(w, t), 0)
  {
  }

  /** What the pool is to its users: the free blocks in the order they are given out, the
      allocated ones, and the threads that wait. */
  datatype State = State(free: seq<int>, live: set<int>, waiters: Waiters)

  datatype Action = AllocBy(t: int, time: int) | FreeOf(b: int) | ExpireAt(i: nat)

  function Initial(total: nat): State {
    State(seq(total, i => i), {}, Waiters([], {}))
  }

  function Next(s: State, a: Action): State
    requires Possible(s, a)
  {
    match a
    case AllocBy(t, time) =>
      if s.free != [] then State(s.free[1..], s.live + {s.free[0]}, Run(s.waiters, t))
      else s.(waiters := if time == 0 then Run(s.waiters, t) else SleepFirst(s.waiters, t))
    case FreeOf(b) => State([b] + s.free, s.live - {b}, Wake(s.waiters))
    case ExpireAt(i) => s.(waiters := Expire(s.waiters, i))
  }

  /** A thread does not run while it sleeps, and only allocated blocks are freed. */
  ghost predicate Possible(s: State, a: Action) {
    match a
    case AllocBy(t, _) => t !in s.waiters.asleep
    case FreeOf(b) => b in s.live
    case ExpireAt(i) => i < |s.waiters.asleep|
  }

  ghost predicate PossibleRun(s: State, run: seq<Action>)
    decreases |run|
  {
    run != [] ==> Possible(s, run[0]) && PossibleRun(Next(s, run[0]), run[1..])
  }

  ghost function After(s: State, run: seq<Action>): State
    requires PossibleRun(s, run)
    decreases |run|
  {
    if run == [] then s else After(Next(s, run[0]), run[1..])
  }

  /** The threads in the order in which they went to sleep. */
  function Note(came: seq<int>, s: State, a: Action): seq<int> {
    if a.AllocBy? && s.free == [] && a.time != 0 then came + [a.t] else came
  }

  ghost function Came(came: seq<int>, s: State, run: seq<Action>): seq<int>
    requires PossibleRun(s, run)
    decreases |run|
  {
    if run == [] then came else Came(Note(came, s, run[0]), Next(s, run[0]), run[1..])
  }

  /** The last to come stands first. */
  ghost predicate LastFirst(q: seq<int>, came: seq<int>) {
    forall i, j :: 0 <= i < j < |q| ==> Slept(came, q[j]) < Slept(came, q[i])
  }

  lemma LastFirstSleep(q: seq<int>, t: int, came: seq<int>)
    requires LastFirst(q, came) && t !in q
    ensures LastFirst([t] + q, came + [t])
  {
    hide Slept;
    var r := [t] + q;
    forall i | 0 < i < |r| ensures r[i] == q[i - 1] && r[i] != t {
      assert q[i - 1] in q;
    }
    forall i, j | 0 <= i < j < |r| ensures Slept(came + [t], r[j]) < Slept(came + [t], r[i]) {
      SleptOne(came, t, r[i]);
      SleptOne(came, t, r[j]);
      assert i > 0 ==> Slept(came, q[j - 1]) < Slept(came, q[i - 1]);
    }
  }

  lemma LastFirstLess(q: seq<int>, i: nat, came: seq<int>)
    requires LastFirst(q, came) && i < |q|
    ensures LastFirst(Without(q, i), came) && LastFirst(q[1..], came)
  {
    hide Slept;
    var r := Without(q, i);
    assert forall k :: 0 <= k < |r| ==> r[k] == q[if k < i then k else k + 1];
  }

  lemma StepLast(came: seq<int>, s: State, a: Action)
    requires Possible(s, a) && LastFirst(s.waiters.asleep, came)
    ensures LastFirst(Next(s, a).waiters.asleep, Note(came, s, a))
  {
    hide Slept, LastFirst;
    match a
    case AllocBy(t, _) => LastFirstSleep(s.waiters.asleep, t, came);
    case FreeOf(_) =>
      if s.waiters.asleep != [] {
        LastFirstLess(s.waiters.asleep, 0, came);
      }
    case ExpireAt(i) => LastFirstLess(s.waiters.asleep, i, came);
  }

  lemma {:induction false} RunLast(came: seq<int>, s: State, run: seq<Action>)
    requires PossibleRun(s, run) && LastFirst(s.waiters.asleep, came)
    ensures LastFirst(After(s, run).waiters.asleep, Came(came, s, run))
    decreases |run|
  {
    hide Possible, Next, LastFirst, Note;
    if run != [] {
      StepLast(came, s, run[0]);
      RunLast(Note(came, s, run[0]), Next(s, run[0]), run[1..]);
    }
  }

  /** Over every run: a free resumes the sleeper that came last, and the others keep their order. */
  lemma RunServesLast(run: seq<Action>, b: int, total: nat)
    requires PossibleRun(Initial(total), run) && Possible(After(Initial(total), run), FreeOf(b))
    ensures var s, came := After(Initial(total), run), Came([], Initial(total), run);
            var s' := Next(s, FreeOf(b));
            && FirstResumed(s.waiters, s'.waiters)
            && forall t, x :: t in s'.waiters.woken && t !in s.waiters.woken && x in s'.waiters.asleep ==>
                 Slept(came, x) < Slept(came, t)
  {
    hide PossibleRun, After, Came, Slept;
    RunLast([], Initial(total), run);
    WakeFirst(After(Initial(total), run).waiters);
  }

  /** The block that was freed last is the first to be given out again. */
  lemma FreedFirst(s: State, b: int, t: int, time: int)
    requires Possible(s, FreeOf(b)) && t !in s.waiters.asleep
    ensures var s' := Next(Next(s, FreeOf(b)), AllocBy(t, time));
            s'.live == s.live && s'.free == s.free && t !in s'.waiters.asleep
  {
    assert s.live - {b} + {b} == s.live;
  }

  /** The free and the allocated blocks are all blocks, each in one of the two. */
  ghost predicate Parted(s: State, total: nat) {
    && Distinct(s.free)
    && (forall x {:trigger x in s.free} :: x in s.free ==> 0 <= x < total && x !in s.live)
    && (forall x {:trigger x in s.live} :: x in s.live ==> 0 <= x < total)
    && (forall x :: 0 <= x < total ==> x in s.free || x in s.live)
    && |s.free| + |s.live| == total
  }

  ghost predicate Inv(s: State, total: nat) {
    Parted(s, total) && WaitersOk(s.waiters) && NoneForgotten(s.waiters, |s.free|)
  }

  lemma InitialInv(total: nat)
    ensures Inv(Initial(total), total)
  {
    var free := seq(total, i => i);
    forall x | 0 <= x < total ensures x in free {
      assert free[x] == x;
    }
  }

  lemma AllocParts(s: State, t: int, time: int, total: nat)
    requires Parted(s, total) && Possible(s, AllocBy(t, time))
    ensures Parted(Next(s, AllocBy(t, time)), total)
  {
    hide Distinct, SleepFirst, Run;
    if s.free != [] {
      TailIn(s.free);
      var b := s.free[0];
      assert b in s.free && |s.live + {b}| == |s.live| + 1;
    }
  }

  lemma FreeParts(s: State, b: int, total: nat)
    requires Parted(s, total) && b in s.live
    ensures b !in s.free && b >= 0 && Parted(Next(s, FreeOf(b)), total)
  {
    hide Wake;
    var free := [b] + s.free;
    assert forall x :: x in free <==> x in s.free || x == b;
  }

  lemma StepInv(s: State, a: Action, total: nat)
    requires Inv(s, total) && Possible(s, a)
    ensures Inv(Next(s, a), total)
  {
    hide Parted, WaitersOk, NoneForgotten, SleepFirst, Run, Wake, Expire;
    match a
    case AllocBy(t, time) =>
      AllocParts(s, t, time, total);
      if s.free != [] {
        Claimed(s.waiters, t, |s.free|);
      } else {
        RefusedFirst(s.waiters, t);
      }
    case FreeOf(b) =>
      FreeParts(s, b, total);
      Offered(s.waiters, |s.free|);
    case ExpireAt(i) =>
      Expired(s.waiters, i, |s.free|);
      SameParts(s, Next(s, a), total);
  }

  lemma SameParts(s: State, s': State, total: nat)
    requires Parted(s, total) && s'.free == s.free && s'.live == s.live
    ensures Parted(s', total)
  {
  }

  /** Over every run, under every interleaving: a block is free or allocated and never both, the
      two counts add up to all blocks, and a free block that no woken thread is about to take
      finds nobody asleep. */
  lemma RunInv(run: seq<Action>, total: nat)
    requires PossibleRun(Initial(total), run)
    ensures var s := After(Initial(total), run);
            && Distinct(s.free) && |s.free| + |s.live| == total
            && (forall b :: 0 <= b < total <==> b in s.free || b in s.live)
            && (forall b :: !(b in s.free && b in s.live))
            && (|s.free| > |s.waiters.woken| ==> s.waiters.asleep == [])
  {
    hide PossibleRun, After, Initial;
    InitialInv(total);
    RunFrom(Initial(total), run, total);
  }

  lemma {:induction false} RunFrom(s: State, run: seq<Action>, total: nat)
    requires PossibleRun(s, run) && Inv(s, total)
    ensures Inv(After(s, run), total)
    decreases |run|
  {
    hide Inv, Possible, Next;
    if run != [] {
      StepInv(s, run[0], total);
      RunFrom(Next(s, run[0]), run[1..], total);
    }
  }

  /** Every block has its word, and an allocated one carries the pool pointer in it. */
  ghost predicate Tagged(live: set<int>, word: Links, total: nat) {
    && (forall x {:trigger x in word} :: 0 <= x < total ==> x in word)
    && (forall x {:trigger x in live} :: x in live ==> x in word && word[x] == POOL)
  }

  lemma Retag(live: set<int>, word: Links, total: nat, b: int, v: int)
    requires Tagged(live, word, total)
    ensures v == POOL ==> Tagged(live + {b}, word[b := v], total)
    ensures Tagged(live - {b}, word[b := v], total)
  {
  }

  class Pool {
    const total: nat

    var word: Links
    var blockList: int
    var freeCount: nat
    var waiters: Waiters

    ghost var free: seq<int>
    ghost var live: set<int>

    ghost function Abstract(): State
      reads this`free, this`live, this`waiters
    {
      State(free, live, waiters)
    }

    /** The free blocks are chained, unless the pool has no block at all. */
    ghost predicate Valid()
      reads this
    {
      && (total > 0 ==> IsChain(free, blockList, word)) && freeCount == |free|
      && Tagged(live, word, total) && Inv(Abstract(), total)
    }

    /** rt_mp_init.  With room for no block the end mark goes to the word in front of the pool. */
    constructor (size: nat, blockSize: nat)
      ensures Valid() && total == Total(size, blockSize) && Abstract() == Initial(total)
      ensures forall x :: x in word <==> 0 <= x < total || x == total - 1
      ensures total - 1 in word && word[total - 1] == NULL
    {
      hide Total, Inv;
      total := Total(size, blockSize);
      freeCount := Total(size, blockSize);
      waiters := Waiters([], {});
      blockList := 0;
      word := map[];
      live := {};
      free := [];
      new;
      var offset: nat := 0;
      while offset < total
        invariant offset <= total && |free| == offset
        invariant forall i :: 0 <= i < offset ==> free[i] == i
        invariant forall i {:trigger word[i]} :: 0 <= i < offset ==> i in word && word[i] == i + 1
        invariant forall x {:trigger x in word} :: x in word <==> 0 <= x < offset
        modifies this`word, this`free
      {
        word := word[offset := offset + 1];
        free := free + [offset];
        offset := offset + 1;
      }
      word := word[offset - 1 := NULL];
      assert free == seq(total, i => i);
      InitialInv(total);
    }

    lemma Whole()
      requires Valid()
      ensures freeCount > 0 ==> total > 0 && IsChain(free, blockList, word)
      ensures live != {} ==> total > 0 && IsChain(free, blockList, word)
      ensures Parted(Abstract(), total)
    {
      if live != {} {
        assert |live| != 0;
      }
    }

    /** rt_mp_alloc: the first look at the pool, or the next one of a thread that was woken, `time`
        being what is left to wait. */
    method AllocTry(t: int, time: int) returns (r: Outcome, block: int)
      requires Valid() && t !in waiters.asleep
      modifies this
      ensures Valid() && Abstract() == Next(old(Abstract()), AllocBy(t, time))
      ensures r == if |old(free)| > 0 then Done else if time == 0 then TimedOut else Asleep
      ensures r == Done ==> block !in old(live) && live == old(live) + {block} && freeCount == old(freeCount) - 1
      ensures r == Done ==> 0 <= block < total && block == old(free)[0] && word[block] == POOL
      ensures r != Done ==> block == NULL && word == old(word)
      ensures r == Asleep ==> waiters.asleep == [t] + old(waiters).asleep
    {
      hide IsChain, Parted, Inv, Distinct, Tagged, Run;
      Whole();
      StepInv(Abstract(), AllocBy(t, time), total);
      if freeCount == 0 {
        waiters := if time == 0 then Run(waiters, t) else SleepFirst(waiters, t);
        return if time == 0 then TimedOut else Asleep, NULL;
      }
      ChainFirst(free, blockList, word);
      ChainFrame(free[1..], word[blockList], word, blockList, POOL);
      FreshBlock(Abstract(), total, blockList);
      Retag(live, word, total, blockList, POOL);
      freeCount := freeCount - 1;
      block := blockList;
      blockList := word[block];
      word := word[block := POOL];
      waiters := Run(waiters, t);
      live := live + {block};
      free := free[1..];
      return Done, block;
    }

    /** rt_mp_free */
    method Free(b: int)
      requires Valid() && (b == NULL || b in live)
      modifies this
      ensures Valid()
      ensures b == NULL ==> unchanged(this)
      ensures b != NULL ==> Abstract() == Next(old(Abstract()), FreeOf(b))
      ensures b != NULL ==> freeCount == old(freeCount) + 1 && blockList == b
      ensures b != NULL ==> FirstResumed(old(waiters), waiters)
    {
      hide IsChain, Parted, Inv, Distinct, Tagged, Wake, FirstResumed;
      if b == NULL {
        return;
      }
      Whole();
      StepInv(Abstract(), FreeOf(b), total);
      FreeParts(Abstract(), b, total);
      WakeFirst(waiters);
      ChainPush(free, blockList, word, b);
      Retag(live, word, total, b, blockList);
      freeCount := freeCount + 1;
      word := word[b := blockList];
      blockList := b;
      waiters := Wake(waiters);
      live := live - {b};
      free := [b] + free;
    }

    /** The timer of the sleeping thread at index `i` expires. */
    method Timeout(i: nat) returns (t: int)
      requires Valid() && i < |waiters.asleep|
      modifies this`waiters
      ensures Valid() && t == old(waiters).asleep[i] && Abstract() == Next(old(Abstract()), ExpireAt(i))
    {
      hide IsChain, Inv, Tagged;
      StepInv(Abstract(), ExpireAt(i), total);
      t := waiters.asleep[i];
      waiters := Expire(waiters, i);
    }
  }

  lemma FreshBlock(s: State, total: nat, b: int)
    requires Parted(s, total) && b in s.free
    ensures b !in s.live && 0 <= b < total
  {
  }
}
