/**
 The mutex of ipc.c with priority inheritance.  A thread takes part in one mutex only, nobody
 else changes priorities, and there are no signals.
 */
module Mutex {
  import opened Ring
  import opened Waiting

  const NOBODY: int := -1
  /** hold is an 8-bit counter. */
  const HOLD_RANGE: nat := 256

  /** The mutex, the current priorities of the threads, and when each waiter arrived. */
  datatype State = State(value: nat, owner: int, original: int, hold: nat, waiters: seq<int>,
                         current: Priorities, ticket: map<int, nat>, clock: nat)

  function Ticket(s: State, t: int): nat {
    if t in s.ticket then s.ticket[t] else 0
  }

  /** rt_mutex_take up to the point where the thread has the mutex, gives up or sleeps. */
  function Take(s: State, t: int, time: int, byPrio: bool): State {
    if s.owner == t then s.(hold := (s.hold + 1) % HOLD_RANGE)
    else if s.value > 0 then
      s.(value := s.value - 1, owner := t, original := Prio(s.current, t), hold := (s.hold + 1) % HOLD_RANGE)
    else if time == 0 then s
    else
      var boosted := if Prio(s.current, t) < Prio(s.current, s.owner)
                     then s.current[s.owner := Prio(s.current, t)] else s.current;
      s.(waiters := Enqueue(s.waiters, t, boosted, byPrio), current := boosted,
         ticket := s.ticket[t := s.clock], clock := s.clock + 1)
  }

  /** rt_mutex_release */
  function Release(s: State, t: int): State {
    if t != s.owner || s.hold == 0 then s
    else if s.hold > 1 then s.(hold := s.hold - 1)
    else
      var c := if s.original != Prio(s.current, t) then s.current[t := s.original] else s.current;
      if s.waiters != [] then
        s.(owner := s.waiters[0], original := Prio(c, s.waiters[0]), hold := 1, waiters := s.waiters[1..], current := c)
      else
        s.(value := s.value + 1, owner := NOBODY, original := 255, hold := 0, current := c)
  }

  /** The timer of the waiter at index `i` expires. */
  function LeaveAt(s: State, i: nat): State
    requires i < |s.waiters|
  {
    s.(waiters := Without(s.waiters, i))
  }

  function Initial(base: Priorities): State {
    State(1, NOBODY, 255, 0, [], base, map[], 0)
  }

  // ---- the invariant ----

  /** What holds whatever the flag: the three signs of a free mutex agree, nobody waits for a
      free mutex, and only the owner is away from its base priority, on the urgent side. */
  ghost predicate Core(s: State, base: Priorities) {
    && (s.value == 1 <==> s.owner == NOBODY) && (s.hold == 0 <==> s.owner == NOBODY)
    && s.value <= 1 && s.hold < HOLD_RANGE
    && (s.owner == NOBODY ==> s.waiters == [])
    && Distinct(s.waiters) && s.owner !in s.waiters && NOBODY !in s.waiters
    && (forall t :: t != s.owner && t != NOBODY ==> Prio(s.current, t) == Prio(base, t))
    && (s.owner != NOBODY ==> s.original == Prio(base, s.owner) && Prio(s.current, s.owner) <= s.original)
    && (forall t :: t in s.waiters ==> Ticket(s, t) < s.clock)
  }

  /** Waiters are in order of priority, and of arrival among equals. */
  ghost predicate Ordered(s: State) {
    forall i, j :: 0 <= i < j < |s.waiters| ==> Precedes(s, s.waiters[i], s.waiters[j])
  }

  ghost predicate Precedes(s: State, a: int, b: int) {
    || Prio(s.current, a) < Prio(s.current, b)
    || (Prio(s.current, a) == Prio(s.current, b) && Ticket(s, a) < Ticket(s, b))
  }

  /** Priority inheritance: the owner is at least as urgent as everybody who waits for it. */
  ghost predicate Inherits(s: State) {
    forall t :: t in s.waiters ==> Prio(s.current, s.owner) <= Prio(s.current, t)
  }

  ghost predicate Inv(s: State, base: Priorities) {
    Core(s, base) && Ordered(s) && Inherits(s)
  }

  lemma InitialInv(base: Priorities)
    ensures Inv(Initial(base), base)
  {
  }

  /** Taking keeps the core, except that the counter of nested takes runs over. */
  lemma TakeCore(s: State, base: Priorities, t: int, time: int, byPrio: bool)
    requires Core(s, base) && t !in s.waiters && t != NOBODY
    ensures Core(Take(s, t, time, byPrio), base) <==> !(t == s.owner && s.hold == HOLD_RANGE - 1)
  {
    hide Enqueue, Distinct;
    var s' := Take(s, t, time, byPrio);
    if s.owner != t && s.value == 0 && time != 0 {
      EnqueueIn(s.waiters, t, s'.current, byPrio);
      assert forall x :: x in s'.waiters <==> x in s.waiters || x == t;
      assert forall x :: x in s'.waiters ==> Ticket(s', x) < s'.clock;
    }
  }

  lemma TakeOrdered(s: State, base: Priorities, t: int, time: int)
    requires Inv(s, base) && t !in s.waiters && t != NOBODY
    ensures Ordered(Take(s, t, time, true))
  {
    hide Enqueue, Distinct, Inherits, Precedes;
    var s' := Take(s, t, time, true);
    forall x, y | x in s.waiters && y in s.waiters && Precedes(s, x, y) ensures Precedes(s', x, y) {
      TakeOthers(s, base, t, time, x, y);
    }
    if s.owner != t && s.value == 0 && time != 0 {
      var k := EnqueueSplit(s.waiters, t, s'.current, true);
      forall x | x in s.waiters ensures Prio(s'.current, x) <= Prio(s'.current, t) ==> Precedes(s', x, t) {
        TakeLast(s, base, t, time, x);
      }
      forall x | x in s.waiters ensures Prio(s'.current, x) > Prio(s'.current, t) ==> Precedes(s', t, x) {
        TakeLast(s, base, t, time, x);
      }
      forall i, j | 0 <= i < j < |s'.waiters| ensures Precedes(s', s'.waiters[i], s'.waiters[j]) {
        PutOrdered(s, s', k, t, i, j);
      }
    } else {
      forall i, j | 0 <= i < j < |s'.waiters| ensures Precedes(s', s'.waiters[i], s'.waiters[j]) {
        assert Precedes(s, s.waiters[i], s.waiters[j]);
      }
    }
  }

  /** A take changes neither priority nor ticket of a thread that already waits. */
  lemma TakeOthers(s: State, base: Priorities, t: int, time: int, x: int, y: int)
    requires Core(s, base) && t !in s.waiters && x in s.waiters && y in s.waiters && Precedes(s, x, y)
    ensures Precedes(Take(s, t, time, true), x, y)
  {
    hide Enqueue, Distinct;
  }

  /** The newcomer comes after equals and before less urgent threads. */
  lemma TakeLast(s: State, base: Priorities, t: int, time: int, x: int)
    requires Core(s, base) && t !in s.waiters && t != NOBODY && x in s.waiters
    requires s.owner != t && s.value == 0 && time != 0
    ensures var s' := Take(s, t, time, true);
            && (Prio(s'.current, x) <= Prio(s'.current, t) ==> Precedes(s', x, t))
            && (Prio(s'.current, x) > Prio(s'.current, t) ==> Precedes(s', t, x))
  {
    hide Enqueue, Distinct;
  }

  /** Putting `t` at index `k` of an ordered list, behind the urgent ones and before the others. */
  lemma PutOrdered(s: State, s': State, k: nat, t: int, i: nat, j: nat)
    requires k <= |s.waiters| && s'.waiters == Put(s.waiters, k, t) && i < j < |s'.waiters| && Ordered(s)
    requires forall x, y :: x in s.waiters && y in s.waiters && Precedes(s, x, y) ==> Precedes(s', x, y)
    requires forall x :: x in s.waiters && Prio(s'.current, x) <= Prio(s'.current, t) ==> Precedes(s', x, t)
    requires forall x :: x in s.waiters && Prio(s'.current, x) > Prio(s'.current, t) ==> Precedes(s', t, x)
    requires forall m :: 0 <= m < k ==> Prio(s'.current, s.waiters[m]) <= Prio(s'.current, t)
    requires k < |s.waiters| ==> Prio(s'.current, t) < Prio(s'.current, s.waiters[k])
    ensures Precedes(s', s'.waiters[i], s'.waiters[j])
  {
    var q := s.waiters;
    PutAt(q, k, t, i);
    PutAt(q, k, t, j);
    if i == k {
      if j - 1 > k {
        assert Precedes(s, q[k], q[j - 1]);
        assert q[k] in q && q[j - 1] in q;
        assert Precedes(s', t, q[k]) && Precedes(s', q[k], q[j - 1]);
      } else {
        assert q[k] in q;
      }
    } else if j == k {
      assert q[i] in q;
    } else {
      var x, y := s'.waiters[i], s'.waiters[j];
      assert Precedes(s, x, y) && x in q && y in q;
    }
  }

  lemma PutAt(q: seq<int>, k: nat, t: int, i: nat)
    requires k <= |q| && i <= |q|
    ensures Put(q, k, t)[i] == if i < k then q[i] else if i == k then t else q[i - 1]
  {
  }

  lemma TakeInherits(s: State, base: Priorities, t: int, time: int, byPrio: bool)
    requires Core(s, base) && Inherits(s) && t !in s.waiters && t != NOBODY
    ensures Inherits(Take(s, t, time, byPrio))
  {
    hide Enqueue, Distinct;
    var s' := Take(s, t, time, byPrio);
    if s.owner != t && s.value == 0 && time != 0 {
      EnqueueIn(s.waiters, t, s'.current, byPrio);
      forall x | x in s'.waiters ensures Prio(s'.current, s'.owner) <= Prio(s'.current, x) {
        assert x == t || x in s.waiters;
      }
    }
  }

  /** Taking keeps the invariant exactly when the nesting counter has room. */
  lemma TakeInv(s: State, base: Priorities, t: int, time: int)
    requires Inv(s, base) && t !in s.waiters && t != NOBODY
    ensures Inv(Take(s, t, time, true), base) <==> !(t == s.owner && s.hold == HOLD_RANGE - 1)
  {
    hide Take, Core, Ordered, Inherits;
    TakeParts(s, base, t, time);
  }

  /** Who has the mutex and who waits after a call of rt_mutex_take: the caller has it exactly if
      it had it or it was free; it waits exactly if somebody else has it and it may wait; the
      others stay as they were, and the owner is as urgent as the more urgent of the two. */
  lemma TakeOutcome(s: State, base: Priorities, t: int, time: int, byPrio: bool)
    requires Core(s, base) && t !in s.waiters && t != NOBODY
    ensures var s' := Take(s, t, time, byPrio);
            && s'.owner == (if s.owner == NOBODY then t else s.owner)
            && (forall x :: x in s'.waiters <==> x in s.waiters || (x == t && s.owner !in {t, NOBODY} && time != 0))
            && (s'.owner == t && s.hold < HOLD_RANGE - 1 ==> s'.hold == s.hold + 1)
            && (s'.owner != t ==> s'.hold == s.hold)
            && (t !in s'.waiters ==> s'.current == s.current)
    ensures var s' := Take(s, t, time, byPrio);
            var mine, theirs := Prio(s.current, t), Prio(s.current, s.owner);
            t in s'.waiters ==> Prio(s'.current, s.owner) == if mine < theirs then mine else theirs
  {
    hide Enqueue, Distinct;
    var s' := Take(s, t, time, byPrio);
    EnqueueIn(s.waiters, t, s'.current, byPrio);
  }

  lemma TakeParts(s: State, base: Priorities, t: int, time: int)
    requires Inv(s, base) && t !in s.waiters && t != NOBODY
    ensures Core(Take(s, t, time, true), base) <==> !(t == s.owner && s.hold == HOLD_RANGE - 1)
    ensures Ordered(Take(s, t, time, true)) && Inherits(Take(s, t, time, true))
  {
    TakeCore(s, base, t, time, true);
    TakeOrdered(s, base, t, time);
    TakeInherits(s, base, t, time, true);
  }

  lemma EmptyDistinct()
    ensures Distinct([])
  {
  }

  lemma ReleaseCore(s: State, base: Priorities, t: int)
    requires Core(s, base) && t != NOBODY
    ensures Core(Release(s, t), base)
  {
    hide Distinct;
    EmptyDistinct();
    if t == s.owner && s.hold == 1 && s.waiters != [] {
      TailIn(s.waiters);
    }
  }

  lemma ReleaseInv(s: State, base: Priorities, t: int)
    requires Inv(s, base) && t != NOBODY
    ensures Inv(Release(s, t), base)
  {
    var s' := Release(s, t);
    ReleaseCore(s, base, t);
    if t == s.owner && s.hold == 1 && s.waiters != [] {
      HandOff(s, base);
    }
  }

  /** The last release by the owner. */
  lemma HandOff(s: State, base: Priorities)
    requires Core(s, base) && s.owner != NOBODY && s.hold == 1
    ensures var s' := Release(s, s.owner);
            && Prio(s'.current, s.owner) == Prio(base, s.owner)
            && (s.waiters == [] ==> s'.owner == NOBODY && s'.value == 1 && s'.original == 255)
            && (s.waiters != [] ==> s'.owner == s.waiters[0] && s'.hold == 1 && s'.waiters == s.waiters[1..])
            && (Ordered(s) ==> Ordered(s') && Inherits(s'))
            && (forall x :: x in s.waiters ==> Prio(s'.current, x) == Prio(s.current, x))
  {
    var s' := Release(s, s.owner);
    if s.waiters != [] && Ordered(s) {
      forall i, j | 0 <= i < j < |s'.waiters| ensures Precedes(s', s'.waiters[i], s'.waiters[j]) {
        assert s'.waiters[i] == s.waiters[i + 1] && s'.waiters[j] == s.waiters[j + 1];
        assert Precedes(s, s.waiters[i + 1], s.waiters[j + 1]);
        assert s.waiters[i + 1] in s.waiters && s.waiters[j + 1] in s.waiters;
      }
      forall x | x in s'.waiters ensures Prio(s'.current, s'.owner) <= Prio(s'.current, x) {
        var i :| 0 <= i < |s'.waiters| && s'.waiters[i] == x;
        assert s.waiters[i + 1] == x && Precedes(s, s.waiters[0], s.waiters[i + 1]);
        assert x in s.waiters && s.waiters[0] in s.waiters;
      }
    }
  }

  lemma ExpireCore(s: State, base: Priorities, i: nat)
    requires Core(s, base) && i < |s.waiters|
    ensures Core(LeaveAt(s, i), base)
  {
    var r := Without(s.waiters, i);
    assert forall k :: 0 <= k < |r| ==> r[k] == s.waiters[if k < i then k else k + 1];
    forall x | x in r ensures x in s.waiters {
    }
  }

  /** Only the waiter whose timer expired leaves, and the others keep their order. */
  lemma ExpireOutcome(s: State, base: Priorities, i: nat)
    requires Core(s, base) && i < |s.waiters|
    ensures forall x :: x in LeaveAt(s, i).waiters <==> x in s.waiters && x != s.waiters[i]
    ensures |LeaveAt(s, i).waiters| == |s.waiters| - 1
    ensures forall k :: 0 <= k < |s.waiters| - 1 ==> LeaveAt(s, i).waiters[k] == s.waiters[if k < i then k else k + 1]
  {
    var q, r := s.waiters, Without(s.waiters, i);
    forall x | x in q && x != q[i] ensures x in r {
      var k :| 0 <= k < |q| && q[k] == x;
      assert r[if k < i then k else k - 1] == x;
    }
  }

  lemma ExpireInv(s: State, base: Priorities, i: nat)
    requires Inv(s, base) && i < |s.waiters|
    ensures Inv(LeaveAt(s, i), base)
  {
    ExpireCore(s, base, i);
    hide Core;
    var q, s' := s.waiters, LeaveAt(s, i);
    forall k | 0 <= k < |s'.waiters| ensures s'.waiters[k] == q[if k < i then k else k + 1] && s'.waiters[k] in q {
    }
    forall k, m | 0 <= k < m < |s'.waiters| ensures Precedes(s', s'.waiters[k], s'.waiters[m]) {
      assert Precedes(s, q[if k < i then k else k + 1], q[if m < i then m else m + 1]);
    }
  }

  // ---- runs ----

  datatype Action = TakeBy(t: int, time: int) | ReleaseBy(t: int) | ExpireAt(i: nat)

  /** A thread that sleeps makes no call, and nobody nests 256 deep. */
  ghost predicate Possible(s: State, a: Action) {
    match a
    case TakeBy(t, _) => t != NOBODY && t !in s.waiters && !(t == s.owner && s.hold == HOLD_RANGE - 1)
    case ReleaseBy(t) => t != NOBODY
    case ExpireAt(i) => i < |s.waiters|
  }

  ghost function Step(s: State, a: Action, byPrio: bool): State
    requires Possible(s, a)
  {
    match a
    case TakeBy(t, time) => Take(s, t, time, byPrio)
    case ReleaseBy(t) => Release(s, t)
    case ExpireAt(i) => LeaveAt(s, i)
  }

  ghost predicate PossibleRun(s: State, run: seq<Action>, byPrio: bool)
    decreases |run|
  {
    run == [] || (Possible(s, run[0]) && PossibleRun(Step(s, run[0], byPrio), run[1..], byPrio))
  }

  ghost function After(s: State, run: seq<Action>, byPrio: bool): State
    requires PossibleRun(s, run, byPrio)
    decreases |run|
  {
    if run == [] then s else After(Step(s, run[0], byPrio), run[1..], byPrio)
  }

  /** Every run of a PRIO mutex from its initial state keeps the invariant. */
  lemma {:induction false} RunInv(s: State, base: Priorities, run: seq<Action>)
    requires Inv(s, base) && PossibleRun(s, run, true)
    ensures Inv(After(s, run, true), base)
    decreases |run|
  {
    if run != [] {
      StepInv(s, base, run[0]);
      RunInv(Step(s, run[0], true), base, run[1..]);
    }
  }

  lemma StepInv(s: State, base: Priorities, a: Action)
    requires Inv(s, base) && Possible(s, a)
    ensures Inv(Step(s, a, true), base)
  {
    match a
    case TakeBy(t, time) => TakeInv(s, base, t, time);
    case ReleaseBy(t) => ReleaseInv(s, base, t);
    case ExpireAt(i) => ExpireInv(s, base, i);
  }

  // ---- the nesting counter ----

  function Repeat(a: Action, n: nat): seq<Action> {
    if n == 0 then [] else [a] + Repeat(a, n - 1)
  }

  lemma {:induction false} NestedTakes(s: State, t: int, n: nat, byPrio: bool)
    requires s.owner == t && t != NOBODY && t !in s.waiters && s.hold + n < HOLD_RANGE
    decreases n
    ensures PossibleRun(s, Repeat(TakeBy(t, 0), n), byPrio)
    ensures After(s, Repeat(TakeBy(t, 0), n), byPrio) == s.(hold := s.hold + n)
  {
    if n > 0 {
      var run := Repeat(TakeBy(t, 0), n);
      var s1 := Take(s, t, 0, byPrio);
      assert run[1..] == Repeat(TakeBy(t, 0), n - 1);
      NestedTakes(s1, t, n - 1, byPrio);
    }
  }

  /** The counter does run over: from the initial state a thread takes the mutex 255 times, and
      one more take leaves the counter at zero with the thread still the owner. */
  lemma TakeOverflow(base: Priorities, t: int, byPrio: bool, n: nat)
    requires t != NOBODY && n == HOLD_RANGE - 1
    ensures PossibleRun(Initial(base), Repeat(TakeBy(t, 0), n), byPrio)
    ensures var s := After(Initial(base), Repeat(TakeBy(t, 0), n), byPrio);
            var s' := Take(s, t, 0, byPrio);
            Core(s, base) && s'.owner == t && s'.hold == 0 && s'.value == 0 && !Core(s', base)
  {
    var s1 := Take(Initial(base), t, 0, byPrio);
    assert Repeat(TakeBy(t, 0), n)[1..] == Repeat(TakeBy(t, 0), n - 1);
    NestedTakes(s1, t, n - 1, byPrio);
  }

  // ---- every take is matched by a release ----

  /** An inner release: the owner stays in its critical section, one level further out. */
  lemma NestedRelease(s: State, base: Priorities, t: int)
    requires Core(s, base) && t == s.owner && s.hold > 1
    ensures Release(s, t) == s.(hold := s.hold - 1) && Release(s, t).owner == t && Release(s, t).value == 0
  {
  }

  /** The takes a thread got the mutex with, less its successful releases. */
  function Count(held: map<int, int>, t: int): int {
    if t in held then held[t] else 0
  }

  /** The counts after a step: a take that finds the caller the owner got the mutex; a release by
      the owner succeeds, and whoever is the owner then, and was not, has got it at last. */
  ghost function Tally(held: map<int, int>, s: State, a: Action, byPrio: bool): map<int, int>
    requires Possible(s, a)
  {
    var s' := Step(s, a, byPrio);
    match a
    case TakeBy(t, _) => if s'.owner == t then held[t := Count(held, t) + 1] else held
    case ReleaseBy(t) =>
      if t != s.owner then held
      else
        var h := held[t := Count(held, t) - 1];
        if s'.owner != s.owner && s'.owner != NOBODY then h[s'.owner := Count(h, s'.owner) + 1] else h
    case ExpireAt(_) => held
  }

  ghost function TallyRun(held: map<int, int>, s: State, run: seq<Action>, byPrio: bool): map<int, int>
    requires PossibleRun(s, run, byPrio)
    decreases |run|
  {
    if run == [] then held
    else TallyRun(Tally(held, s, run[0], byPrio), Step(s, run[0], byPrio), run[1..], byPrio)
  }

  /** The owner's count is the nesting counter, and everybody else's is zero. */
  ghost predicate Balanced(held: map<int, int>, s: State) {
    forall t {:trigger Count(held, t)} :: t != NOBODY ==> Count(held, t) == if t == s.owner then s.hold else 0
  }

  /** One step keeps the balance, and takes the mutex away from its owner exactly if it brings
      the owner's count to zero. */
  lemma StepBalanced(held: map<int, int>, s: State, base: Priorities, a: Action, byPrio: bool)
    requires Core(s, base) && Possible(s, a) && Balanced(held, s)
    ensures Balanced(Tally(held, s, a, byPrio), Step(s, a, byPrio))
    ensures s.owner != NOBODY ==>
              (Step(s, a, byPrio).owner != s.owner <==> Count(Tally(held, s, a, byPrio), s.owner) == 0)
  {
    hide Enqueue, Distinct;
    assert s.owner != NOBODY ==> Count(held, s.owner) == s.hold > 0;
    if a.ReleaseBy? && a.t == s.owner && s.hold == 1 && s.waiters != [] {
      assert s.waiters[0] in s.waiters;
    }
    var held', s' := Tally(held, s, a, byPrio), Step(s, a, byPrio);
    forall t | t != NOBODY ensures Count(held', t) == if t == s'.owner then s'.hold else 0 {
      assert Count(held, t) == if t == s.owner then s.hold else 0;
    }
  }

  /** Over every run from the initial state, whatever the flag: the owner has taken the mutex
      `hold` times more than it released it, and nobody else has it. */
  lemma RunBalanced(base: Priorities, run: seq<Action>, byPrio: bool)
    requires PossibleRun(Initial(base), run, byPrio)
    ensures Balanced(TallyRun(map[], Initial(base), run, byPrio), After(Initial(base), run, byPrio))
  {
    InitialInv(base);
    RunBalancedFrom(map[], Initial(base), base, run, byPrio);
  }

  lemma {:induction false} RunBalancedFrom(held: map<int, int>, s: State, base: Priorities, run: seq<Action>, byPrio: bool)
    requires Core(s, base) && Balanced(held, s) && PossibleRun(s, run, byPrio)
    ensures Balanced(TallyRun(held, s, run, byPrio), After(s, run, byPrio))
    decreases |run|
  {
    hide Core, Balanced, Tally, Step, Possible;
    if run != [] {
      StepBalanced(held, s, base, run[0], byPrio);
      StepCore(s, base, run[0], byPrio);
      RunBalancedFrom(Tally(held, s, run[0], byPrio), Step(s, run[0], byPrio), base, run[1..], byPrio);
    }
  }

  lemma StepCore(s: State, base: Priorities, a: Action, byPrio: bool)
    requires Core(s, base) && Possible(s, a)
    ensures Core(Step(s, a, byPrio), base)
  {
    hide Core, Take, Release, LeaveAt;
    match a
    case TakeBy(t, time) => TakeKeepsCore(s, base, t, time, byPrio);
    case ReleaseBy(t) => ReleaseCore(s, base, t);
    case ExpireAt(i) => ExpireCore(s, base, i);
  }

  lemma TakeKeepsCore(s: State, base: Priorities, t: int, time: int, byPrio: bool)
    requires Core(s, base) && Possible(s, TakeBy(t, time))
    ensures Core(Take(s, t, time, byPrio), base)
  {
    hide Core, Take;
    TakeCore(s, base, t, time, byPrio);
  }

  // ---- boosts that are no longer needed ----

  /** The owner runs above its base priority only for a waiter of just that priority. */
  ghost predicate BoostDue(s: State, base: Priorities) {
    || s.owner == NOBODY || Prio(s.current, s.owner) == Prio(base, s.owner)
    || exists w :: w in s.waiters && Prio(s.current, w) == Prio(s.current, s.owner)
  }

  lemma TakeBoost(s: State, base: Priorities, t: int, time: int, byPrio: bool)
    requires Core(s, base) && BoostDue(s, base) && t !in s.waiters && t != NOBODY
    ensures BoostDue(Take(s, t, time, byPrio), base)
  {
    hide Enqueue, Distinct;
    var s' := Take(s, t, time, byPrio);
    EnqueueIn(s.waiters, t, s'.current, byPrio);
    if s.owner != t && s.value == 0 && time != 0 && Prio(s'.current, s.owner) != Prio(base, s.owner) {
      if Prio(s.current, t) < Prio(s.current, s.owner) {
        assert t in s'.waiters;
      } else {
        var w :| w in s.waiters && Prio(s.current, w) == Prio(s.current, s.owner);
        assert w in s'.waiters;
      }
    }
  }

  lemma ReleaseBoost(s: State, base: Priorities, t: int)
    requires Core(s, base) && BoostDue(s, base) && t != NOBODY
    ensures BoostDue(Release(s, t), base)
  {
    hide Distinct;
    var s' := Release(s, t);
    if t == s.owner && s.hold == 1 && s.waiters != [] {
      assert s.waiters[0] in s.waiters;
    }
  }

  /** A timeout leaves the owner with a boost it no longer needs, unless it is at its base
      priority or another waiter has just its priority. */
  lemma ExpireBoost(s: State, base: Priorities, i: nat)
    requires Core(s, base) && i < |s.waiters|
    ensures var own := Prio(s.current, s.owner);
            BoostDue(LeaveAt(s, i), base) <==>
              (own == Prio(base, s.owner) ||
               exists j :: 0 <= j < |s.waiters| && j != i && Prio(s.current, s.waiters[j]) == own)
  {
    var q, r := s.waiters, LeaveAt(s, i).waiters;
    forall j | 0 <= j < |q| && j != i ensures q[j] in r {
      assert r[if j < i then j else j - 1] == q[j];
    }
    forall w | w in r ensures exists j :: 0 <= j < |q| && j != i && q[j] == w {
      var k :| 0 <= k < |r| && r[k] == w;
      assert q[if k < i then k else k + 1] == w;
    }
  }

  /** Over every run without timeouts no boost outlives its waiter, whatever the flag. */
  lemma {:induction false} RunBoost(s: State, base: Priorities, run: seq<Action>, byPrio: bool)
    requires Core(s, base) && BoostDue(s, base) && PossibleRun(s, run, byPrio)
    requires forall k :: 0 <= k < |run| ==> !run[k].ExpireAt?
    ensures BoostDue(After(s, run, byPrio), base)
    decreases |run|
  {
    hide BoostDue, Core, Take, Release;
    if run != [] {
      assert run[0] in run;
      match run[0] {
        case TakeBy(t, time) =>
          TakeCore(s, base, t, time, byPrio);
          TakeBoost(s, base, t, time, byPrio);
        case ReleaseBy(t) =>
          ReleaseCore(s, base, t);
          ReleaseBoost(s, base, t);
        case ExpireAt(_) => assert false;
      }
      RunBoost(Step(s, run[0], byPrio), base, run[1..], byPrio);
    }
  }

  /** A PRIO mutex whose owner 0 keeps the boost of waiter 1 after that one's timeout. */
  lemma TimeoutKeepsBoost()
    ensures var base: Priorities := map[0 := 10, 1 := 5];
            var run := [TakeBy(0, -1), TakeBy(1, 100), ExpireAt(0)];
            && PossibleRun(Initial(base), run, true)
            && !BoostDue(After(Initial(base), run, true), base)
  {
    var base: Priorities := map[0 := 10, 1 := 5];
    var s1 := Take(Initial(base), 0, -1, true);
    var s2 := Take(s1, 1, 100, true);
    assert s2.waiters == [1];
    var s3 := LeaveAt(s2, 0);
    assert s3.waiters == [] && s3.owner == 0 && Prio(s3.current, 0) == 5;
    var r0 := [TakeBy(0, -1), TakeBy(1, 100), ExpireAt(0)];
    assert r0[1..][1..] == [r0[2]] && r0[2..][1..] == [];
    assert PossibleRun(s3, [], true) && After(s3, [], true) == s3;
    assert PossibleRun(s2, r0[2..], true) && After(s2, r0[2..], true) == s3;
    assert PossibleRun(s1, r0[1..], true) && After(s1, r0[1..], true) == s3;
  }

  // ---- the FIFO flag ----

  /** Handing over does not boost the new owner: inheritance survives the last release exactly
      when the first waiter is as urgent as all others. */
  lemma HandOffInherits(s: State, base: Priorities)
    requires Core(s, base) && s.owner != NOBODY && s.hold == 1 && s.waiters != []
    ensures Inherits(Release(s, s.owner)) <==>
              forall t :: t in s.waiters ==> Prio(s.current, s.waiters[0]) <= Prio(s.current, t)
  {
    var s' := Release(s, s.owner);
    HandOff(s, base);
    TailIn(s.waiters);
    assert forall t :: t in s.waiters ==> t == s.waiters[0] || t in s'.waiters;
  }

  /** A FIFO mutex that loses inheritance: owner 0, then a lazy waiter 1 and an urgent waiter 2. */
  lemma FifoLosesInheritance()
    ensures var base: Priorities := map[0 := 10, 1 := 20, 2 := 5];
            var run := [TakeBy(0, -1), TakeBy(1, -1), TakeBy(2, -1), ReleaseBy(0)];
            PossibleRun(Initial(base), run, false) && !Inherits(After(Initial(base), run, false))
  {
    var base: Priorities := map[0 := 10, 1 := 20, 2 := 5];
    var s1 := Take(Initial(base), 0, -1, false);
    var s2 := Take(s1, 1, -1, false);
    assert s2.waiters == [1];
    var s3 := Take(s2, 2, -1, false);
    assert Enqueue([1][1..], 2, s3.current, false) == [2];
    assert s3.waiters == [1, 2];
    var s4 := Release(s3, 0);
    assert s4.owner == 1 && s4.waiters == [2];
    assert 2 in s4.waiters && Prio(s4.current, 1) == 20 && Prio(s4.current, 2) == 5;
    var r0 := [TakeBy(0, -1), TakeBy(1, -1), TakeBy(2, -1), ReleaseBy(0)];
    var r1, r2, r3 := r0[1..], r0[2..], r0[3..];
    assert r1[1..] == r2 && r2[1..] == r3 && r3[1..] == [];
    assert PossibleRun(s4, [], false) && After(s4, [], false) == s4;
    assert PossibleRun(s3, r3, false) && After(s3, r3, false) == s4;
    assert PossibleRun(s2, r2, false) && After(s2, r2, false) == s4;
    assert PossibleRun(s1, r1, false) && After(s1, r1, false) == s4;
  }

  lemma OwnerHolds(s: State, base: Priorities)
    requires Core(s, base)
    ensures s.owner != NOBODY ==> s.hold > 0
  {
  }

  /** The mutex object. */
  class Mutex {
    const byPrio: bool
    ghost const base: Priorities

    var value: nat
    var owner: int
    var original: int
    var hold: nat
    var waiters: seq<int>
    var current: Priorities

    ghost var ticket: map<int, nat>
    ghost var clock: nat

    ghost function Abstract(): State
      reads this
    {
      State(value, owner, original, hold, waiters, current, ticket, clock)
    }

    ghost predicate Valid()
      reads this
    {
      Core(Abstract(), base) && (byPrio ==> Inv(Abstract(), base))
    }

    /** rt_mutex_init */
    constructor (base: Priorities, byPrio: bool)
      ensures Valid() && Abstract() == Initial(base) && this.base == base && this.byPrio == byPrio
    {
      this.byPrio, this.base := byPrio, base;
      value, owner, original, hold := 1, NOBODY, 255, 0;
      waiters, current, ticket, clock := [], base, map[], 0;
      new;
      InitialInv(base);
    }

    /** rt_mutex_take */
    method TakeBy(t: int, time: int) returns (taken: bool)
      requires Valid() && t != NOBODY && t !in waiters
      modifies this
      ensures Abstract() == Take(old(Abstract()), t, time, byPrio)
      ensures Valid() <==> !(t == old(owner) && old(hold) == HOLD_RANGE - 1)
      ensures taken <==> owner == t
    {
      hide Enqueue, Core, Ordered, Inherits;
      TakeCore(Abstract(), base, t, time, byPrio);
      if byPrio {
        TakeInv(Abstract(), base, t, time);
      }
      if owner == t {
        hold := (hold + 1) % HOLD_RANGE;
        return true;
      }
      if value > 0 {
        value := value - 1;
        owner := t;
        original := Prio(current, t);
        hold := (hold + 1) % HOLD_RANGE;
        return true;
      }
      if time == 0 {
        return false;
      }
      if Prio(current, t) < Prio(current, owner) {
        current := current[owner := Prio(current, t)];
      }
      waiters := Enqueue(waiters, t, current, byPrio);
      ticket, clock := ticket[t := clock], clock + 1;
      return false;
    }

    /** rt_mutex_release */
    method ReleaseBy(t: int) returns (ok: bool)
      requires Valid() && t != NOBODY
      modifies this
      ensures Valid() && Abstract() == Release(old(Abstract()), t)
      ensures ok <==> t == old(owner)
    {
      hide Core, Ordered, Inherits;
      ReleaseCore(Abstract(), base, t);
      OwnerHolds(Abstract(), base);
      if byPrio {
        ReleaseInv(Abstract(), base, t);
      }
      if t != owner {
        return false;
      }
      hold := hold - 1;
      if hold == 0 {
        if original != Prio(current, owner) {
          current := current[owner := original];
        }
        if waiters != [] {
          owner := waiters[0];
          original := Prio(current, waiters[0]);
          hold := hold + 1;
          waiters := waiters[1..];
        } else {
          value := value + 1;
          owner := NOBODY;
          original := 255;
        }
      }
      return true;
    }

    /** The timer of the waiter at index `i` expires. */
    method Timeout(i: nat)
      requires Valid() && i < |waiters|
      modifies this`waiters
      ensures Valid() && Abstract() == LeaveAt(old(Abstract()), i)
    {
      hide Ordered, Inherits;
      ExpireCore(Abstract(), base, i);
      if byPrio {
        ExpireInv(Abstract(), base, i);
      }
      waiters := Without(waiters, i);
    }
  }
}
