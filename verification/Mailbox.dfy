/**
 The mailbox of ipc.c: a ring buffer of words with threads waiting on both ends.  Each method is
 one region between disabling and enabling interrupts.
 */
module Mailbox {
  import opened Ring
  import opened Waiting
  import opened RingBuffer

  datatype Outcome = Done | Asleep | Full | Empty

  /** What the mailbox is to its users: the mails in it and the threads on either side. */
  datatype Box = Box(mails: seq<int>, receivers: Waiters, senders: Waiters)

  datatype Rules = Rules(size: nat, byPrio: bool, prio: Priorities)

  const FRESH := Box([], Waiters([], {}), Waiters([], {}))

  datatype Action =
    | SendBy(t: int, value: int, timeout: int)
    | RecvBy(t: int, timeout: int)
    | ExpireAt(i: nat, sender: bool)
    | Clear

  function Next(b: Box, a: Action, rules: Rules): Box
    requires Possible(b, a)
  {
    match a
    case SendBy(t, value, timeout) =>
      if |b.mails| < rules.size then Box(b.mails + [value], Wake(b.receivers), Run(b.senders, t))
      else b.(senders := if timeout == 0 then Run(b.senders, t) else Sleep(b.senders, t, rules.prio, rules.byPrio))
    case RecvBy(t, timeout) =>
      if b.mails != [] then Box(b.mails[1..], Run(b.receivers, t), Wake(b.senders))
      else b.(receivers := if timeout == 0 then Run(b.receivers, t) else Sleep(b.receivers, t, rules.prio, rules.byPrio))
    case ExpireAt(i, sender) =>
      if sender then b.(senders := Expire(b.senders, i)) else b.(receivers := Expire(b.receivers, i))
    case Clear => Box([], Dismiss(b.receivers), Dismiss(b.senders))
  }

  /** A thread is in one call at a time, and does not run while it sleeps. */
  ghost predicate Possible(b: Box, a: Action) {
    match a
    case SendBy(t, _, _) => t !in b.senders.asleep && !Waits(b.receivers, t)
    case RecvBy(t, _) => t !in b.receivers.asleep && !Waits(b.senders, t)
    case ExpireAt(i, sender) => i < |(if sender then b.senders else b.receivers).asleep|
    case Clear => true
  }

  /** The mails accepted and the mails delivered since the box was last cleared, each in order,
      and the receivers and the senders in the order in which they went to sleep. */
  datatype Log = Log(put: seq<int>, taken: seq<int>, receiversCame: seq<int>, sendersCame: seq<int>)

  const NO_LOG := Log([], [], [], [])

  function Record(log: Log, b: Box, a: Action, rules: Rules): Log {
    match a
    case SendBy(t, value, timeout) =>
      if |b.mails| < rules.size then log.(put := log.put + [value])
      else if timeout == 0 then log else log.(sendersCame := log.sendersCame + [t])
    case RecvBy(t, timeout) =>
      if b.mails != [] then log.(taken := log.taken + [b.mails[0]])
      else if timeout == 0 then log else log.(receiversCame := log.receiversCame + [t])
    case ExpireAt(_, _) => log
    case Clear => log.(put := [], taken := [])
  }

  ghost predicate PossibleRun(b: Box, run: seq<Action>, rules: Rules)
    decreases |run|
  {
    run != [] ==> Possible(b, run[0]) && PossibleRun(Next(b, run[0], rules), run[1..], rules)
  }

  /** Where a run leads, and what it leaves in the log. */
  ghost function After(b: Box, log: Log, run: seq<Action>, rules: Rules): (Box, Log)
    requires PossibleRun(b, run, rules)
    decreases |run|
  {
    if run == [] then (b, log)
    else After(Next(b, run[0], rules), Record(log, b, run[0], rules), run[1..], rules)
  }

  ghost predicate Inv(b: Box, rules: Rules) {
    |b.mails| <= rules.size && WakingOk(b.receivers, b.senders, {}, |b.mails|, rules.size - |b.mails|)
  }

  /** Thread `t` moved on, and the others stay where they are or leave. */
  lemma MoveOn(b: Box, b': Box, t: int, rules: Rules)
    requires Inv(b, rules) && |b'.mails| <= rules.size
    requires WaitersOk(b'.receivers) && NoneForgotten(b'.receivers, |b'.mails|)
    requires WaitersOk(b'.senders) && NoneForgotten(b'.senders, rules.size - |b'.mails|)
    requires forall x :: x != t && Waits(b'.receivers, x) ==> Waits(b.receivers, x)
    requires forall x :: x != t && Waits(b'.senders, x) ==> Waits(b.senders, x)
    requires !(Waits(b'.receivers, t) && Waits(b'.senders, t))
    ensures Inv(b', rules)
  {
    hide WaitersOk, NoneForgotten, Waits, WakingOk;
    WakingStep(b.receivers, b.senders, {}, |b.mails|, rules.size - |b.mails|,
               t, b'.receivers, b'.senders, {}, |b'.mails|, rules.size - |b'.mails|);
  }

  lemma InvParts(b: Box, rules: Rules)
    requires Inv(b, rules)
    ensures WaitersOk(b.receivers) && NoneForgotten(b.receivers, |b.mails|)
    ensures WaitersOk(b.senders) && NoneForgotten(b.senders, rules.size - |b.mails|)
    ensures forall t :: !(Waits(b.receivers, t) && Waits(b.senders, t))
  {
  }

  lemma SendInv(b: Box, t: int, value: int, timeout: int, rules: Rules)
    requires Inv(b, rules) && Possible(b, SendBy(t, value, timeout))
    ensures Inv(Next(b, SendBy(t, value, timeout), rules), rules)
  {
    hide WaitersOk, NoneForgotten, Waits, WakingOk, Wake, Sleep, Run, Inv;
    InvParts(b, rules);
    InvSize(b, rules);
    if |b.mails| < rules.size {
      Claimed(b.senders, t, rules.size - |b.mails|);
      Offered(b.receivers, |b.mails|);
    } else {
      Refused(b.senders, t, rules.prio, rules.byPrio);
    }
    MoveOn(b, Next(b, SendBy(t, value, timeout), rules), t, rules);
  }

  lemma InvSize(b: Box, rules: Rules)
    requires Inv(b, rules)
    ensures |b.mails| <= rules.size
  {
  }

  lemma RecvInv(b: Box, t: int, timeout: int, rules: Rules)
    requires Inv(b, rules) && Possible(b, RecvBy(t, timeout))
    ensures Inv(Next(b, RecvBy(t, timeout), rules), rules)
  {
    hide WaitersOk, NoneForgotten, Waits, WakingOk, Wake, Sleep, Run, Inv;
    InvParts(b, rules);
    InvSize(b, rules);
    if b.mails != [] {
      Claimed(b.receivers, t, |b.mails|);
      Offered(b.senders, rules.size - |b.mails|);
    } else {
      Refused(b.receivers, t, rules.prio, rules.byPrio);
    }
    MoveOn(b, Next(b, RecvBy(t, timeout), rules), t, rules);
  }

  lemma ExpireInv(b: Box, i: nat, sender: bool, rules: Rules)
    requires Inv(b, rules) && Possible(b, ExpireAt(i, sender))
    ensures Inv(Next(b, ExpireAt(i, sender), rules), rules)
  {
    hide WaitersOk, NoneForgotten, Waits, WakingOk, Expire, Inv;
    InvParts(b, rules);
    InvSize(b, rules);
    if sender {
      Expired(b.senders, i, rules.size - |b.mails|);
    } else {
      Expired(b.receivers, i, |b.mails|);
    }
    var t := (if sender then b.senders else b.receivers).asleep[i];
    MoveOn(b, Next(b, ExpireAt(i, sender), rules), t, rules);
  }

  lemma ClearInv(b: Box, rules: Rules)
    requires Inv(b, rules)
    ensures Inv(Next(b, Clear, rules), rules)
  {
    hide WaitersOk, NoneForgotten, Waits, WakingOk, Dismiss, Inv;
    InvParts(b, rules);
    Dismissed(b.receivers, 0);
    Dismissed(b.senders, rules.size);
    MoveOn(b, Next(b, Clear, rules), 0, rules);
  }

  lemma StepInv(b: Box, a: Action, rules: Rules)
    requires Inv(b, rules) && Possible(b, a)
    ensures Inv(Next(b, a, rules), rules)
  {
    hide Inv, Possible, Next;
    match a
    case SendBy(t, value, timeout) => SendInv(b, t, value, timeout, rules);
    case RecvBy(t, timeout) => RecvInv(b, t, timeout, rules);
    case ExpireAt(i, sender) => ExpireInv(b, i, sender, rules);
    case Clear => ClearInv(b, rules);
  }

  lemma StepLog(b: Box, log: Log, a: Action, rules: Rules)
    requires Possible(b, a) && log.put == log.taken + b.mails
    ensures Record(log, b, a, rules).put == Record(log, b, a, rules).taken + Next(b, a, rules).mails
  {
    hide Wake, Run, Sleep, Expire, Dismiss;
    if a.RecvBy? && b.mails != [] {
      assert b.mails == [b.mails[0]] + b.mails[1..];
    }
  }

  /** Both waiting lists are in the order in which their threads are to be served. */
  ghost predicate BothLined(b: Box, log: Log, rules: Rules) {
    && Lined(b.receivers.asleep, log.receiversCame, rules.prio, rules.byPrio)
    && Lined(b.senders.asleep, log.sendersCame, rules.prio, rules.byPrio)
  }

  /** Whoever the step resumes is to be served before everybody it leaves asleep. */
  ghost predicate Serves(b: Box, b': Box, log: Log, rules: Rules) {
    && ServedInOrder(b.receivers, b'.receivers, log.receiversCame, rules.prio, rules.byPrio)
    && ServedInOrder(b.senders, b'.senders, log.sendersCame, rules.prio, rules.byPrio)
  }

  lemma StepLined(b: Box, log: Log, a: Action, rules: Rules)
    requires Possible(b, a) && BothLined(b, log, rules)
    ensures BothLined(Next(b, a, rules), Record(log, b, a, rules), rules) && Serves(b, Next(b, a, rules), log, rules)
  {
    hide Lined, Precedes, ServedInOrder, Wake, Enqueue, Waits;
    var prio, byPrio := rules.prio, rules.byPrio;
    var b' := Next(b, a, rules);
    match a {
    case SendBy(t, _, _) =>
      WakeInOrder(b.receivers, log.receiversCame, prio, byPrio);
      LinedSleep(b.senders.asleep, t, log.sendersCame, prio, byPrio);
      NobodyResumed(b.receivers, b.receivers, log.receiversCame, prio, byPrio);
      NobodyResumed(b.senders, b'.senders, log.sendersCame, prio, byPrio);
    case RecvBy(t, _) =>
      WakeInOrder(b.senders, log.sendersCame, prio, byPrio);
      LinedSleep(b.receivers.asleep, t, log.receiversCame, prio, byPrio);
      NobodyResumed(b.senders, b.senders, log.sendersCame, prio, byPrio);
      NobodyResumed(b.receivers, b'.receivers, log.receiversCame, prio, byPrio);
    case ExpireAt(i, sender) =>
      if sender {
        LinedWithout(b.senders.asleep, i, log.sendersCame, prio, byPrio);
      } else {
        LinedWithout(b.receivers.asleep, i, log.receiversCame, prio, byPrio);
      }
      NobodyResumed(b.receivers, b'.receivers, log.receiversCame, prio, byPrio);
      NobodyResumed(b.senders, b'.senders, log.sendersCame, prio, byPrio);
    case Clear =>
      NobodyLined(log, rules);
      NobodyResumed(b.receivers, b'.receivers, log.receiversCame, prio, byPrio);
      NobodyResumed(b.senders, b'.senders, log.sendersCame, prio, byPrio);
    }
  }

  lemma NobodyLined(log: Log, rules: Rules)
    ensures Lined([], log.receiversCame, rules.prio, rules.byPrio) && Lined([], log.sendersCame, rules.prio, rules.byPrio)
    ensures BothLined(FRESH, log, rules)
  {
  }

  /** Over every run: the mails come out in the order they went in, none lost and none twice; a
      mail that no woken receiver is about to take finds no receiver asleep, and room that no
      woken sender is about to use finds no sender asleep. */
  lemma RunInv(run: seq<Action>, rules: Rules)
    requires PossibleRun(FRESH, run, rules)
    ensures var (b, log) := After(FRESH, NO_LOG, run, rules);
            && log.put == log.taken + b.mails && |b.mails| <= rules.size
            && (|b.mails| > |b.receivers.woken| ==> b.receivers.asleep == [])
            && (rules.size - |b.mails| > |b.senders.woken| ==> b.senders.asleep == [])
            && (forall t :: !(Waits(b.receivers, t) && Waits(b.senders, t)))
  {
    hide PossibleRun, After, Lined;
    NobodyLined(NO_LOG, rules);
    RunFrom(FRESH, NO_LOG, run, rules);
  }

  /** Over every run: the thread that a step resumes was asleep and is to be served before every
      thread left asleep on its side, as the flag of the mailbox says. */
  lemma RunServes(run: seq<Action>, a: Action, rules: Rules)
    requires PossibleRun(FRESH, run, rules) && Possible(After(FRESH, NO_LOG, run, rules).0, a)
    ensures var (b, log) := After(FRESH, NO_LOG, run, rules);
            BothLined(b, log, rules) && Serves(b, Next(b, a, rules), log, rules)
  {
    hide PossibleRun, After, Lined, ServedInOrder, Possible, Next, Serves;
    NobodyLined(NO_LOG, rules);
    RunFrom(FRESH, NO_LOG, run, rules);
    var (b, log) := After(FRESH, NO_LOG, run, rules);
    StepLined(b, log, a, rules);
  }

  lemma {:induction false} RunFrom(b: Box, log: Log, run: seq<Action>, rules: Rules)
    requires PossibleRun(b, run, rules) && Inv(b, rules) && log.put == log.taken + b.mails && BothLined(b, log, rules)
    ensures var (b', log') := After(b, log, run, rules);
            Inv(b', rules) && log'.put == log'.taken + b'.mails && BothLined(b', log', rules)
    decreases |run|
  {
    hide Inv, Possible, Next, Record, BothLined, Serves;
    if run != [] {
      StepInv(b, run[0], rules);
      StepLog(b, log, run[0], rules);
      StepLined(b, log, run[0], rules);
      RunFrom(Next(b, run[0], rules), Record(log, b, run[0], rules), run[1..], rules);
    }
  }

  class Mailbox {
    const size: nat
    const byPrio: bool
    const prio: Priorities

    const pool: array<int>
    var entry: nat
    var inOffset: nat
    var outOffset: nat
    var receivers: Waiters
    var senders: Waiters

    ghost predicate Buffer()
      reads this`entry, this`inOffset, this`outOffset
    {
      && pool.Length == size && entry <= size
      && (if size == 0 then inOffset == outOffset == 0
          else outOffset < size && inOffset == Slot(outOffset, entry, size))
    }

    ghost predicate Valid()
      reads this
    {
      && Buffer()
      && WakingOk(receivers, senders, {}, entry, size - entry)
    }

    /** The mails in the box, first in first. */
    ghost function Contents(): seq<int>
      requires Buffer()
      reads this`entry, this`inOffset, this`outOffset, pool
    {
      Unroll(pool[..], outOffset, entry)
    }

    ghost function State(): Box
      requires Buffer()
      reads this`entry, this`inOffset, this`outOffset, this`receivers, this`senders, pool
    {
      Box(Contents(), receivers, senders)
    }

    ghost function Limits(): Rules {
      Rules(size, byPrio, prio)
    }

    /** rt_mb_init */
    constructor (size: nat, byPrio: bool, prio: Priorities)
      ensures Valid() && State() == FRESH && Limits() == Rules(size, byPrio, prio) && fresh(pool)
    {
      this.size, this.byPrio, this.prio := size, byPrio, prio;
      pool := new int[size];
      entry, inOffset, outOffset := 0, 0, 0;
      receivers, senders := Waiters([], {}), Waiters([], {});
    }

    lemma StateInv()
      requires Buffer()
      ensures Valid() <==> Inv(State(), Limits())
      ensures |Contents()| == entry
    {
      hide WakingOk;
    }

    /** rt_mb_send_wait: the first look at the box, or the next one of a sender that was woken,
        `timeout` being what is left to wait. */
    method SendTry(t: int, value: int, timeout: int) returns (r: Outcome)
      requires Valid() && t !in senders.asleep && !Waits(receivers, t)
      modifies this, pool
      ensures Valid() && State() == Next(old(State()), SendBy(t, value, timeout), Limits())
      ensures if r == Done then FirstResumed(old(receivers), receivers) else receivers == old(receivers)
      ensures r == if |old(Contents())| < size then Done else if timeout == 0 then Full else Asleep
      ensures Contents() == if r == Done then old(Contents()) + [value] else old(Contents())
      ensures r == Asleep <==> Waits(senders, t)
    {
      hide WakingOk, Unroll, Wake, Sleep, Run, Waits, Inv, FirstResumed;
      StateInv();
      StepInv(State(), SendBy(t, value, timeout), Limits());
      AfterCall(senders, t);
      if entry == size {
        if timeout == 0 {
          senders := Run(senders, t);
          StateInv();
          return Full;
        }
        senders := Sleep(senders, t, prio, byPrio);
        StateInv();
        return Asleep;
      }
      UnrollPut(pool[..], outOffset, entry, value);
      WakeFirst(receivers);
      senders := Run(senders, t);
      pool[inOffset] := value;
      assert pool[..] == old(pool[..])[inOffset := value];
      inOffset := inOffset + 1;
      if inOffset >= size {
        inOffset := 0;
      }
      entry := entry + 1;
      receivers := Wake(receivers);
      StateInv();
      return Done;
    }

    lemma AfterCall(w: Waiters, t: int)
      requires t !in w.asleep
      ensures !Waits(Run(w, t), t) && Waits(Sleep(w, t, prio, byPrio), t)
    {
      EnqueueIn(w.asleep, t, prio, byPrio);
    }

    /** rt_mb_recv */
    method RecvTry(t: int, timeout: int) returns (r: Outcome, value: int)
      requires Valid() && t !in receivers.asleep && !Waits(senders, t)
      modifies this
      ensures Valid() && State() == Next(old(State()), RecvBy(t, timeout), Limits())
      ensures if r == Done then FirstResumed(old(senders), senders) else senders == old(senders)
      ensures r == if |old(Contents())| > 0 then Done else if timeout == 0 then Empty else Asleep
      ensures r == Done ==> old(Contents()) == [value] + Contents()
      ensures r != Done ==> Contents() == old(Contents())
      ensures r == Asleep <==> Waits(receivers, t)
    {
      hide WakingOk, Unroll, Wake, Sleep, Run, Waits, Inv, FirstResumed;
      StateInv();
      StepInv(State(), RecvBy(t, timeout), Limits());
      AfterCall(receivers, t);
      value := 0;
      if entry == 0 {
        if timeout == 0 {
          receivers := Run(receivers, t);
          StateInv();
          return Empty, value;
        }
        receivers := Sleep(receivers, t, prio, byPrio);
        StateInv();
        return Asleep, value;
      }
      UnrollGet(pool[..], outOffset, entry);
      WakeFirst(senders);
      receivers := Run(receivers, t);
      value := pool[outOffset];
      outOffset := outOffset + 1;
      if outOffset >= size {
        outOffset := 0;
      }
      entry := entry - 1;
      senders := Wake(senders);
      StateInv();
      return Done, value;
    }

    /** The timer of the sleeping thread at index `i` of its list expires. */
    method Timeout(i: nat, sender: bool) returns (t: int)
      requires Valid() && i < |(if sender then senders else receivers).asleep|
      modifies this`senders, this`receivers
      ensures Valid() && State() == Next(old(State()), ExpireAt(i, sender), Limits())
      ensures t == old((if sender then senders else receivers).asleep[i])
      ensures !Waits(senders, t) && !Waits(receivers, t)
    {
      hide WakingOk, Unroll, Expire, Waits, Inv, WaitersOk, NoneForgotten;
      StateInv();
      InvParts(State(), Limits());
      StepInv(State(), ExpireAt(i, sender), Limits());
      if sender {
        t := senders.asleep[i];
        Expired(senders, i, size - entry);
        senders := Expire(senders, i);
      } else {
        t := receivers.asleep[i];
        Expired(receivers, i, entry);
        receivers := Expire(receivers, i);
      }
      StateInv();
    }

    /** rt_mb_control with RT_IPC_CMD_RESET */
    method Reset()
      requires Valid()
      modifies this
      ensures Valid() && State() == Next(old(State()), Clear, Limits())
    {
      hide WakingOk, Dismiss, Waits, Inv;
      StateInv();
      StepInv(State(), Clear, Limits());
      receivers, senders := Dismiss(receivers), Dismiss(senders);
      entry, inOffset, outOffset := 0, 0, 0;
      StateInv();
    }
  }
}
