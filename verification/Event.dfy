/**
 The event object of ipc.c: a set of 32 bits and the threads that wait for some or all of the
 bits they name.  Each method is one region between disabling and enabling interrupts.
 */
module Event {
  import opened Ring
  import opened Waiting

  /** A 32-bit event set. */
  datatype Bits = Bits(v: bv32)

  const NONE := Bits(0)

  /** The flags RT_EVENT_FLAG_AND, RT_EVENT_FLAG_OR and RT_EVENT_FLAG_CLEAR of a receive. */
  datatype Option = Option(all: bool, any: bool, clear: bool)

  const NO_OPTION := Option(false, false, false)

  datatype Outcome = Done | Asleep | Failed | TimedOut

  /** A waiting thread with the bits and the option it asked for. */
  datatype Waiter = Waiter(thread: int, bits: Bits, option: Option)

  /** A resumed thread with the bits it received. */
  datatype Grant = Grant(thread: int, bits: Bits)

  /** What sending did: the set that is left, who still waits, who was resumed in which order. */
  datatype Delivery = Delivery(left: Bits, waiting: seq<Waiter>, grants: seq<Grant>)

  // ---- the word operations of the code ----

  predicate All(events: Bits, bits: Bits) {
    bits.v & events.v == bits.v
  }

  predicate Any(events: Bits, bits: Bits) {
    bits.v & events.v != 0
  }

  function Both(events: Bits, bits: Bits): Bits {
    Bits(bits.v & events.v)
  }

  function Minus(events: Bits, bits: Bits): Bits {
    Bits(events.v & !bits.v)
  }

  function Plus(events: Bits, bits: Bits): Bits {
    Bits(events.v | bits.v)
  }

  /** The test of rt_event_recv. */
  predicate Satisfied(events: Bits, bits: Bits, option: Option) {
    if option.all then All(events, bits) else option.any && Any(events, bits)
  }

  /** The set after a successful rt_event_recv. */
  function Consume(events: Bits, bits: Bits, option: Option): Bits {
    if option.clear then Minus(events, bits) else events
  }

  // ---- what the word operations do, bit by bit ----

  /** `b` is one bit. */
  ghost predicate Single(b: Bits) {
    b.v != 0 && b.v & (b.v - 1) == 0
  }

  ghost predicate Has(events: Bits, b: Bits) {
    Both(b, events) != NONE
  }

  lemma BothPlus(a: Bits, c: Bits, b: Bits)
    ensures Both(b, Plus(a, c)) == Plus(Both(b, a), Both(b, c))
  {
  }

  lemma PlusNone(a: Bits, c: Bits)
    ensures Plus(a, c) == NONE <==> a == NONE && c == NONE
  {
  }

  lemma BothBoth(a: Bits, c: Bits, b: Bits)
    ensures Both(b, Both(a, c)) == Both(Both(b, a), Both(b, c))
  {
  }

  lemma BothMinus(a: Bits, c: Bits, b: Bits)
    ensures Both(b, Minus(a, c)) == Minus(Both(b, a), Both(b, c))
  {
  }

  /** One bit is in a set or it is not. */
  lemma InOrOut(a: Bits, b: Bits)
    requires Single(b)
    ensures Both(b, a) == NONE || Both(b, a) == b
    ensures b != NONE
  {
  }

  lemma WithItself(b: Bits)
    ensures Both(b, b) == b && Both(b, NONE) == NONE && Both(NONE, b) == NONE && Both(NONE, NONE) == NONE
    ensures Minus(b, b) == NONE && Minus(b, NONE) == b && Minus(NONE, b) == NONE && Minus(NONE, NONE) == NONE
  {
  }

  lemma PlusBit(events: Bits, bits: Bits, b: Bits)
    ensures Has(Plus(events, bits), b) <==> Has(events, b) || Has(bits, b)
  {
    hide Plus, Both;
    BothPlus(events, bits, b);
    PlusNone(Both(b, events), Both(b, bits));
  }

  lemma MinusBit(events: Bits, bits: Bits, b: Bits)
    requires Single(b)
    ensures Has(Minus(events, bits), b) <==> Has(events, b) && !Has(bits, b)
  {
    hide Minus, Both, Single;
    BothMinus(events, bits, b);
    InOrOut(events, b);
    InOrOut(bits, b);
    WithItself(b);
  }

  lemma BothBit(events: Bits, bits: Bits, b: Bits)
    requires Single(b)
    ensures Has(Both(events, bits), b) <==> Has(events, b) && Has(bits, b)
  {
    hide Both, Single;
    BothBoth(events, bits, b);
    InOrOut(events, b);
    InOrOut(bits, b);
    WithItself(b);
  }

  /** A set that is not empty has a bit. */
  lemma SomeBit(events: Bits) returns (b: Bits)
    requires events != NONE
    ensures Single(b) && Has(events, b)
  {
    b := Bits(events.v & (0 - events.v));
    LowestBit(events);
  }

  lemma LowestBit(events: Bits)
    requires events != NONE
    ensures var b := Bits(events.v & (0 - events.v)); Single(b) && Has(events, b)
  {
  }

  /** RT_EVENT_FLAG_AND: every bit asked for is there. */
  lemma AllBits(events: Bits, bits: Bits)
    ensures All(events, bits) <==> forall b :: Single(b) && Has(bits, b) ==> Has(events, b)
  {
    hide Single, Has, All;
    if All(events, bits) {
      forall b | Single(b) && Has(bits, b) ensures Has(events, b) {
        AllBit(events, bits, b);
      }
    } else {
      var b := MissingBit(events, bits);
    }
  }

  lemma AllBit(events: Bits, bits: Bits, b: Bits)
    requires All(events, bits) && Single(b) && Has(bits, b)
    ensures Has(events, b)
  {
    hide Single, Has;
    AllIsBoth(events, bits);
    BothBit(events, bits, b);
  }

  lemma AllIsBoth(events: Bits, bits: Bits)
    ensures All(events, bits) <==> Both(events, bits) == bits
    ensures All(events, bits) <==> Minus(bits, events) == NONE
  {
    hide Both, Minus, Plus, All;
    AllSame(events, bits);
    SharedOnly(events, bits);
    Split(events, bits);
    PlusNothing(Both(events, bits));
  }

  lemma AllSame(events: Bits, bits: Bits)
    ensures All(events, bits) <==> Both(events, bits) == bits
  {
  }

  lemma SharedOnly(events: Bits, bits: Bits)
    ensures Minus(Both(events, bits), events) == NONE
  {
  }

  /** A set is what it shares with another and what it does not. */
  lemma Split(events: Bits, bits: Bits)
    ensures Plus(Both(events, bits), Minus(bits, events)) == bits
  {
  }

  lemma PlusNothing(events: Bits)
    ensures Plus(events, NONE) == events
  {
  }

  lemma MissingBit(events: Bits, bits: Bits) returns (b: Bits)
    requires !All(events, bits)
    ensures Single(b) && Has(bits, b) && !Has(events, b)
  {
    hide Single, Has, All;
    AllIsBoth(events, bits);
    b := SomeBit(Minus(bits, events));
    MinusBit(bits, events, b);
  }

  /** RT_EVENT_FLAG_OR: some bit asked for is there. */
  lemma AnyBits(events: Bits, bits: Bits)
    ensures Any(events, bits) <==> exists b :: Single(b) && Has(bits, b) && Has(events, b)
  {
    hide Single, Has, Any, Both;
    AnyIsBoth(events, bits);
    if Any(events, bits) {
      var b := SomeBit(Both(events, bits));
      BothBit(events, bits, b);
    }
    forall b | Single(b) && Has(bits, b) && Has(events, b) ensures Any(events, bits) {
      BothBit(events, bits, b);
      HasSome(Both(events, bits), b);
    }
  }

  lemma AnyIsBoth(events: Bits, bits: Bits)
    ensures Any(events, bits) <==> Both(events, bits) != NONE
  {
  }

  lemma HasSome(events: Bits, b: Bits)
    requires Has(events, b)
    ensures events != NONE
  {
    hide Both;
    WithItself(b);
  }

  /** Two sets with the same bits are the same. */
  lemma SameBits(a: Bits, c: Bits)
    requires forall b :: Single(b) ==> (Has(a, b) <==> Has(c, b))
    ensures a == c
  {
    hide Single, Has, All;
    AllBits(a, c);
    AllBits(c, a);
    AllBoth(a, c);
  }

  lemma AllBoth(a: Bits, c: Bits)
    requires All(a, c) && All(c, a)
    ensures a == c
  {
  }

  /** The immediate path of rt_event_recv, run for each waiter in list order. */
  function Deliver(ws: seq<Waiter>, events: Bits): Delivery {
    if ws == [] then Delivery(events, [], [])
    else
      var w := ws[0];
      if Satisfied(events, w.bits, w.option) then
        var d := Deliver(ws[1..], Consume(events, w.bits, w.option));
        d.(grants := [Grant(w.thread, Both(events, w.bits))] + d.grants)
      else
        var d := Deliver(ws[1..], events);
        d.(waiting := [w] + d.waiting)
  }

  ghost predicate Within(less: Bits, events: Bits) {
    less.v & events.v == less.v
  }

  /** Fewer bits satisfy fewer waiters. */
  lemma SatisfiedMonotone(less: Bits, events: Bits, bits: Bits, option: Option)
    requires Within(less, events) && Satisfied(less, bits, option)
    ensures Satisfied(events, bits, option)
  {
  }

  lemma ConsumeWithin(events: Bits, bits: Bits, option: Option)
    ensures Within(Consume(events, bits, option), events) && Within(events, events)
  {
    hide Within, Minus;
    MinusWithin(events, bits);
  }

  lemma MinusWithin(events: Bits, bits: Bits)
    ensures Within(Minus(events, bits), events) && Within(events, events)
  {
  }

  lemma WithinTransitive(a: Bits, b: Bits, c: Bits)
    requires Within(a, b) && Within(b, c)
    ensures Within(a, c)
  {
  }

  /** Clearing what was received is clearing what was asked for: the two ways the code clears. */
  lemma ClearReceived(events: Bits, bits: Bits)
    ensures Minus(events, Both(events, bits)) == Minus(events, bits)
    ensures All(events, bits) ==> Both(events, bits) == bits
  {
  }

  /** After delivery no remaining waiter is satisfied; the remaining ones were waiting before;
      bits are only taken away. */
  lemma {:induction false} DeliverSettles(ws: seq<Waiter>, events: Bits)
    ensures Within(Deliver(ws, events).left, events)
    ensures forall w :: w in Deliver(ws, events).waiting ==>
              w in ws && !Satisfied(Deliver(ws, events).left, w.bits, w.option)
  {
    hide Satisfied, Consume, Within;
    if ws == [] {
      ConsumeWithin(events, NONE, NO_OPTION);
    } else {
      var w := ws[0];
      var e := if Satisfied(events, w.bits, w.option) then Consume(events, w.bits, w.option) else events;
      DeliverSettles(ws[1..], e);
      var left := Deliver(ws[1..], e).left;
      ConsumeWithin(events, w.bits, w.option);
      WithinTransitive(left, e, events);
      if Satisfied(left, w.bits, w.option) {
        SatisfiedMonotone(left, events, w.bits, w.option);
      }
    }
  }

  /** The waiter at index `i` is resumed exactly when the set that the waiters before it left
      satisfies it, and then it receives just the bits of that set it asked for. */
  lemma {:induction false} DeliverInOrder(ws: seq<Waiter>, events: Bits, i: nat)
    requires i < |ws|
    ensures var e := Deliver(ws[..i], events).left;
            Deliver(ws[..i + 1], events).grants == Deliver(ws[..i], events).grants
              + if Satisfied(e, ws[i].bits, ws[i].option) then [Grant(ws[i].thread, Both(e, ws[i].bits))] else []
    ensures var e := Deliver(ws[..i], events).left;
            Deliver(ws[..i + 1], events).left
              == if Satisfied(e, ws[i].bits, ws[i].option) then Consume(e, ws[i].bits, ws[i].option) else e
  {
    hide Satisfied, Consume;
    assert ws[..i + 1] == ws[..i] + [ws[i]];
    DeliverSplit(ws[..i], [ws[i]], events);
  }

  lemma {:induction false} DeliverSplit(a: seq<Waiter>, b: seq<Waiter>, events: Bits)
    ensures var d := Deliver(a, events);
            var f := Deliver(b, d.left);
            Deliver(a + b, events) == Delivery(f.left, d.waiting + f.waiting, d.grants + f.grants)
  {
    hide Satisfied, Consume;
    if a == [] {
      assert a + b == b;
    } else {
      assert (a + b)[1..] == a[1..] + b;
      var w := a[0];
      DeliverSplit(a[1..], b, if Satisfied(events, w.bits, w.option) then Consume(events, w.bits, w.option) else events);
    }
  }

  // ---- the set, bit by bit, over deliveries and runs ----

  /** When a receive succeeds: with RT_EVENT_FLAG_AND every bit asked for is there, else some bit is. */
  lemma SatisfiedBits(events: Bits, bits: Bits, option: Option)
    ensures option.all ==>
              (Satisfied(events, bits, option) <==> forall b :: Single(b) && Has(bits, b) ==> Has(events, b))
    ensures !option.all ==>
              (Satisfied(events, bits, option) <==>
                 option.any && exists b :: Single(b) && Has(bits, b) && Has(events, b))
  {
    hide Single, Has, All, Any;
    AllBits(events, bits);
    AnyBits(events, bits);
  }

  lemma ConsumeBit(events: Bits, bits: Bits, option: Option, b: Bits)
    requires Single(b)
    ensures Has(Consume(events, bits, option), b) <==> Has(events, b) && !(option.clear && Has(bits, b))
  {
    hide Single, Has, Minus;
    MinusBit(events, bits, b);
  }

  /** The waiter at index `i` is resumed: the set that those before it left satisfies it. */
  ghost predicate Resumes(ws: seq<Waiter>, events: Bits, i: nat)
    requires i < |ws|
  {
    Satisfied(Deliver(ws[..i], events).left, ws[i].bits, ws[i].option)
  }

  /** A resumed waiter with the clear option takes the bit away. */
  ghost predicate Cleared(ws: seq<Waiter>, events: Bits, b: Bits) {
    exists i :: 0 <= i < |ws| && Resumes(ws, events, i) && ws[i].option.clear && Has(ws[i].bits, b)
  }

  /** A bit is left by a delivery exactly if it was there and no resumed waiter cleared it. */
  lemma {:induction false} DeliverBits(ws: seq<Waiter>, events: Bits, b: Bits)
    requires Single(b)
    ensures Has(Deliver(ws, events).left, b) <==> Has(events, b) && !Cleared(ws, events, b)
    decreases |ws|
  {
    hide Single, Has, Satisfied, Consume;
    if ws != [] {
      var n := |ws| - 1;
      var front := ws[..n];
      DeliverBits(front, events, b);
      DeliverInOrder(ws, events, n);
      assert ws[..n + 1] == ws;
      ConsumeBit(Deliver(front, events).left, ws[n].bits, ws[n].option, b);
      forall i | 0 <= i < n ensures Resumes(front, events, i) == Resumes(ws, events, i) && front[i] == ws[i] {
        assert front[..i] == ws[..i];
      }
      assert Cleared(ws, events, b) <==>
             Cleared(front, events, b) || (Resumes(ws, events, n) && ws[n].option.clear && Has(ws[n].bits, b));
    }
  }

  /** The event object as its users see it. */
  datatype State = State(events: Bits, waiting: seq<Waiter>)

  datatype Action =
    | SendOf(bits: Bits)
    | RecvOf(bits: Bits, option: Option)
    | WaitAt(k: nat, w: Waiter)
    | LeaveAt(k: nat)
    | Clear

  function Next(s: State, a: Action): State {
    match a
    case SendOf(bits) =>
      if bits == NONE then s
      else var d := Deliver(s.waiting, Plus(s.events, bits)); State(d.left, d.waiting)
    case RecvOf(bits, option) =>
      if bits != NONE && Satisfied(s.events, bits, option) then s.(events := Consume(s.events, bits, option)) else s
    case WaitAt(k, w) => if k <= |s.waiting| then s.(waiting := s.waiting[..k] + [w] + s.waiting[k..]) else s
    case LeaveAt(k) => if k < |s.waiting| then s.(waiting := s.waiting[..k] + s.waiting[k + 1..]) else s
    case Clear => State(NONE, [])
  }

  function After(run: seq<Action>): State
    decreases |run|
  {
    if run == [] then State(NONE, []) else Next(After(run[..|run| - 1]), run[|run| - 1])
  }

  /** The bit was sent, and since then no resumed waiter, no receiver and no reset cleared it. */
  ghost predicate SentSince(run: seq<Action>, b: Bits)
    decreases |run|
  {
    run != [] &&
    var before := run[..|run| - 1];
    match run[|run| - 1]
    case SendOf(bits) =>
      if bits == NONE then SentSince(before, b)
      else (SentSince(before, b) || Has(bits, b))
           && !Cleared(After(before).waiting, Plus(After(before).events, bits), b)
    case RecvOf(bits, option) =>
      && SentSince(before, b)
      && !(bits != NONE && Satisfied(After(before).events, bits, option) && option.clear && Has(bits, b))
    case WaitAt(_, _) => SentSince(before, b)
    case LeaveAt(_) => SentSince(before, b)
    case Clear => false
  }

  /** Over every run: a bit is set exactly if it was sent since it was last cleared. */
  lemma {:induction false} RunBits(run: seq<Action>, b: Bits)
    requires Single(b)
    ensures Has(After(run).events, b) <==> SentSince(run, b)
    decreases |run|
  {
    hide Single, Has, Satisfied, Consume, Plus, Cleared;
    NothingSet(b);
    if run != [] {
      var before := run[..|run| - 1];
      var s := After(before);
      RunBits(before, b);
      match run[|run| - 1]
      case SendOf(bits) =>
        DeliverBits(s.waiting, Plus(s.events, bits), b);
        PlusBit(s.events, bits, b);
      case RecvOf(bits, option) => ConsumeBit(s.events, bits, option, b);
      case _ =>
    }
  }

  lemma NothingSet(b: Bits)
    ensures !Has(NONE, b)
  {
    hide Both;
    WithItself(b);
  }

  /** After every run a receive of several bits succeeds exactly if all of them, or with
      RT_EVENT_FLAG_OR some of them, were sent since they were last cleared. */
  lemma RunReceives(run: seq<Action>, bits: Bits, option: Option)
    ensures option.all ==>
              (Satisfied(After(run).events, bits, option) <==>
                 forall b :: Single(b) && Has(bits, b) ==> SentSince(run, b))
    ensures !option.all && option.any ==>
              (Satisfied(After(run).events, bits, option) <==>
                 exists b :: Single(b) && Has(bits, b) && SentSince(run, b))
  {
    hide Single, Has, Satisfied, SentSince, After;
    SatisfiedBits(After(run).events, bits, option);
    forall b | Single(b) ensures Has(After(run).events, b) <==> SentSince(run, b) {
      RunBits(run, b);
    }
  }

  function Look<T>(m: map<int, T>, t: int, default: T): T {
    if t in m then m[t] else default
  }

  /** The waiters, from the list and the threads' event_set and event_info. */
  function View(l: seq<int>, eventSet: map<int, Bits>, eventInfo: map<int, Option>): (r: seq<Waiter>)
    ensures |r| == |l|
  {
    seq(|l|, i requires 0 <= i < |l| => Waiter(l[i], Look(eventSet, l[i], NONE), Look(eventInfo, l[i], NO_OPTION)))
  }

  lemma ViewHead(l: seq<int>, eventSet: map<int, Bits>, eventInfo: map<int, Option>, i: nat)
    requires i < |l|
    ensures var v := View(l[i..], eventSet, eventInfo);
            && v[0] == Waiter(l[i], Look(eventSet, l[i], NONE), Look(eventInfo, l[i], NO_OPTION))
            && v[1..] == View(l[i + 1..], eventSet, eventInfo)
    ensures View(l[..i + 1], eventSet, eventInfo) == View(l[..i], eventSet, eventInfo) + [View(l[i..], eventSet, eventInfo)[0]]
    ensures |Without(l, i)| == |l| - 1 && Without(l, i)[..i] == l[..i] && Without(l, i)[i..] == l[i + 1..]
  {
  }

  lemma ViewFrame(l: seq<int>, eventSet: map<int, Bits>, eventSet': map<int, Bits>, eventInfo: map<int, Option>, t: int)
    requires t !in l && forall x :: x != t ==> Look(eventSet', x, NONE) == Look(eventSet, x, NONE)
    ensures View(l, eventSet', eventInfo) == View(l, eventSet, eventInfo)
  {
    forall i | 0 <= i < |l| ensures View(l, eventSet', eventInfo)[i] == View(l, eventSet, eventInfo)[i] {
      assert l[i] in l;
    }
  }

  lemma Assoc<T>(a: seq<T>, x: T, b: seq<T>)
    ensures b != [] && b[0] == x ==> a + b == (a + [x]) + b[1..]
  {
  }

  /** A new waiter among the others. */
  lemma ViewPut(l: seq<int>, k: nat, t: int, eventSet: map<int, Bits>, eventInfo: map<int, Option>, bits: Bits, option: Option)
    requires k <= |l| && t !in l
    ensures var v := View(l, eventSet, eventInfo);
            View(Put(l, k, t), eventSet[t := bits], eventInfo[t := option])
              == v[..k] + [Waiter(t, bits, option)] + v[k..]
  {
    var r, v := Put(l, k, t), View(l, eventSet, eventInfo);
    var v', w := View(r, eventSet[t := bits], eventInfo[t := option]), v[..k] + [Waiter(t, bits, option)] + v[k..];
    forall i | 0 <= i < |v'| ensures v'[i] == w[i] {
      assert i != k ==> r[i] == l[if i < k then i else i - 1] && r[i] in l;
    }
  }

  lemma ViewWithout(l: seq<int>, i: nat, eventSet: map<int, Bits>, eventInfo: map<int, Option>)
    requires i < |l|
    ensures var v := View(l, eventSet, eventInfo);
            View(Without(l, i), eventSet, eventInfo) == v[..i] + v[i + 1..]
  {
  }

  /** Thread `l[i]` is in neither part of the list around it. */
  lemma OnceOnly(l: seq<int>, i: nat)
    requires Distinct(l) && i < |l|
    ensures l[i] !in l[..i] && l[i] !in l[i + 1..]
    ensures Distinct(Without(l, i)) && l[i] !in Without(l, i) && forall x :: x in Without(l, i) ==> x in l
  {
  }

  /** `granted` holds what it held `before` and the grants, and nothing else. */
  ghost predicate Handed(granted: map<int, Bits>, before: map<int, Bits>, grants: seq<Grant>) {
    && (forall t {:trigger t in before} :: t in before ==> t in granted && granted[t] == before[t])
    && (forall g {:trigger g in grants} :: g in grants ==> g.thread in granted && granted[g.thread] == g.bits)
    && (forall t {:trigger t in granted} :: t in granted ==> t in before || Grant(t, granted[t]) in grants)
  }

  lemma HandOne(granted: map<int, Bits>, before: map<int, Bits>, grants: seq<Grant>, t: int, bits: Bits)
    requires Handed(granted, before, grants) && t !in granted
    ensures Handed(granted[t := bits], before, grants + [Grant(t, bits)])
  {
    var more := grants + [Grant(t, bits)];
    assert more[|grants|] == Grant(t, bits);
    assert forall g {:trigger g in more} :: g in more <==> g in grants || g == Grant(t, bits);
  }

  class Event {
    const byPrio: bool
    const prio: Priorities

    var events: Bits
    var suspended: seq<int>
    var eventSet: map<int, Bits>
    var eventInfo: map<int, Option>

    // the threads that were resumed and have not run yet, with the bits they are to receive
    ghost var granted: map<int, Bits>

    ghost function Waiting(): seq<Waiter>
      reads this
    {
      View(suspended, eventSet, eventInfo)
    }

    ghost function Now(): State
      reads this
    {
      State(events, Waiting())
    }

    /** No thread sleeps whose condition the current set satisfies, and every resumed thread will
        find its bits where it left its request. */
    ghost predicate Valid()
      reads this
    {
      && Distinct(suspended) && Owed()
      && forall t {:trigger t in suspended} :: t in suspended ==>
           !Satisfied(events, Look(eventSet, t, NONE), Look(eventInfo, t, NO_OPTION))
    }

    ghost predicate Owed()
      reads this`granted, this`suspended, this`eventSet
    {
      forall t {:trigger t in granted} :: t in granted ==>
        t !in suspended && Look(eventSet, t, NONE) == granted[t]
    }

    /** rt_event_init */
    constructor (byPrio: bool, prio: Priorities)
      ensures Valid() && events == NONE && suspended == [] && granted == map[] && Now() == After([])
      ensures this.byPrio == byPrio && this.prio == prio
    {
      granted := map[];
      this.byPrio, this.prio := byPrio, prio;
      events, suspended, eventSet, eventInfo := NONE, [], map[], map[];
    }

    /** The test and the clearing that rt_event_send makes for one waiting thread. */
    method Check(t: int) returns (status: bool)
      modifies this`events, this`eventSet
      ensures status <==> Satisfied(old(events), old(Look(eventSet, t, NONE)), Look(eventInfo, t, NO_OPTION))
      ensures events == if status then Consume(old(events), old(Look(eventSet, t, NONE)), Look(eventInfo, t, NO_OPTION)) else old(events)
      ensures Look(eventSet, t, NONE) == if status then Both(old(events), old(Look(eventSet, t, NONE))) else old(Look(eventSet, t, NONE))
      ensures forall x :: x != t ==> Look(eventSet, x, NONE) == old(Look(eventSet, x, NONE))
      ensures !status ==> eventSet == old(eventSet)
    {
      hide All, Any, Both, Minus;
      var wanted, option := Look(eventSet, t, NONE), Look(eventInfo, t, NO_OPTION);
      status := false;
      ClearReceived(events, wanted);
      if option.all {
        if All(events, wanted) {
          status := true;
        }
      } else if option.any {
        if Any(events, wanted) {
          eventSet := eventSet[t := Both(events, wanted)];
          status := true;
        }
      }
      if status && option.clear {
        events := Minus(events, Look(eventSet, t, NONE));
      }
    }

    /** What is known between two threads of the list: the threads before `i` stay, those in
        `grants` are resumed with their bits, and the rest is still to be delivered to. */
    ghost predicate Delivering(d: Delivery, i: nat, grants: seq<Grant>, before: map<int, Bits>)
      reads this
    {
      && i <= |suspended| && Distinct(suspended)
      && (var rest := Deliver(View(suspended[i..], eventSet, eventInfo), events);
          d == Delivery(rest.left, View(suspended[..i], eventSet, eventInfo) + rest.waiting, grants + rest.grants))
      && Owed() && Handed(granted, before, grants)
    }

    /** One step through the list. */
    method DeliverOne(i: nat, ghost d: Delivery, ghost grants: seq<Grant>, ghost before: map<int, Bits>)
      returns (j: nat, ghost grants': seq<Grant>)
      requires Delivering(d, i, grants, before) && i < |suspended|
      modifies this`events, this`eventSet, this`suspended, this`granted
      ensures Delivering(d, j, grants', before) && |suspended| - j == old(|suspended|) - i - 1
    {
      hide Satisfied, Consume, Look, Distinct, Without, View, Handed;
      var t := suspended[i];
      assert t in suspended;
      ViewHead(suspended, eventSet, eventInfo, i);
      OnceOnly(suspended, i);
      ghost var v := View(suspended[i..], eventSet, eventInfo);
      ghost var old0 := View(suspended[..i], eventSet, eventInfo);
      Assoc(grants, Grant(t, Both(events, v[0].bits)), Deliver(v, events).grants);
      Assoc(old0, v[0], Deliver(v, events).waiting);
      var status := Check(t);
      ViewFrame(suspended[..i], old(eventSet), eventSet, eventInfo, t);
      ViewFrame(suspended[i + 1..], old(eventSet), eventSet, eventInfo, t);
      if status {
        HandOne(granted, before, grants, t, Look(eventSet, t, NONE));
        grants' := grants + [Grant(t, Look(eventSet, t, NONE))];
        granted := granted[t := Look(eventSet, t, NONE)];
        suspended := Removed(i);
        j := i;
      } else {
        grants' := grants;
        j := i + 1;
      }
    }

    function Removed(i: nat): seq<int>
      requires i < |suspended|
      reads this
    {
      Without(suspended, i)
    }

    /** rt_event_send */
    method Send(bits: Bits) returns (ok: bool, ghost d: Delivery)
      requires Valid()
      modifies this
      ensures Valid()
      ensures ok <==> bits.v != 0
      ensures !ok ==> unchanged(this)
      ensures ok ==> d == Deliver(old(Waiting()), Plus(old(events), bits))
      ensures ok ==> events == d.left && Waiting() == d.waiting
      ensures Now() == Next(old(Now()), SendOf(bits))
      ensures ok ==> Handed(granted, old(granted), d.grants)
    {
      hide Satisfied, Distinct, View, Handed;
      d := Delivery(NONE, [], []);
      if bits.v == 0 {
        return false, d;
      }
      events := Plus(events, bits);
      ghost var all := Waiting();
      d := Deliver(all, events);
      DeliverSettles(all, events);
      var i: nat := 0;
      ghost var grants: seq<Grant> := [];
      StartOver();
      NothingHanded(granted);
      while i < |suspended|
        invariant Delivering(d, i, grants, old(granted))
        decreases |suspended| - i
      {
        i, grants := DeliverOne(i, d, grants, old(granted));
      }
      Finished(d, i, grants, old(granted));
      return true, d;
    }

    lemma StartOver()
      ensures suspended[0..] == suspended && View(suspended[..0], eventSet, eventInfo) == []
    {
    }

    lemma NothingHanded(m: map<int, Bits>)
      ensures Handed(m, m, [])
    {
    }

    lemma Finished(d: Delivery, i: nat, grants: seq<Grant>, before: map<int, Bits>)
      requires Delivering(d, i, grants, before) && i == |suspended|
      requires forall w :: w in d.waiting ==> !Satisfied(d.left, w.bits, w.option)
      ensures events == d.left && Waiting() == d.waiting && grants == d.grants && Valid()
    {
      assert suspended[..i] == suspended;
      forall t | t in suspended ensures !Satisfied(events, Look(eventSet, t, NONE), Look(eventInfo, t, NO_OPTION)) {
        var k :| 0 <= k < |suspended| && suspended[k] == t;
        assert Waiting()[k] in d.waiting;
      }
    }

    /** rt_event_recv up to the point where the thread has its bits, gives up or sleeps. */
    method Recv(t: int, bits: Bits, option: Option, timeout: int) returns (r: Outcome, received: Bits)
      requires Valid() && t !in suspended && t !in granted && (option.all || option.any)
      modifies this
      ensures Valid()
      ensures r == if bits.v == 0 then Failed else if Satisfied(old(events), bits, option) then Done
                   else if timeout == 0 then TimedOut else Asleep
      ensures r == Done ==> Deliver([Waiter(t, bits, option)], old(events)) == Delivery(events, [], [Grant(t, received)])
      ensures r != Done ==> events == old(events)
      ensures r != Asleep ==> Now() == Next(old(Now()), RecvOf(bits, option))
      ensures r == Asleep ==>
                exists k: nat :: k <= |old(suspended)| && Now() == Next(old(Now()), WaitAt(k, Waiter(t, bits, option)))
      ensures granted == old(granted)
      ensures r != Asleep ==> suspended == old(suspended) && eventSet == old(eventSet) && eventInfo == old(eventInfo)
      ensures r == Asleep ==> suspended == Enqueue(old(suspended), t, prio, byPrio)
      ensures r == Asleep ==> eventSet == old(eventSet)[t := bits] && eventInfo == old(eventInfo)[t := option]
    {
      hide Enqueue, Distinct, All, Any, Both, Minus, Within;
      received := NONE;
      if bits.v == 0 {
        return Failed, received;
      }
      var status := false;
      if option.all {
        if All(events, bits) {
          status := true;
        }
      } else if option.any {
        if Any(events, bits) {
          status := true;
        }
      }
      if status {
        received := Both(events, bits);
        if option.clear {
          ConsumeWithin(events, bits, option);
          StillUnsatisfied(Minus(events, bits));
          events := Minus(events, bits);
        }
        return Done, received;
      }
      if timeout == 0 {
        return TimedOut, received;
      }
      ghost var k := SleepOn(t, bits, option);
      return Asleep, received;
    }

    /** The thread leaves its request and goes to sleep. */
    method SleepOn(t: int, bits: Bits, option: Option) returns (ghost k: nat)
      requires Valid() && t !in suspended && t !in granted && !Satisfied(events, bits, option)
      modifies this`suspended, this`eventSet, this`eventInfo
      ensures Valid() && suspended == Enqueue(old(suspended), t, prio, byPrio)
      ensures eventSet == old(eventSet)[t := bits] && eventInfo == old(eventInfo)[t := option]
      ensures k <= |old(suspended)| && Now() == Next(old(Now()), WaitAt(k, Waiter(t, bits, option)))
    {
      hide Enqueue, Distinct, Satisfied, View, Put;
      EnqueueIn(suspended, t, prio, byPrio);
      k := EnqueueSplit(suspended, t, prio, byPrio);
      ViewPut(suspended, k, t, eventSet, eventInfo, bits, option);
      eventSet, eventInfo := eventSet[t := bits], eventInfo[t := option];
      suspended := Enqueue(suspended, t, prio, byPrio);
    }

    /** Taking bits away satisfies nobody. */
    lemma StillUnsatisfied(less: Bits)
      requires Valid() && Within(less, events)
      ensures forall t {:trigger t in suspended} :: t in suspended ==>
                !Satisfied(less, Look(eventSet, t, NONE), Look(eventInfo, t, NO_OPTION))
    {
      hide Satisfied, Within;
      forall t | t in suspended ensures !Satisfied(less, Look(eventSet, t, NONE), Look(eventInfo, t, NO_OPTION)) {
        if Satisfied(less, Look(eventSet, t, NONE), Look(eventInfo, t, NO_OPTION)) {
          SatisfiedMonotone(less, events, Look(eventSet, t, NONE), Look(eventInfo, t, NO_OPTION));
        }
      }
    }

    /** The rest of rt_event_recv for a thread that was resumed, whatever was sent meanwhile. */
    method RecvResumed(t: int) returns (received: Bits)
      requires Valid() && t in granted
      modifies this`granted
      ensures Valid() && received == old(granted)[t] && granted == old(granted) - {t}
    {
      hide Satisfied;
      received := Look(eventSet, t, NONE);
      granted := granted - {t};
    }

    /** The timer of the sleeping thread at index `i` expires. */
    method Timeout(i: nat) returns (t: int)
      requires Valid() && i < |suspended|
      modifies this`suspended
      ensures Valid() && t == old(suspended)[i] && suspended == Without(old(suspended), i) && t !in suspended
      ensures t !in granted && Now() == Next(old(Now()), LeaveAt(i))
    {
      hide Satisfied, View;
      OnceOnly(suspended, i);
      ViewWithout(suspended, i, eventSet, eventInfo);
      t := suspended[i];
      suspended := Without(suspended, i);
    }

    /** rt_event_control with RT_IPC_CMD_RESET */
    method Reset()
      requires Valid()
      modifies this`events, this`suspended
      ensures Valid() && events == NONE && suspended == [] && Now() == Next(old(Now()), Clear)
    {
      suspended := [];
      events := NONE;
    }
  }
}
