/** Transactions against the clock: what the task's wait can meet when the timer ticks on time, and the one
    deadline with which it goes wrong. */
module OpenThermOnTime {
  import opened Common
  import opened Bits
  import opened OpenThermFrame
  import opened OpenThermLink
  import opened OpenThermTransaction

  // ---------------------------------------------------------------- on time

  /** What is known of the delays: the first tick of a transaction at which its wait may expire, the time
      from one transaction to the next, and whether edges are stamped with the time at which they come. */
  datatype Timing = Timing(waitTicks: nat, gapUs: nat, stamped: bool)

  /** The delays as coded: a wait of 1000 ms, and a gap of 100 ms besides the tick in which the transaction
      before it ended. */
  const CODED := Timing(2000, 100500, true)

  /** The system with a clock: the time of the last tick; the end of the last transaction; and, since the
      last start, the time, the link and the word it started from and the interrupts seen. */
  datatype Clocked = Clocked(
    timing: Timing, sys: System, now: nat, ended: nat,
    since: nat, base: Link, raw: Word, seen: seq<Event>)

  /** Ticks come every 500 microseconds, and edges, if stamped, between the ticks around them. */
  predicate ClockedEnabled(c: Clocked, a: Action) {
    && Enabled(c.sys, a)
    && (a.Isr? && a.e.Tick? ==> a.e.at == c.now + TICK_US)
    && (a.Isr? && a.e.Edge? && c.timing.stamped ==> c.now <= a.e.at <= c.now + TICK_US)
    && (a.Start? ==> c.now >= c.ended + c.timing.gapUs)
    && (a.WaitExpires? ==> TickCount(c.seen) >= c.timing.waitTicks)
  }

  function ClockedDo(c: Clocked, a: Action): (r: Clocked)
    requires WellFormed(c.sys.link) && ClockedEnabled(c, a)
    ensures WellFormed(r.sys.link)
  {
    var sys := Do(c.sys, a);
    match a
    case Start(raw) => c.(sys := sys, since := c.now, base := c.sys.link, raw := raw, seen := [])
    case Isr(e) => c.(sys := sys, now := if e.Tick? then e.at else c.now, seen := c.seen + [e])
    case Finish | Abandon => c.(sys := sys, ended := c.now)
    case Take | WaitExpires => c.(sys := sys)
  }

  ghost predicate ClockedPossible(c: Clocked, run: seq<Action>)
    requires WellFormed(c.sys.link)
    decreases |run|
  {
    run == [] || (ClockedEnabled(c, run[0]) && ClockedPossible(ClockedDo(c, run[0]), run[1..]))
  }

  ghost function ClockedAfter(c: Clocked, run: seq<Action>): (r: Clocked)
    requires WellFormed(c.sys.link) && ClockedPossible(c, run)
    ensures WellFormed(r.sys.link)
    decreases |run|
  {
    if run == [] then c else ClockedAfter(ClockedDo(c, run[0]), run[1..])
  }

  /** The deadline that a transaction started now will have. */
  function DeadlineFrom(now: nat): nat {
    Deadline(now + 69 * TICK_US)
  }

  /** No transaction of the run starts at a time that gives it the clock's last value for a deadline. */
  ghost predicate AllDeadlinesPass(c: Clocked, run: seq<Action>)
    requires WellFormed(c.sys.link) && ClockedPossible(c, run)
    decreases |run|
  {
    run == [] ||
    ((run[0].Start? ==> DeadlineFrom(c.now) != UINT32 - 1) && AllDeadlinesPass(ClockedDo(c, run[0]), run[1..]))
  }

  /** While the task is blocked, the link is where the interrupts since the start have brought it. */
  ghost predicate Tracking(c: Clocked) {
    && Consistent(c.sys) && !c.sys.task.GaveUp? && c.timing.waitTicks >= 1671
    && (c.sys.task.Blocked? ==>
          && |c.raw| == 64 && |c.base.rxFrame| == 64
          && c.sys.link == Run(Begin(c.base, c.raw), c.seen)
          && OnTime(c.seen, c.since) && c.now == c.since + TICK_US * TickCount(c.seen)
          && DeadlineFrom(c.since) != UINT32 - 1)
  }

  lemma {:induction false} OnTimeAppend(es: seq<Event>, e: Event, start: nat)
    requires OnTime(es, start)
    requires e.Tick? ==> e.at == start + TICK_US * TickCount(es) + TICK_US
    ensures OnTime(es + [e], start) && TickCount(es + [e]) == TickCount(es) + if e.Tick? then 1 else 0
    decreases |es|
  {
    if es == [] {
      assert es + [e] == [e] && [e][1..] == [];
    } else {
      assert (es + [e])[1..] == es[1..] + [e];
      OnTimeAppend(es[1..], e, if es[0].Tick? then es[0].at else start);
    }
  }

  lemma {:induction false} IsrKeepsTracking(c: Clocked, e: Event)
    requires Tracking(c) && c.sys.task.Blocked? && ClockedEnabled(c, Isr(e))
    ensures Tracking(ClockedDo(c, Isr(e)))
  {
    StepKeepsConsistent(c.sys, Isr(e));
    OnTimeAppend(c.seen, e, c.since);
    var b := Begin(c.base, c.raw);
    RunSplit(b, c.seen, [e]);
    hide Begin, Step, TickCount, OnTime, Deadline, Consistent;
    assert Run(Run(b, c.seen), [e]) == Step(c.sys.link, e);
  }

  lemma {:induction false} NoExpiry(c: Clocked)
    requires Tracking(c) && c.sys.task.Blocked? && TickCount(c.seen) >= c.timing.waitTicks
    ensures c.sys.link.sem
  {
    CompletesBeforeTheWaitExpires(c.base, c.raw, c.since, c.seen);
    hide Begin, Run, Deadline;
  }

  lemma {:induction false} ClockedStepKeepsTracking(c: Clocked, a: Action)
    requires Tracking(c) && ClockedEnabled(c, a)
    requires a.Start? ==> DeadlineFrom(c.now) != UINT32 - 1
    ensures Tracking(ClockedDo(c, a)) && !a.WaitExpires?
  {
    if a.WaitExpires? {
      NoExpiry(c);
      assert false;
    } else if a.Isr? && c.sys.task.Blocked? {
      IsrKeepsTracking(c, a.e);
    } else {
      StepKeepsConsistent(c.sys, a);
      hide Consistent, Deadline, Step;
    }
  }

  lemma {:induction false} RunsKeepTracking(c: Clocked, run: seq<Action>)
    requires Tracking(c) && ClockedPossible(c, run) && AllDeadlinesPass(c, run)
    ensures Tracking(ClockedAfter(c, run)) && WaitExpires !in run
    decreases |run|
  {
    if run != [] {
      ClockedStepKeepsTracking(c, run[0]);
      hide Tracking, ClockedDo, ClockedEnabled;
      RunsKeepTracking(ClockedDo(c, run[0]), run[1..]);
      assert run == [run[0]] + run[1..];
    }
  }

  /** Main result: from an idle link with the task free, over any number of transactions with ticks on time
      and any edges, whatever the gaps and even with a wait of only 1671 of its 2000 ticks, the wait never
      expires, task, phase and semaphore always agree, and the task reads a frame only after the receiver has
      completed one, as long as no transaction starts with the clock's last value for a deadline. */
  lemma {:induction false} OnTimeRunsNeverGiveUp(c: Clocked, run: seq<Action>)
    requires c.timing.waitTicks >= 1671
    requires Consistent(c.sys) && c.sys.task.Free? && ClockedPossible(c, run) && AllDeadlinesPass(c, run)
    ensures var s := ClockedAfter(c, run).sys;
            && WaitExpires !in run && Consistent(s)
            && (Enabled(s, Finish) && !s.link.phase.Error? ==> s.link.phase.Done?)
  {
    RunsKeepTracking(c, run);
    hide ClockedAfter, ClockedPossible;
  }

  // ---------------------------------------------------------------- the stale token

  /** Ticks on time, and every edge between the ticks around it. */
  predicate Punctual(es: seq<Event>, now: nat)
    decreases |es|
  {
    es == [] ||
    match es[0]
    case Tick(at) => at == now + TICK_US && Punctual(es[1..], at)
    case Edge(_, at) => now <= at <= now + TICK_US && Punctual(es[1..], now)
  }

  function IsrAll(es: seq<Event>): (run: seq<Action>)
    ensures |run| == |es|
  {
    if es == [] then [] else [Isr(es[0])] + IsrAll(es[1..])
  }

  lemma {:induction false} ClockedConcat(c: Clocked, a: seq<Action>, b: seq<Action>)
    requires WellFormed(c.sys.link) && ClockedPossible(c, a) && ClockedPossible(ClockedAfter(c, a), b)
    ensures ClockedPossible(c, a + b) && ClockedAfter(c, a + b) == ClockedAfter(ClockedAfter(c, a), b)
    decreases |a|
  {
    if a == [] {
      assert a + b == b;
    } else {
      assert (a + b)[1..] == a[1..] + b;
      ClockedConcat(ClockedDo(c, a[0]), a[1..], b);
    }
  }

  lemma {:induction false} ClockedOne(c: Clocked, a: Action)
    requires WellFormed(c.sys.link) && ClockedEnabled(c, a)
    ensures ClockedPossible(c, [a]) && ClockedAfter(c, [a]) == ClockedDo(c, a)
  {
    assert [a][1..] == [];
  }

  lemma {:induction false} Cons(l: Link, e: Event, rest: seq<Event>, now: nat)
    requires WellFormed(l)
    ensures Run(l, [e] + rest) == Run(Step(l, e), rest)
    ensures TickCount([e] + rest) == TickCount(rest) + if e.Tick? then 1 else 0
    ensures e.Tick? ==> (Punctual([e] + rest, now) <==> e.at == now + TICK_US && Punctual(rest, e.at))
    ensures e.Edge? ==> (Punctual([e] + rest, now) <==> now <= e.at <= now + TICK_US && Punctual(rest, now))
  {
    hide Step;
    assert ([e] + rest)[1..] == rest;
  }

  lemma {:induction false} ClockedCons(c: Clocked, a: Action, rest: seq<Action>)
    requires WellFormed(c.sys.link) && ClockedEnabled(c, a) && ClockedPossible(ClockedDo(c, a), rest)
    ensures ClockedPossible(c, [a] + rest) && ClockedAfter(c, [a] + rest) == ClockedAfter(ClockedDo(c, a), rest)
  {
    hide ClockedDo, ClockedEnabled;
    assert ([a] + rest)[1..] == rest;
  }

  /** Interrupts on time are always possible, and only the link, the clock and the record see them. */
  lemma {:induction false} ClockedIsrs(c: Clocked, es: seq<Event>)
    requires WellFormed(c.sys.link) && Punctual(es, c.now)
    ensures ClockedPossible(c, IsrAll(es))
    ensures ClockedAfter(c, IsrAll(es)) ==
            c.(sys := System(Run(c.sys.link, es), c.sys.task),
               now := c.now + TICK_US * TickCount(es), seen := c.seen + es)
    decreases |es|
  {
    if es == [] {
      assert c.seen + es == c.seen;
    } else {
      var e, rest := es[0], es[1..];
      assert es == [e] + rest;
      Cons(c.sys.link, e, rest, c.now);
      var d := ClockedDo(c, Isr(e));
      assert d == c.(sys := System(Step(c.sys.link, e), c.sys.task),
                     now := if e.Tick? then e.at else c.now, seen := c.seen + [e]);
      hide Step, Run, Punctual, TickCount, ClockedDo;
      ClockedIsrs(d, rest);
      assert c.seen + [e] + rest == c.seen + es;
      ClockedCons(c, Isr(e), IsrAll(rest));
    }
  }

  function Ticks(now: nat, n: nat): (es: seq<Event>)
    decreases n
  {
    if n == 0 then [] else [Tick(now + TICK_US)] + Ticks(now + TICK_US, n - 1)
  }

  lemma {:induction false} TicksOnTime(now: nat, n: nat)
    ensures Punctual(Ticks(now, n), now) && TickCount(Ticks(now, n)) == n
    decreases n
  {
    if n > 0 {
      TicksOnTime(now + TICK_US, n - 1);
    }
  }

  /** Ticks change nothing while the link is idle, nor while it waits with the clock's last value for a
      deadline. */
  lemma {:induction false} TicksAreSilent(l: Link, now: nat, n: nat)
    requires WellFormed(l) && (l.phase.Idle? || (Waiting(l.phase) && l.deadlineMs == UINT32 - 1))
    ensures Run(l, Ticks(now, n)) == l
    decreases n
  {
    if n > 0 {
      assert TickStep(l, now + TICK_US) == l;
      TicksAreSilent(l, now + TICK_US, n - 1);
    }
  }

  /** n reply bits, a millisecond each, with the ticks between them; the levels alternate. */
  function ReplyBits(now: nat, level: bool, n: nat): (es: seq<Event>)
    decreases n
  {
    if n == 0 then []
    else
      [Tick(now + 500)] + ([Edge(level, now + 600)] + ([Tick(now + 1000)] + ReplyBits(now + 1000, !level, n - 1)))
  }

  /** The register after i bits that alternate, the first one zero: the last bit received is the lowest. */
  function Collected(i: nat): (w: Word)
    ensures |w| == 64 && forall k :: 0 <= k < 64 ==> w[k] == (k < i && (i - 1 - k) % 2 == 1)
  {
    seq(64, k => k < i && (i - 1 - k) % 2 == 1)
  }

  /** An edge of the alternating reply shifts in its next bit. */
  lemma {:induction false} CollectsNext(i: nat, level: bool)
    requires i < 63 && level == (i % 2 == 0)
    ensures Or(Shl(Collected(i), 1), if level then Zeros(64) else OneBit(0, 64)) == Collected(i + 1)
  {
    ShiftedUp(Collected(i));
    hide Or, Shl, Zeros, OneBit, Collected;
    var low := if level then Zeros(64) else OneBit(0, 64);
    assert low[0] == !level && forall k :: 1 <= k < 64 ==> !low[k];
    var r, next := Or(Shl(Collected(i), 1), low), Collected(i + 1);
    forall k | 0 <= k < 64 ensures r[k] == next[k] {}
  }

  lemma {:induction false} ShiftedUp(w: Word)
    requires |w| == 64
    ensures |Shl(w, 1)| == 64 && !Shl(w, 1)[0] && forall k :: 1 <= k < 64 ==> Shl(w, 1)[k] == w[k - 1]
  {}

  /** The receiver has taken i bits, the last one 400 microseconds ago, and cannot time out. */
  predicate Taking(l: Link, i: nat, now: nat) {
    && WellFormed(l) && l.rxFrame == Collected(i)
    && (l.phase, l.rxIdx, l.rxLastEdge, l.deadlineMs, l.sem) == (Rx, i, now - 400, UINT32 - 1, false)
  }

  lemma {:induction false} TickIsSilent(l: Link, i: nat, now: nat, at: nat)
    requires Taking(l, i, now)
    ensures Step(l, Tick(at)) == l
  {
    hide Collected;
  }

  lemma {:induction false} EdgeShifts(l: Link, level: bool, at: nat)
    requires WellFormed(l) && l.phase.Rx? && l.rxIdx < FRAME_BITS - 2 && Since(at, l.rxLastEdge) > HALF_BIT_LIMIT_US
    ensures Step(l, Edge(level, at)) ==
            l.(rxFrame := Or(Shl(l.rxFrame, 1), if level then Zeros(64) else OneBit(0, 64)),
               rxLastEdge := at, rxIdx := l.rxIdx + 1)
  {
    hide Or, OneBit, Zeros, Since;
  }

  lemma {:induction false} SinceBit(now: nat, last: int)
    requires last == now - 400
    ensures Since(now + 600, last) == 1000
  {}

  lemma {:induction false} EdgeTaken(l: Link, i: nat, now: nat, level: bool)
    requires Taking(l, i, now) && i < 32 && level == (i % 2 == 0)
    ensures Taking(Step(l, Edge(level, now + 600)), i + 1, now + 1000)
  {
    hide Step, Or, OneBit, Zeros, Since, Collected;
    SinceBit(now, l.rxLastEdge);
    EdgeShifts(l, level, now + 600);
    CollectsNext(i, level);
  }

  lemma {:induction false} OneBitTaken(l: Link, i: nat, now: nat, level: bool)
    requires Taking(l, i, now) && i < 32 && level == (i % 2 == 0)
    ensures var m := Step(l, Tick(now + 500));
            var e := Step(m, Edge(level, now + 600));
            WellFormed(l) && Taking(Step(e, Tick(now + 1000)), i + 1, now + 1000)
  {
    TakingIsWellFormed(l, i, now);
    hide Taking, Step, WellFormed;
    TickIsSilent(l, i, now, now + 500);
    EdgeTaken(l, i, now, level);
    TickIsSilent(Step(l, Edge(level, now + 600)), i + 1, now + 1000, now + 1000);
  }

  lemma {:induction false} OneBitRun(l: Link, i: nat, now: nat, level: bool, rest: seq<Event>) returns (r: Link)
    requires Taking(l, i, now) && i < 32 && level == (i % 2 == 0)
    ensures WellFormed(l) && Taking(r, i + 1, now + 1000) && WellFormed(r)
    ensures Run(l, [Tick(now + 500)] + ([Edge(level, now + 600)] + ([Tick(now + 1000)] + rest))) == Run(r, rest)
  {
    TakingIsWellFormed(l, i, now);
    hide Taking, Step, Punctual, TickCount, Run, WellFormed;
    OneBitTaken(l, i, now, level);
    var l1 := Step(l, Tick(now + 500));
    var l2 := Step(l1, Edge(level, now + 600));
    r := Step(l2, Tick(now + 1000));
    Cons(l2, Tick(now + 1000), rest, now + 500);
    Cons(l1, Edge(level, now + 600), [Tick(now + 1000)] + rest, now + 500);
    Cons(l, Tick(now + 500), [Edge(level, now + 600)] + ([Tick(now + 1000)] + rest), now);
  }

  lemma {:induction false} FirstBit(now: nat, level: bool, n: nat)
    requires n > 0
    ensures ReplyBits(now, level, n) ==
            [Tick(now + 500)] + ([Edge(level, now + 600)] + ([Tick(now + 1000)] + ReplyBits(now + 1000, !level, n - 1)))
  {}

  lemma {:induction false} BitsTaken(l: Link, i: nat, now: nat, level: bool, n: nat, last: nat, end: nat)
    requires Taking(l, i, now) && level == (i % 2 == 0)
    requires i + n == last <= 32 && now + 1000 * n == end
    ensures Taking(Run(l, ReplyBits(now, level, n)), last, end)
    decreases n
  {
    TakingIsWellFormed(l, i, now);
    hide Taking, WellFormed, Run, ReplyBits;
    if n == 0 {
      NoBits(l, now, level);
    } else {
      var r := FirstBitRun(l, i, now, level, n);
      Alternates(i);
      BitsTaken(r, i + 1, now + 1000, !level, n - 1, last, end);
    }
  }

  lemma {:induction false} Alternates(i: nat)
    ensures (i + 1) % 2 == 0 <==> i % 2 != 0
  {}

  lemma {:induction false} NoBits(l: Link, now: nat, level: bool)
    requires WellFormed(l)
    ensures Run(l, ReplyBits(now, level, 0)) == l
  {}

  lemma {:induction false} FirstBitRun(l: Link, i: nat, now: nat, level: bool, n: nat) returns (r: Link)
    requires Taking(l, i, now) && i < 32 && level == (i % 2 == 0) && n > 0
    ensures WellFormed(l) && Taking(r, i + 1, now + 1000) && WellFormed(r)
    ensures Run(l, ReplyBits(now, level, n)) == Run(r, ReplyBits(now + 1000, !level, n - 1))
  {
    FirstBit(now, level, n);
    hide Taking, WellFormed, Run, ReplyBits;
    r := OneBitRun(l, i, now, level, ReplyBits(now + 1000, !level, n - 1));
  }

  /** A pulse of 500 microseconds, with the ticks around it. */
  function Pulse(now: nat): seq<Event> {
    [Edge(true, now + 100)] + ([Tick(now + 500)] + ([Edge(false, now + 600)] + ([Tick(now + 1000)] + [])))
  }

  lemma {:induction false} PulseTaken(l: Link, now: nat)
    requires WellFormed(l) && l.phase.WaitRx? && l.deadlineMs == UINT32 - 1 && !l.sem
    ensures Taking(Run(l, Pulse(now)), 0, now + 1000)
  {
    assert Collected(0) == Zeros(64);
    hide Zeros, Collected;
    var l1 := Step(l, Edge(true, now + 100));
    var l2 := Step(l1, Tick(now + 500));
    assert Since(now + 600, now + 100) == 500;
    var l3 := Step(l2, Edge(false, now + 600));
    var l4 := Step(l3, Tick(now + 1000));
    assert Taking(l4, 0, now + 1000);
    hide Taking, Step, Punctual, TickCount, Run;
    Nothing(l4, now + 1000);
    Cons(l3, Tick(now + 1000), [], now + 500);
    Cons(l2, Edge(false, now + 600), [Tick(now + 1000)] + [], now + 500);
    Cons(l1, Tick(now + 500), [Edge(false, now + 600)] + ([Tick(now + 1000)] + []), now);
    Cons(l, Edge(true, now + 100), [Tick(now + 500)] + ([Edge(false, now + 600)] + ([Tick(now + 1000)] + [])), now);
  }

  lemma {:induction false} PulseOnTime(now: nat)
    ensures Punctual(Pulse(now), now) && TickCount(Pulse(now)) == 2
  {
    var l := Idle();
    Nothing(l, now + 1000);
    hide Punctual, TickCount, Run, Step;
    Cons(l, Tick(now + 1000), [], now + 500);
    Cons(l, Edge(false, now + 600), [Tick(now + 1000)] + [], now + 500);
    Cons(l, Tick(now + 500), [Edge(false, now + 600)] + ([Tick(now + 1000)] + []), now);
    Cons(l, Edge(true, now + 100), [Tick(now + 500)] + ([Edge(false, now + 600)] + ([Tick(now + 1000)] + [])), now);
  }

  lemma {:induction false} ReplyOnTime(now: nat, level: bool, n: nat)
    ensures Punctual(ReplyBits(now, level, n), now) && TickCount(ReplyBits(now, level, n)) == 2 * n
    decreases n
  {
    var l := Idle();
    if n == 0 {
      Nothing(l, now);
    } else {
      var rest := ReplyBits(now + 1000, !level, n - 1);
      hide Punctual, TickCount, Run, Step;
      ReplyOnTime(now + 1000, !level, n - 1);
      Cons(l, Tick(now + 1000), rest, now + 500);
      Cons(l, Edge(level, now + 600), [Tick(now + 1000)] + rest, now + 500);
      Cons(l, Tick(now + 500), [Edge(level, now + 600)] + ([Tick(now + 1000)] + rest), now);
    }
  }

  lemma {:induction false} Nothing(l: Link, now: nat)
    requires WellFormed(l)
    ensures Run(l, []) == l && Punctual([], now) && TickCount([]) == 0
  {}

  /** The transmission, and the ticks of an open window with the clock's last value for a deadline. */
  lemma {:induction false} WindowOpens(l: Link, raw: Word, now: nat, sent: nat, m: nat)
    requires |l.rxFrame| == 64 && |raw| == 64 && !l.sem && DeadlineFrom(now) == UINT32 - 1 && sent == 2 * FRAME_BITS
    ensures var r := Run(Begin(l, raw), Ticks(now, sent + 1 + m));
            WellFormed(r) && r.phase.WaitRx? && r.deadlineMs == UINT32 - 1 && !r.sem
  {
    var b := Begin(l, raw);
    var first := Ticks(now, sent);
    var open := now + TICK_US * sent;
    TicksSplit(now, sent, 1 + m);
    TicksOnTime(now, sent);
    hide Deadline, Ticks, Punctual, TickCount, Run;
    TransmitsManchester(b, raw, 0, first);
    TransmitKeepsCounters(b, first);
    var s := Run(b, first);
    SendingTick(s, raw, sent, open + TICK_US);
    var w := TickStep(s, open + TICK_US);
    assert w.sem == s.sem;
    hide TickStep, Begin, Sending;
    RunSplit(b, first, Ticks(open, 1 + m));
    FirstTick(open, m);
    Cons(s, Tick(open + TICK_US), Ticks(open + TICK_US, m), open);
    TicksAreSilent(w, open + TICK_US, m);
  }

  lemma {:induction false} FirstTick(now: nat, m: nat)
    ensures Ticks(now, 1 + m) == [Tick(now + TICK_US)] + Ticks(now + TICK_US, m)
  {}

  lemma {:induction false} TicksSplit(now: nat, a: nat, b: nat)
    ensures Ticks(now, a + b) == Ticks(now, a) + Ticks(now + TICK_US * a, b)
    decreases a
  {
    if a > 0 {
      TicksSplit(now + TICK_US, a - 1, b);
      var t, x, y := [Tick(now + TICK_US)], Ticks(now + TICK_US, a - 1), Ticks(now + TICK_US * a, b);
      assert t + x + y == t + (x + y);
    } else {
      assert [] + Ticks(now, b) == Ticks(now, b);
    }
  }

  /** A reply that is so slow that its 33rd bit is missing after the full wait: with 1933 ticks before it and
      32 bits, 2000 ticks in all. */
  function SlowReply(now: nat, idle: nat, bits: nat): seq<Event> {
    Ticks(now, idle) + Reply(now + TICK_US * idle, bits)
  }

  function Reply(pulse: nat, bits: nat): seq<Event> {
    Pulse(pulse) + (ReplyBits(pulse + 1000, true, bits) + ([Tick(pulse + 1000 * bits + 1500)] + []))
  }

  lemma {:induction false} SlowReplyOnTime(now: nat, idle: nat, bits: nat)
    ensures Punctual(SlowReply(now, idle, bits), now)
    ensures TickCount(SlowReply(now, idle, bits)) == idle + 2 * bits + 3
  {
    var pulse := now + TICK_US * idle;
    var last := pulse + 1000 * bits + 1000;
    var b, c, d := Pulse(pulse), ReplyBits(pulse + 1000, true, bits), [Tick(last + 500)] + [];
    TicksOnTime(now, idle);
    PulseOnTime(pulse);
    ReplyOnTime(pulse + 1000, true, bits);
    Cons(Idle(), Tick(last + 500), [], last);
    Nothing(Idle(), last + 500);
    hide Punctual, TickCount, Ticks, ReplyBits, Pulse;
    PunctualConcat(c, d, pulse + 1000);
    PunctualConcat(b, c + d, pulse);
    PunctualConcat(Ticks(now, idle), b + (c + d), now);
  }

  function Idle(): (l: Link)
    ensures WellFormed(l)
  {
    Link(Phase.Idle, Zeros(64), 0, false, false, Zeros(64), 0, 0, 0, false, 0, 0, 0)
  }

  lemma {:induction false} ReplyTaken(l: Link, pulse: nat, bits: nat)
    requires WellFormed(l) && l.phase.WaitRx? && l.deadlineMs == UINT32 - 1 && !l.sem && bits <= 32
    ensures Taking(Run(l, Reply(pulse, bits)), bits, pulse + 1000 * bits + 1000)
  {
    hide Run, ReplyBits, Pulse, Taking;
    var last := pulse + 1000 * bits + 1000;
    var b, c, d := Pulse(pulse), ReplyBits(pulse + 1000, true, bits), [Tick(last + 500)] + [];
    PulseTaken(l, pulse);
    var m := Run(l, b);
    TakingIsWellFormed(m, 0, pulse + 1000);
    BitsTaken(m, 0, pulse + 1000, true, bits, bits, last);
    var n := Run(m, c);
    TakingIsWellFormed(n, bits, last);
    LastTick(n, bits, last);
    RunSplit(l, b, c + d);
    RunSplit(m, c, d);
  }

  /** Everything up to the expiry of the wait: the bits received, nothing given. */
  lemma {:induction false} SlowReplyTaken(l: Link, raw: Word, now: nat, idle: nat, bits: nat)
    requires |l.rxFrame| == 64 && |raw| == 64 && !l.sem && DeadlineFrom(now) == UINT32 - 1
    requires idle >= 69 && bits <= 32
    ensures Taking(Run(Begin(l, raw), SlowReply(now, idle, bits)), bits, now + TICK_US * idle + 1000 * bits + 1000)
  {
    hide Begin, Run, Ticks, Reply, Deadline, DeadlineFrom, Taking;
    WindowOpens(l, raw, now, 2 * FRAME_BITS, idle - 69);
    var pulse := now + TICK_US * idle;
    ReplyTaken(Run(Begin(l, raw), Ticks(now, idle)), pulse, bits);
    RunSplit(Begin(l, raw), Ticks(now, idle), Reply(pulse, bits));
  }

  lemma {:induction false} TakingIsWellFormed(l: Link, i: nat, now: nat)
    requires Taking(l, i, now)
    ensures WellFormed(l)
  {}

  lemma {:induction false} LastTick(l: Link, i: nat, now: nat)
    requires Taking(l, i, now)
    ensures Run(l, [Tick(now + 500)] + []) == l
  {
    Cons(l, Tick(now + 500), [], now);
    Nothing(l, now + 500);
    assert TickStep(l, now + 500) == l;
  }

  lemma {:induction false} PunctualConcat(a: seq<Event>, b: seq<Event>, now: nat)
    requires Punctual(a, now) && Punctual(b, now + TICK_US * TickCount(a))
    ensures Punctual(a + b, now) && TickCount(a + b) == TickCount(a) + TickCount(b)
    decreases |a|
  {
    if a == [] {
      assert a + b == b;
    } else {
      assert (a + b)[1..] == a[1..] + b;
      PunctualConcat(a[1..], b, if a[0].Tick? then a[0].at else now);
    }
  }

  /** The task is awake with nothing of its request sent, and the register holds all 33 bits of the reply to
      the request before. */
  predicate WokenEarly(s: System, next: Word) {
    && s.link.rxFrame == Collected(FRAME_BITS - 1)
    && (s.task, s.link.phase, s.link.txFrame, s.link.txIdx, s.link.rxIdx) == (Woken, Tx, next, 0, FRAME_BITS - 1)
  }

  /** What happens after the wait's last tick. */
  lemma {:induction false} LateBit(c: Clocked, next: Word, gap: nat) returns (run: seq<Action>)
    requires c.timing == CODED && c.sys.task.Blocked? && TickCount(c.seen) >= 2000 && |next| == 64
    requires c.now >= 500 && Taking(c.sys.link, 32, c.now - 500) && gap == 201
    ensures WellFormed(c.sys.link) && ClockedPossible(c, run) && WokenEarly(ClockedAfter(c, run).sys, next)
  {
    var expired := ClockedDo(c, WaitExpires);
    var bit := Edge(true, c.now + 100);
    LastBit(c.sys.link, c.now);
    var done := ClockedDo(expired, Isr(bit));
    var idle := ClockedDo(done, Abandon);
    var tail := NextTransaction(idle, next, gap);
    hide ClockedPossible, ClockedAfter, Step, Taking;
    ClockedCons(done, Abandon, tail);
    ClockedCons(expired, Isr(bit), [Abandon] + tail);
    ClockedCons(c, WaitExpires, [Isr(bit)] + ([Abandon] + tail));
    run := [WaitExpires] + ([Isr(bit)] + ([Abandon] + tail));
  }

  /** From an idle link that still holds a token, the next transaction's wait ends at once. */
  lemma {:induction false} NextTransaction(c: Clocked, next: Word, gap: nat) returns (run: seq<Action>)
    requires c.sys.task.Free? && WellFormed(c.sys.link) && c.sys.link.phase.Idle? && c.sys.link.sem && |next| == 64
    requires c.sys.link.rxIdx == FRAME_BITS - 1 && c.sys.link.rxFrame == Collected(FRAME_BITS - 1)
    requires c.now + TICK_US * gap >= c.ended + c.timing.gapUs
    ensures ClockedPossible(c, run) && WokenEarly(ClockedAfter(c, run).sys, next)
  {
    TicksOnTime(c.now, gap);
    TicksAreSilent(c.sys.link, c.now, gap);
    hide Run, Punctual, TickCount, ClockedPossible, ClockedAfter, Ticks;
    ClockedIsrs(c, Ticks(c.now, gap));
    var ticks := IsrAll(Ticks(c.now, gap));
    var later := ClockedAfter(c, ticks);
    ClockedOne(ClockedDo(later, Start(next)), Take);
    ClockedCons(later, Start(next), [Take]);
    ClockedConcat(c, ticks, [Start(next)] + [Take]);
    run := ticks + ([Start(next)] + [Take]);
  }

  lemma {:induction false} LastBit(l: Link, now: nat)
    requires WellFormed(l) && l.phase.Rx? && l.rxIdx == 32 && l.rxFrame == Collected(32) && l.rxLastEdge == now - 900
    ensures var r := Step(l, Edge(true, now + 100));
            r.phase.Done? && r.sem && r.rxIdx == FRAME_BITS - 1 && r.rxFrame == Collected(FRAME_BITS - 1)
  {
    CollectsNext(32, true);
    hide Or, Shl, OneBit, Zeros, Collected;
    assert Since(now + 100, l.rxLastEdge) == 1000;
  }

  /** The rest of a transaction after its start: the slow reply and what follows it. */
  lemma {:induction false} SlowTransaction(c: Clocked, es: seq<Event>, next: Word, gap: nat) returns (run: seq<Action>)
    requires WellFormed(c.sys.link) && c.sys.task.Blocked? && c.seen == [] && |next| == 64
    requires c.timing == CODED && gap == 201 && Punctual(es, c.now) && TickCount(es) >= 2000
    requires Taking(Run(c.sys.link, es), 32, c.now + TICK_US * TickCount(es) - 500)
    ensures ClockedPossible(c, run) && WokenEarly(ClockedAfter(c, run).sys, next)
  {
    hide Run, Punctual, TickCount, ClockedPossible, ClockedAfter, Step, Taking, WokenEarly;
    ClockedIsrs(c, es);
    assert c.seen + es == es;
    var late := LateBit(ClockedAfter(c, IsrAll(es)), next, gap);
    ClockedConcat(c, IsrAll(es), late);
    run := IsrAll(es) + late;
  }

  lemma {:induction false} StaleTokenRun(c: Clocked, raw: Word, next: Word, idle: nat, bits: nat, gap: nat)
    returns (run: seq<Action>)
    requires Consistent(c.sys) && c.sys.task.Free? && |raw| == 64 && |next| == 64
    requires c.timing == CODED && c.now >= c.ended + CODED.gapUs
    requires DeadlineFrom(c.now) == UINT32 - 1 && idle == 1933 && bits == 32 && gap == 201
    ensures ClockedPossible(c, run) && WokenEarly(ClockedAfter(c, run).sys, next)
  {
    hide Run, Punctual, TickCount, Ticks, SlowReply, Begin, ClockedPossible, ClockedAfter, DeadlineFrom, Taking;
    hide WokenEarly;
    SlowReplyTaken(c.sys.link, raw, c.now, idle, bits);
    SlowReplyOnTime(c.now, idle, bits);
    var rest := SlowTransaction(ClockedDo(c, Start(raw)), SlowReply(c.now, idle, bits), next, gap);
    ClockedCons(c, Start(raw), rest);
    run := [Start(raw)] + rest;
  }

  /** The one deadline is fatal: for every start time that gives it, there is a run with the delays as coded,
      every tick on time and every edge stamped as it comes, in which the wait of 1000 ms expires while the
      33rd bit is due, the bit then arrives before the task is back in the idle state, and the token it leaves
      wakes the next transaction, started 100 ms later, when nothing of its request has been sent. The task then
      takes the receive register, which holds the 33 bits of the old reply, for an answer. */
  lemma {:induction false} StaleTokenWakesNextTransaction(c: Clocked, raw: Word, next: Word) returns (run: seq<Action>)
    requires Consistent(c.sys) && c.sys.task.Free? && |raw| == 64 && |next| == 64
    requires c.timing == CODED && c.now >= c.ended + CODED.gapUs && DeadlineFrom(c.now) == UINT32 - 1
    ensures ClockedPossible(c, run) && WokenEarly(ClockedAfter(c, run).sys, next)
  {
    run := StaleTokenRun(c, raw, next, 1933, 32, 201);
  }
}
