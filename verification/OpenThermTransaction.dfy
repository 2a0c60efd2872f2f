/** The reply window, and the task that waits for the interrupt handlers. */
module OpenThermTransaction {
  import opened Common
  import opened Bits
  import opened OpenThermFrame
  import opened OpenThermLink

  // ---------------------------------------------------------------- the reply window

  /** The timer fires every 500 microseconds: tick j stands at start + 500 * j. */
  ghost predicate OnTime(es: seq<Event>, start: nat)
    decreases |es|
  {
    es == [] ||
    match es[0]
    case Tick(at) => at == start + TICK_US && OnTime(es[1..], at)
    case Edge(_, _) => OnTime(es[1..], start)
  }

  lemma {:induction false} OnTimeSplit(pre: seq<Event>, post: seq<Event>, start: nat)
    requires OnTime(pre + post, start)
    ensures OnTime(post, start + TICK_US * TickCount(pre))
    decreases |pre|
  {
    if pre == [] {
      assert pre + post == post;
    } else {
      assert (pre + post)[1..] == pre[1..] + post;
      OnTimeSplit(pre[1..], post, if pre[0].Tick? then start + TICK_US else start);
    }
  }

  /** 801 milliseconds after the window opened the clock has passed the deadline, unless the
      deadline is the largest uint32_t: no 32-bit clock ever exceeds that one. */
  lemma {:induction false} PastDeadline(open: nat)
    ensures NowMs(open + 801000) > Deadline(open) <==> Deadline(open) != UINT32 - 1
  {}

  /** With ticks on time, 1602 of them end every reply window whose deadline can be passed,
      whatever edges arrive in between. */
  lemma {:induction false} WindowCloses(l: Link, open: nat, es: seq<Event>)
    requires WellFormed(l) && Waiting(l.phase) && l.deadlineMs == Deadline(open)
    requires OnTime(es, open) && TickCount(es) >= 1602 && Deadline(open) != UINT32 - 1
    ensures Finished(Run(l, es).phase)
  {
    var pre, tick, post := SplitAtTick(es, 1601);
    assert es == pre + ([tick] + post);
    RunSplit(l, pre, [tick] + post);
    OnTimeSplit(pre, [tick] + post, open);
    assert tick.at == open + 801000;
    PastDeadline(open);
    WaitingOnlyCompletes(l, pre);
    var m := Run(l, pre);
    assert Finished(Step(m, tick).phase);
    FinishedIsAbsorbing(Step(m, tick), post);
    assert ([tick] + post)[1..] == post;
  }

  /** A window whose deadline is the largest uint32_t never times out. */
  lemma {:induction false} WindowNeverCloses(l: Link, es: seq<Event>)
    requires WellFormed(l) && Waiting(l.phase) && l.deadlineMs == UINT32 - 1
    ensures !Run(l, es).phase.Error?
    decreases |es|
  {
    if es != [] {
      var m := Step(l, es[0]);
      if Finished(m.phase) {
        FinishedIsAbsorbing(m, es[1..]);
      } else {
        WindowNeverCloses(m, es[1..]);
      }
    }
  }

  /** A silent line is reported as an error within 1602 ticks exactly when the deadline is not
      the largest uint32_t. */
  lemma {:induction false} SilenceIsReported(l: Link, open: nat, es: seq<Event>)
    requires WellFormed(l) && l.phase.WaitRx? && l.deadlineMs == Deadline(open)
    requires OnTime(es, open) && TickCount(es) >= 1602 && forall e :: e in es ==> e.Tick?
    ensures Run(l, es).phase.Error? <==> Deadline(open) != UINT32 - 1
  {
    if Deadline(open) == UINT32 - 1 {
      WindowNeverCloses(l, es);
    } else {
      WindowCloses(l, open, es);
      NoEdgesNoFrame(l, es);
    }
  }

  lemma {:induction false} NoEdgesNoFrame(l: Link, es: seq<Event>)
    requires WellFormed(l) && (l.phase.WaitRx? || l.phase.Error?) && forall e :: e in es ==> e.Tick?
    ensures var p := Run(l, es).phase; p.WaitRx? || p.Error?
    decreases |es|
  {
    if es != [] {
      assert es[0] in es;
      NoEdgesNoFrame(Step(l, es[0]), es[1..]);
    }
  }

  /** The full 800 milliseconds are granted exactly when the deadline does not wrap. */
  lemma {:induction false} FullWindowIffNoWrap(open: nat)
    ensures (forall t: nat :: open <= t && t / 1000 <= open / 1000 + 800 ==> NowMs(t) <= Deadline(open))
            <==> NowMs(open) + 800 < UINT32
  {}

  /** The first tick of the window already reports an error exactly when the deadline wraps and the clock
      has not itself wrapped by that tick, which it only does from the last half millisecond of its range. */
  lemma {:induction false} PrematureErrorIff(l: Link, open: nat)
    requires WellFormed(l) && l.phase.WaitRx? && l.deadlineMs == Deadline(open)
    ensures TickStep(l, open + TICK_US).phase.Error? <==>
            NowMs(open) >= UINT32 - 800 && !(NowMs(open) == UINT32 - 1 && open % 1000 >= 500)
  {
    var ms := open / 1000;
    assert (open + TICK_US) / 1000 == if open % 1000 >= 500 then ms + 1 else ms;
    assert (ms + 1) % UINT32 == if ms % UINT32 == UINT32 - 1 then 0 else ms % UINT32 + 1;
  }

  /** A whole transaction: with ticks on time it has completed by tick 1671, that is 835.5
      milliseconds after the tick before Begin, well inside the task's 1000 millisecond wait. */
  lemma {:induction false} CompletesBeforeTheWaitExpires(l: Link, raw: Word, start: nat, es: seq<Event>)
    requires |l.rxFrame| == 64 && |raw| == 64
    requires OnTime(es, start) && TickCount(es) >= 1671
    requires Deadline(start + 69 * TICK_US) != UINT32 - 1
    ensures Finished(Run(Begin(l, raw), es).phase)
  {
    var b := Begin(l, raw);
    var pre, tick, post := SplitAtTick(es, 68);
    assert es == pre + ([tick] + post);
    RunSplit(b, pre, [tick] + post);
    OnTimeSplit(pre, [tick] + post, start);
    assert ([tick] + post)[1..] == post;
    TransmitsManchester(b, raw, 0, pre);
    SendingTick(Run(b, pre), raw, 68, tick.at);
    TickCountConcat(pre, [tick] + post);
    WindowCloses(TickStep(Run(b, pre), tick.at), tick.at, post);
  }

  lemma {:induction false} TickCountConcat(es: seq<Event>, fs: seq<Event>)
    ensures TickCount(es + fs) == TickCount(es) + TickCount(fs)
    decreases |es|
  {
    if es == [] {
      assert es + fs == fs;
    } else {
      assert (es + fs)[1..] == es[1..] + fs;
      TickCountConcat(es[1..], fs);
    }
  }

  // ---------------------------------------------------------------- the gap between frames

  const MIN_GAP_MS := 100

  /** How long a transaction delays its start: signed 32-bit arithmetic on the millisecond clock. */
  function GapWait(nowMs: nat, lastMs: nat): int {
    Signed(MIN_GAP_MS - Signed(nowMs - lastMs))
  }

  /** The delay always keeps frames 100 ms apart, even when the clock has wrapped since the last
      transaction or the delay's own subtraction overflows; up to half of the clock's range (24.8 days) it
      waits for what is missing of the 100 ms and no longer; and it never waits longer than 100 ms exactly
      when the time since then, modulo the range, is at most 100 ms over that half. */
  lemma {:induction false} GapIsKept(last: nat, now: nat)
    requires last <= now
    ensures var wait := GapWait(now % UINT32, last % UINT32);
            && now + (if wait > 0 then wait else 0) - last >= MIN_GAP_MS
            && ((now - last) % UINT32 < UINT32 / 2 ==> wait == 100 - (now - last) % UINT32)
            && (wait <= MIN_GAP_MS <==> (now - last) % UINT32 <= UINT32 / 2 + MIN_GAP_MS)
  {
    var d := (now - last) % UINT32;
    assert (now % UINT32 - last % UINT32) % UINT32 == d;
    var s := Signed(now % UINT32 - last % UINT32);
    assert s == if d < UINT32 / 2 then d else d - UINT32;
    assert d <= now - last;
    SignedOf(MIN_GAP_MS - s);
    hide Signed;
  }

  lemma {:induction false} SignedOf(x: int)
    requires -UINT32 / 2 <= x < UINT32
    ensures Signed(x) == if x < UINT32 / 2 then x else x - UINT32
  {}

  // ---------------------------------------------------------------- the waiting task

  /** Where the task stands: not in a transaction, blocked on the semaphore, woken by it, or past
      an expired wait but not yet back in the idle state. */
  datatype Task = Free | Blocked | Woken | GaveUp

  datatype System = System(link: Link, task: Task)

  datatype Action =
    | Start(raw: Word)
    | Isr(e: Event)
    | Take
    | WaitExpires
    | Finish
    | Abandon

  predicate Enabled(s: System, a: Action) {
    match a
    case Start(raw) => s.task.Free? && s.link.phase.Idle? && |raw| == 64
    case Isr(_) => true
    case Take => s.task.Blocked? && s.link.sem
    case WaitExpires => s.task.Blocked? && !s.link.sem
    case Finish => s.task.Woken?
    case Abandon => s.task.GaveUp?
  }

  function Do(s: System, a: Action): (r: System)
    requires WellFormed(s.link) && Enabled(s, a)
    ensures WellFormed(r.link)
  {
    match a
    case Start(raw) => System(Begin(s.link, raw), Blocked)
    case Isr(e) => s.(link := Step(s.link, e))
    case Take => System(s.link.(sem := false), Woken)
    case WaitExpires => s.(task := GaveUp)
    case Finish => System(s.link.(phase := Idle), Free)
    case Abandon => System(s.link.(phase := Idle), Free)
  }

  ghost predicate Possible(s: System, run: seq<Action>)
    requires WellFormed(s.link)
    decreases |run|
  {
    run == [] || (Enabled(s, run[0]) && Possible(Do(s, run[0]), run[1..]))
  }

  ghost function After(s: System, run: seq<Action>): (r: System)
    requires WellFormed(s.link) && Possible(s, run)
    ensures WellFormed(r.link)
    decreases |run|
  {
    if run == [] then s else After(Do(s, run[0]), run[1..])
  }

  /** The semaphore's token and the link's phase agree with where the task stands. */
  ghost predicate Consistent(s: System) {
    && WellFormed(s.link)
    && match s.task
       case Free => s.link.phase.Idle? && !s.link.sem
       case Blocked | GaveUp => !s.link.phase.Idle? && (s.link.sem <==> Finished(s.link.phase))
       case Woken => Finished(s.link.phase) && !s.link.sem
  }

  /** Every step keeps the agreement, except giving up on a link that has just completed; and that
      step always breaks it. */
  lemma {:induction false} StepKeepsConsistent(s: System, a: Action)
    requires Consistent(s) && Enabled(s, a)
    ensures Consistent(Do(s, a)) <==> !(a.Abandon? && Finished(s.link.phase))
  {}

  /** The run gives up on a link that has already completed. */
  ghost predicate AbandonsCompleted(s: System, run: seq<Action>)
    requires WellFormed(s.link) && Possible(s, run)
    decreases |run|
  {
    run != [] &&
    ((run[0].Abandon? && Finished(s.link.phase)) || AbandonsCompleted(Do(s, run[0]), run[1..]))
  }

  lemma {:induction false} RunsStayConsistent(s: System, run: seq<Action>)
    requires Consistent(s) && Possible(s, run) && !AbandonsCompleted(s, run)
    ensures Consistent(After(s, run))
    decreases |run|
  {
    if run != [] {
      StepKeepsConsistent(s, run[0]);
      RunsStayConsistent(Do(s, run[0]), run[1..]);
    }
  }

  /** In such runs the task reads a frame only after the receiver has completed one. */
  lemma {:induction false} ReadsOnlyCompletedFrames(s: System, run: seq<Action>)
    requires Consistent(s) && Possible(s, run) && !AbandonsCompleted(s, run)
    ensures var r := After(s, run); Enabled(r, Finish) && !r.link.phase.Error? ==> r.link.phase.Done?
  {
    RunsStayConsistent(s, run);
  }
}
