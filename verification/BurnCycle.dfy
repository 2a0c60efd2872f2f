/** Burner cycle statistics: rounded burn and pause times from the edges of the flame signal, on a
    32-bit millisecond clock with 32-bit counters. */
module BurnCycle {
  import opened Common

  const INTER_SESSION_THRESHOLD_SEC := 600

  datatype Counters = Counters(
    burner: nat, totalPause: nat, cycles: nat,
    interPause: nat, interCount: nat, modulationPause: nat, modulationCount: nat)

  /** A timestamp of 0 stands for "no such edge yet". */
  datatype Burn = Burn(c: Counters, prevFlame: bool, onMs: nat, offMs: nat)

  function Add(a: nat, b: nat): nat {
    (a + b) % UINT32
  }

  /** The whole seconds from one timestamp to the next, rounded, all in 32 bits. */
  function Seconds(fromMs: nat, toMs: nat): (s: nat)
  {
    ((toMs - fromMs + 500) % UINT32) / 1000
  }

  function Paused(c: Counters, pause: nat): Counters {
    var t := c.(totalPause := Add(c.totalPause, pause));
    if pause > INTER_SESSION_THRESHOLD_SEC then
      t.(interPause := Add(t.interPause, pause), interCount := Add(t.interCount, 1))
    else
      t.(modulationPause := Add(t.modulationPause, pause), modulationCount := Add(t.modulationCount, 1))
  }

  function Burnt(c: Counters, burn: nat): Counters {
    c.(burner := Add(c.burner, burn), cycles := Add(c.cycles, 1))
  }

  /** One poll: nowMs is the 32-bit clock. */
  function Poll(s: Burn, nowMs: nat, flame: bool): Burn {
    if flame == s.prevFlame then s
    else if flame then
      Burn(if s.offMs > 0 then Paused(s.c, Seconds(s.offMs, nowMs)) else s.c, true, nowMs, s.offMs)
    else
      Burn(if s.onMs > 0 then Burnt(s.c, Seconds(s.onMs, nowMs)) else s.c, false, s.onMs, nowMs)
  }

  const ZERO := Counters(0, 0, 0, 0, 0, 0, 0)

  function Initial(): Burn {
    Burn(ZERO, false, 0, 0)
  }

  // ---------------------------------------------------------------- one interval

  /** An interval of d milliseconds is measured to within half a second exactly when it is shorter
      than the clock's range by more than that rounding; a longer one loses the whole range. */
  lemma {:induction false} MeasuredIff(from: nat, to: nat)
    requires from <= to
    ensures -500 <= 1000 * Seconds(from % UINT32, to % UINT32) - (to - from) <= 500
            <==> to - from <= UINT32 - 501
  {
    DifferenceWraps(from, to);
    var x := (to - from + 500) % UINT32;
    var m := x / 1000;
    assert 1000 * m <= x < 1000 * m + 1000;
  }

  lemma {:induction false} DifferenceWraps(from: nat, to: nat)
    requires from <= to
    ensures (to % UINT32 - from % UINT32 + 500) % UINT32 == (to - from + 500) % UINT32
  {}

  /** A pause between measurable edges counts as one between sessions exactly when it lasts at least
      600.5 seconds, and as a modulation pause otherwise; either way it is counted in full. */
  lemma {:induction false} PauseClassifiedIff(s: Burn, off: nat, on: nat)
    requires off <= on <= off + UINT32 - 501 && off % UINT32 != 0
    requires !s.prevFlame && s.offMs == off % UINT32
    ensures var c := Poll(s, on % UINT32, true).c;
            var seconds := (on - off + 500) / 1000;
            if on - off >= 600500 then
              c == s.c.(totalPause := Add(s.c.totalPause, seconds), interPause := Add(s.c.interPause, seconds),
                        interCount := Add(s.c.interCount, 1))
            else
              c == s.c.(totalPause := Add(s.c.totalPause, seconds),
                        modulationPause := Add(s.c.modulationPause, seconds),
                        modulationCount := Add(s.c.modulationCount, 1))
  {
    SecondsOf(off, on);
    hide Add, Seconds;
    assert (on - off + 500) / 1000 > INTER_SESSION_THRESHOLD_SEC <==> on - off >= 600500;
  }

  lemma {:induction false} SecondsOf(off: nat, on: nat)
    requires off <= on <= off + UINT32 - 501
    ensures Seconds(off % UINT32, on % UINT32) == (on - off + 500) / 1000
  {
    DifferenceWraps(off, on);
  }

  // ---------------------------------------------------------------- whole runs

  /** What happens to the service: a poll at a true time (milliseconds since start, never wrapping),
      or a reset of the statistics. */
  datatype Event = At(time: nat, flame: bool) | Reset

  function After(s: Burn, e: Event): Burn {
    match e
    case At(t, flame) => Poll(s, t % UINT32, flame)
    case Reset => s.(c := ZERO)
  }

  function Run(s: Burn, events: seq<Event>): Burn
    decreases |events|
  {
    if events == [] then s else Run(After(s, events[0]), events[1..])
  }

  predicate PausesAddUp(c: Counters) {
    c.totalPause == Add(c.interPause, c.modulationPause) && c.totalPause < UINT32
  }

  lemma {:induction false} AddRegroups(a: nat, b: nat, x: nat)
    ensures Add(Add(a, b), x) == Add(Add(a, x), b) == Add(a, Add(b, x))
  {
    WrapThenAdd(a + b, x);
    WrapThenAdd(a + x, b);
    WrapThenAdd(b + x, a);
  }

  lemma {:induction false} WrapThenAdd(a: nat, b: nat)
    ensures (a % UINT32 + b) % UINT32 == (a + b) % UINT32
  {}

  /** In every run the total pause is the inter-session part plus the modulation part, even after the
      counters have wrapped. */
  lemma {:induction false} EveryRunPausesAddUp(s: Burn, events: seq<Event>)
    requires PausesAddUp(s.c)
    ensures PausesAddUp(Run(s, events).c)
    decreases |events|
  {
    if events != [] {
      if events[0].At? && s.offMs > 0 {
        var p := Seconds(s.offMs, events[0].time % UINT32);
        AddRegroups(s.c.interPause, s.c.modulationPause, p);
        hide Seconds, Add;
      }
      EveryRunPausesAddUp(After(s, events[0]), events[1..]);
    }
  }

  /** The true times at which a sequence of polls sees the flame change, from a given flame state. */
  function Edges(flame: bool, events: seq<Event>): seq<nat>
    decreases |events|
  {
    if events == [] then []
    else if events[0].At? && events[0].flame != flame then [events[0].time] + Edges(!flame, events[1..])
    else Edges(flame, events[1..])
  }

  predicate Rising(times: seq<nat>) {
    forall i :: 0 <= i < |times| - 1 ==> times[i] <= times[i + 1]
  }

  /** Consecutive edges are close enough to measure, and no edge falls on a zero of the 32-bit clock. */
  predicate Measurable(times: seq<nat>) {
    && Rising(times)
    && (forall i :: 0 <= i < |times| - 1 ==> times[i + 1] - times[i] <= UINT32 - 501)
    && (forall i :: 0 <= i < |times| ==> times[i] % UINT32 != 0)
  }

  /** The time from the first to the last edge. */
  function Elapsed(times: seq<nat>): int
    requires times != []
  {
    var last: int := times[|times| - 1];
    last - times[0]
  }

  /** The state between edges: the last edge was at `last`, n intervals have been measured since the
      ignition at `first`, burns and pauses in turn, and the measured seconds are within half a second
      per interval of the time between. */
  ghost predicate Balanced(s: Burn, first: nat, last: nat, n: nat) {
    && first <= last && last % UINT32 != 0
    && (if s.prevFlame then s.onMs else s.offMs) == last % UINT32
    && -500 * n <= 1000 * (s.c.burner + s.c.totalPause) - (last - first) <= 500 * n
    && (s.prevFlame <==> n % 2 == 0)
    && s.c.cycles == (n + 1) / 2 && s.c.interCount + s.c.modulationCount == n / 2
  }

  lemma {:induction false} EdgeKeepsBalance(s: Burn, first: nat, last: nat, n: nat, now: nat)
    requires Balanced(s, first, last, n) && last <= now && now - last <= UINT32 - 501 && now % UINT32 != 0
    requires now - first + 500 * (n + 2) < 1000 * UINT32
    ensures Balanced(Poll(s, now % UINT32, !s.prevFlame), first, now, n + 1)
  {
    MeasuredIff(last, now);
    var from, to := last % UINT32, now % UINT32;
    var d := Seconds(from, to);
    AddSmall(s.c.burner, d);
    AddSmall(s.c.totalPause, d);
    AddSmall(s.c.cycles, 1);
    AddSmall(s.c.interCount, 1);
    AddSmall(s.c.modulationCount, 1);
    assert now % UINT32 == to != 0 && from != 0;
    hide Seconds, Add;
  }

  lemma {:induction false} AddSmall(a: nat, b: nat)
    ensures a + b < UINT32 ==> Add(a, b) == a + b
  {}

  lemma {:induction false} BalancedOrder(s: Burn, first: nat, last: nat, n: nat)
    requires Balanced(s, first, last, n)
    ensures first <= last
  {}

  /** The last edge, and those that the events still bring. */
  function From(last: nat, flame: bool, events: seq<Event>): (times: seq<nat>)
    ensures times != [] && times[0] == last
  {
    [last] + Edges(flame, events)
  }

  lemma {:induction false} NextEvent(last: nat, flame: bool, events: seq<Event>)
    requires events != [] && events[0].At?
    ensures var e := events[0];
            From(last, flame, events) ==
            if e.flame != flame then [last] + From(e.time, e.flame, events[1..]) else From(last, flame, events[1..])
  {}

  lemma {:induction false} NextState(s: Burn, e: Event)
    requires e.At?
    ensures var r := After(s, e); r.prevFlame == e.flame && (e.flame == s.prevFlame ==> r == s)
    ensures After(s, e) == Poll(s, e.time % UINT32, e.flame)
  {}

  lemma {:induction false} NextEdge(last: nat, rest: seq<nat>)
    requires rest != [] && Measurable([last] + rest)
    ensures Measurable(rest) && last <= rest[0] <= last + UINT32 - 501 && rest[0] % UINT32 != 0
    ensures rest[0] <= rest[|rest| - 1] == ([last] + rest)[|rest|]
  {
    var times := [last] + rest;
    assert times[0] == last && times[1] == rest[0];
    assert forall i :: 0 <= i < |rest| ==> rest[i] == times[i + 1];
    RisingEnds(rest);
  }

  /** The counters are not reset. */
  predicate EdgesOnly(events: seq<Event>) {
    forall e :: e in events ==> e.At?
  }

  lemma {:induction false} EdgesOnlyTail(events: seq<Event>)
    requires EdgesOnly(events) && events != []
    ensures events[0].At? && EdgesOnly(events[1..])
  {}

  /** How far the recorded times reach is small enough for the counters. */
  predicate Countable(first: nat, n: nat, times: seq<nat>)
    requires times != []
  {
    times[|times| - 1] - first + 500 * (n + |times|) < 1000 * UINT32
  }

  lemma {:induction false} EdgeTaken(s: Burn, first: nat, last: nat, n: nat, e: Event, rest: seq<nat>)
    requires Balanced(s, first, last, n) && e.At? && e.flame != s.prevFlame
    requires rest != [] && rest[0] == e.time && Measurable([last] + rest) && Countable(first, n, [last] + rest)
    ensures var r := After(s, e);
            && r.prevFlame == e.flame && Balanced(r, first, e.time, n + 1)
            && Measurable(rest) && Countable(first, n + 1, rest)
    ensures ([last] + rest)[|rest|] == rest[|rest| - 1]
  {
    hide Balanced, Measurable, Poll;
    NextState(s, e);
    BalancedOrder(s, first, last, n);
    NextEdge(last, rest);
    EdgeKeepsBalance(s, first, last, n, e.time);
  }

  lemma {:induction false} RunBalanced(s: Burn, events: seq<Event>, first: nat, last: nat, n: nat)
    requires Balanced(s, first, last, n) && EdgesOnly(events)
    requires var times := From(last, s.prevFlame, events); Measurable(times) && Countable(first, n, times)
    ensures var times := From(last, s.prevFlame, events);
            Balanced(Run(s, events), first, times[|times| - 1], n + |times| - 1)
    decreases |events|
  {
    hide Balanced, Measurable, Poll, EdgesOnly, Countable;
    if events == [] {
      assert From(last, s.prevFlame, events) == [last];
    } else {
      var e := events[0];
      EdgesOnlyTail(events);
      NextState(s, e);
      NextEvent(last, s.prevFlame, events);
      hide After, From, Edges;
      if e.flame != s.prevFlame {
        EdgeTaken(s, first, last, n, e, From(e.time, e.flame, events[1..]));
        RunBalanced(After(s, e), events[1..], first, e.time, n + 1);
      } else {
        RunBalanced(s, events[1..], first, last, n);
      }
    }
  }

  lemma {:induction false} RisingEnds(times: seq<nat>)
    requires times != [] && Rising(times)
    ensures times[0] <= times[|times| - 1]
  {
    if |times| > 1 {
      RisingEnds(times[..|times| - 1]);
    }
  }

  /** Main result: over any run of polls from start-up whose flame edges are measurable, in less than
      136 years, the burn and pause seconds together equal the time from the first to the last edge up to
      half a second per interval, and every burn and every pause is counted once. */
  lemma {:induction false} TimeIsConserved(events: seq<Event>)
    requires EdgesOnly(events)
    requires var times := Edges(false, events);
             && times != [] && Measurable(times)
             && Elapsed(times) + 500 * |times| < 1000 * UINT32
    ensures var times := Edges(false, events);
            var c := Run(Initial(), events).c;
            && -500 * (|times| - 1) <= 1000 * (c.burner + c.totalPause) - Elapsed(times) <= 500 * (|times| - 1)
            && c.cycles == |times| / 2 && c.interCount + c.modulationCount == (|times| - 1) / 2
  {
    FromFirstEdge(Initial(), events);
  }

  lemma {:induction false} FirstEdge(time: nat)
    requires time % UINT32 != 0
    ensures Balanced(Poll(Initial(), time % UINT32, true), time, time, 0)
    ensures Poll(Initial(), time % UINT32, true).prevFlame
  {}

  lemma {:induction false} FromFirstEdge(s: Burn, events: seq<Event>)
    requires s == Initial()
    requires EdgesOnly(events)
    requires var times := Edges(false, events);
             && times != [] && Measurable(times)
             && Elapsed(times) + 500 * |times| < 1000 * UINT32
    ensures var times := Edges(false, events);
            Balanced(Run(s, events), times[0], times[|times| - 1], |times| - 1)
    decreases |events|
  {
    var e := events[0];
    if e.flame {
      FirstEdge(e.time);
      assert Edges(false, events) == From(e.time, true, events[1..]);
      hide Balanced, Poll, Measurable;
      RunBalanced(After(s, e), events[1..], e.time, e.time, 0);
    } else {
      FromFirstEdge(s, events[1..]);
    }
  }

  predicate Fits(c: Counters) {
    c.cycles < UINT32 && c.interCount < UINT32 && c.modulationCount < UINT32
  }

  /** The interval that follows an edge is dropped, whatever its length, exactly when the edge fell on a zero
      of the 32-bit clock, which is taken for no edge; every other interval is counted. */
  lemma {:induction false} DroppedIffZeroTimestamp(s: Burn, edge: nat, later: nat)
    requires Fits(s.c)
    ensures var t := Poll(s, edge % UINT32, !s.prevFlame);
            Poll(t, later % UINT32, s.prevFlame).c == t.c <==> edge % UINT32 == 0
  {
    hide Seconds;
  }

  // ---------------------------------------------------------------- the service

  class BurnCycleService {
    var burnerSec: nat
    var totalPauseSec: nat
    var cycleCount: nat
    var interSessionPauseSec: nat
    var interSessionCount: nat
    var modulationPauseSec: nat
    var modulationCount: nat
    var prevFlame: bool
    var flameOnMs: nat
    var flameOffMs: nat

    ghost function View(): Burn
      reads this
    {
      Burn(Counters(burnerSec, totalPauseSec, cycleCount, interSessionPauseSec, interSessionCount,
                    modulationPauseSec, modulationCount),
           prevFlame, flameOnMs, flameOffMs)
    }

    constructor ()
      ensures View() == Initial()
    {
      burnerSec, totalPauseSec, cycleCount, interSessionPauseSec, interSessionCount := 0, 0, 0, 0, 0;
      modulationPauseSec, modulationCount, prevFlame, flameOnMs, flameOffMs := 0, 0, false, 0, 0;
    }

    method Execute(nowMs: nat, flame: bool)
      modifies this
      ensures View() == Poll(old(View()), nowMs, flame)
    {
      if flame != prevFlame {
        if flame {
          flameOnMs := nowMs;
          if flameOffMs > 0 {
            var pause := ((nowMs - flameOffMs + 500) % UINT32) / 1000;
            totalPauseSec := Add(totalPauseSec, pause);
            if pause > INTER_SESSION_THRESHOLD_SEC {
              interSessionPauseSec := Add(interSessionPauseSec, pause);
              interSessionCount := Add(interSessionCount, 1);
            } else {
              modulationPauseSec := Add(modulationPauseSec, pause);
              modulationCount := Add(modulationCount, 1);
            }
          }
        } else {
          flameOffMs := nowMs;
          if flameOnMs > 0 {
            var burn := ((nowMs - flameOnMs + 500) % UINT32) / 1000;
            burnerSec := Add(burnerSec, burn);
            cycleCount := Add(cycleCount, 1);
          }
        }
        prevFlame := flame;
      }
    }

    method ResetCounters()
      modifies this
      ensures View() == old(View()).(c := ZERO)
    {
      burnerSec, totalPauseSec, cycleCount, interSessionPauseSec, interSessionCount := 0, 0, 0, 0, 0;
      modulationPauseSec, modulationCount := 0, 0;
    }
  }
}
