/** The OpenTherm link layer: a Manchester transmitter driven by a 500 microsecond timer
    and a receiver driven by edges of the RX pin. Timer ticks and edges are atomic steps
    on the shared state. Times are microseconds since boot. */
module OpenThermLink {
  import opened Common
  import opened Bits
  import opened OpenThermFrame

  datatype Phase = Idle | Tx | WaitRx | RxStart | Rx | Done | Error

  /** The link's shared variables. `bus` is the level the transmitter drives (true is active);
      `sem` is the binary completion semaphore; the last three fields are the debug counters. */
  datatype Link = Link(
    phase: Phase,
    txFrame: Word, txIdx: nat, txSecondHalf: bool, bus: bool,
    rxFrame: Word, rxIdx: nat, rxLastEdge: int, deadlineMs: nat,
    sem: bool, txDone: nat, rxDone: nat, timeouts: nat)

  datatype Event = Tick(at: nat) | Edge(level: bool, at: nat)

  const RESPONSE_TIMEOUT_MS := 800
  const HALF_BIT_LIMIT_US := 750
  const TICK_US := 500
  const UINT64 := 0x1_0000_0000_0000_0000

  /** The millisecond clock: microseconds divided by 1000 and cut to uint32_t. */
  function NowMs(us: nat): nat {
    us / 1000 % UINT32
  }

  function Deadline(us: nat): nat {
    (NowMs(us) + RESPONSE_TIMEOUT_MS) % UINT32
  }

  predicate Waiting(p: Phase) {
    p.WaitRx? || p.RxStart? || p.Rx?
  }

  predicate Finished(p: Phase) {
    p.Done? || p.Error?
  }

  predicate WellFormed(l: Link) {
    |l.txFrame| == 64 && |l.rxFrame| == 64 && l.txIdx <= FRAME_BITS
  }

  function TickStep(l: Link, now: nat): (r: Link)
    requires WellFormed(l)
    ensures WellFormed(r)
  {
    match l.phase
    case Tx =>
      if l.txIdx >= FRAME_BITS then
        l.(bus := false, txDone := l.txDone + 1, phase := WaitRx, deadlineMs := Deadline(now))
      else
        var bit := Shr(l.txFrame, FRAME_BITS - 1 - l.txIdx)[0];
        if !l.txSecondHalf then l.(bus := bit, txSecondHalf := true)
        else l.(bus := !bit, txSecondHalf := false, txIdx := l.txIdx + 1)
    case WaitRx | RxStart | Rx =>
      if NowMs(now) > l.deadlineMs
      then l.(timeouts := l.timeouts + 1, phase := Error, sem := true)
      else l
    case _ => l
  }

  function Since(now: nat, last: int): nat {
    (now - last) % UINT64
  }

  function EdgeStep(l: Link, level: bool, now: nat): (r: Link)
    requires WellFormed(l)
    ensures WellFormed(r)
  {
    match l.phase
    case WaitRx =>
      if level then l.(phase := RxStart, rxLastEdge := now) else l
    case RxStart =>
      if Since(now, l.rxLastEdge) < HALF_BIT_LIMIT_US && !level
      then l.(phase := Rx, rxIdx := 0, rxFrame := Zeros(64), rxLastEdge := now)
      else l.(phase := WaitRx)
    case Rx =>
      if Since(now, l.rxLastEdge) > HALF_BIT_LIMIT_US then
        var bit := if level then Zeros(64) else OneBit(0, 64);
        var got := l.(rxFrame := Or(Shl(l.rxFrame, 1), bit), rxLastEdge := now, rxIdx := l.rxIdx + 1);
        if got.rxIdx >= FRAME_BITS - 1
        then got.(rxDone := l.rxDone + 1, phase := Done, sem := true)
        else got
      else l
    case _ => l
  }

  function Step(l: Link, e: Event): (r: Link)
    requires WellFormed(l)
    ensures WellFormed(r)
  {
    match e
    case Tick(at) => TickStep(l, at)
    case Edge(level, at) => EdgeStep(l, level, at)
  }

  function Run(l: Link, es: seq<Event>): (r: Link)
    requires WellFormed(l)
    ensures WellFormed(r)
    decreases |es|
  {
    if es == [] then l else Run(Step(l, es[0]), es[1..])
  }

  /** Entering transmission, as the transaction does it. */
  function Begin(l: Link, raw: Word): (r: Link)
    requires |l.rxFrame| == 64 && |raw| == 64
    ensures WellFormed(r)
  {
    l.(txFrame := raw, txIdx := 0, txSecondHalf := false, phase := Tx)
  }

  /** The interrupt handlers on the real variables. */
  class OpenThermIsr {
    var phase: Phase
    var txFrame: Word
    var txIdx: nat
    var txSecondHalf: bool
    var bus: bool
    var rxFrame: Word
    var rxIdx: nat
    var rxLastEdge: int
    var deadlineMs: nat
    var sem: bool
    var txDone: nat
    var rxDone: nat
    var timeouts: nat

    ghost function View(): Link
      reads this
    {
      Link(phase, txFrame, txIdx, txSecondHalf, bus, rxFrame, rxIdx, rxLastEdge, deadlineMs,
           sem, txDone, rxDone, timeouts)
    }

    constructor ()
      ensures View() == Link(Idle, Zeros(64), 0, false, false, Zeros(64), 0, 0, 0, false, 0, 0, 0)
    {
      phase, txFrame, txIdx, txSecondHalf, bus := Idle, Zeros(64), 0, false, false;
      rxFrame, rxIdx, rxLastEdge, deadlineMs, sem := Zeros(64), 0, 0, 0, false;
      txDone, rxDone, timeouts := 0, 0, 0;
    }

    method StartTransmission(raw: Word)
      requires |raw| == 64 && |rxFrame| == 64
      modifies this
      ensures View() == Begin(old(View()), raw)
    {
      txFrame := raw;
      txIdx := 0;
      txSecondHalf := false;
      phase := Tx;
    }

    method TimerCallback(now: nat)
      requires WellFormed(View())
      modifies this
      ensures View() == TickStep(old(View()), now)
    {
      match phase
      case Tx =>
        if txIdx >= FRAME_BITS {
          bus := false;
          txDone := txDone + 1;
          phase := WaitRx;
          deadlineMs := (now / 1000 % UINT32 + RESPONSE_TIMEOUT_MS) % UINT32;
          return;
        }
        var bit := Shr(txFrame, FRAME_BITS - 1 - txIdx)[0];
        if !txSecondHalf {
          bus := bit;
          txSecondHalf := true;
        } else {
          bus := !bit;
          txSecondHalf := false;
          txIdx := txIdx + 1;
        }
      case WaitRx | RxStart | Rx =>
        var nowMs := now / 1000 % UINT32;
        if nowMs > deadlineMs {
          timeouts := timeouts + 1;
          phase := Error;
          sem := true;
        }
      case _ =>
    }

    method RxIsr(level: bool, now: nat)
      requires WellFormed(View())
      modifies this
      ensures View() == EdgeStep(old(View()), level, now)
    {
      hide Or, OneBit, Zeros;
      if phase == WaitRx {
        if level {
          phase := RxStart;
          rxLastEdge := now;
        }
      } else if phase == RxStart {
        var dt := (now - rxLastEdge) % UINT64;
        if dt < HALF_BIT_LIMIT_US && !level {
          phase := Rx;
          rxIdx := 0;
          rxFrame := Zeros(64);
          rxLastEdge := now;
        } else {
          phase := WaitRx;
        }
      } else if phase == Rx {
        var dt := (now - rxLastEdge) % UINT64;
        if dt > HALF_BIT_LIMIT_US {
          rxFrame := Or(Shl(rxFrame, 1), if level then Zeros(64) else OneBit(0, 64));
          rxLastEdge := now;
          rxIdx := rxIdx + 1;
          if rxIdx >= FRAME_BITS - 1 {
            rxDone := rxDone + 1;
            phase := Done;
            sem := true;
          }
        }
      }
    }
  }

  // ---------------------------------------------------------------- transmission

  /** The level of half-bit k of a frame: a one is active then idle, a zero idle then active. */
  predicate HalfLevel(raw: Word, k: nat)
    requires |raw| == 64 && k < 2 * FRAME_BITS
  {
    if k % 2 == 0 then raw[FRAME_BITS - 1 - k / 2] else !raw[FRAME_BITS - 1 - k / 2]
  }

  function TickCount(es: seq<Event>): nat {
    if es == [] then 0 else (if es[0].Tick? then 1 else 0) + TickCount(es[1..])
  }

  /** The transmitter after k ticks since Begin, whatever edges came in between. */
  ghost predicate Sending(l: Link, raw: Word, k: nat)
    requires |raw| == 64
  {
    && WellFormed(l) && l.phase.Tx? && l.txFrame == raw && k <= 2 * FRAME_BITS
    && l.txIdx == k / 2 && (l.txSecondHalf <==> k % 2 == 1)
    && (k > 0 ==> l.bus == HalfLevel(raw, k - 1))
  }

  lemma {:induction false} SendingTick(l: Link, raw: Word, k: nat, now: nat)
    requires |raw| == 64 && Sending(l, raw, k)
    ensures k < 2 * FRAME_BITS ==> Sending(TickStep(l, now), raw, k + 1)
    ensures k == 2 * FRAME_BITS ==>
              var r := TickStep(l, now); r.phase.WaitRx? && !r.bus && r.deadlineMs == Deadline(now)
  {}

  /** Tick k of a transmission drives half-bit k of the Manchester code; edges on RX do nothing. */
  lemma {:induction false} TransmitsManchester(l: Link, raw: Word, k: nat, es: seq<Event>)
    requires |raw| == 64 && Sending(l, raw, k)
    requires k + TickCount(es) <= 2 * FRAME_BITS
    ensures Sending(Run(l, es), raw, k + TickCount(es))
    decreases |es|
  {
    if es != [] {
      match es[0]
      case Tick(at) =>
        SendingTick(l, raw, k, at);
        TransmitsManchester(TickStep(l, at), raw, k + 1, es[1..]);
      case Edge(_, _) =>
        TransmitsManchester(l, raw, k, es[1..]);
    }
  }

  // ---------------------------------------------------------------- one completion

  lemma {:induction false} FinishedIsAbsorbing(l: Link, es: seq<Event>)
    requires WellFormed(l) && Finished(l.phase)
    ensures Run(l, es) == l
  {
    if es != [] {
      FinishedIsAbsorbing(Step(l, es[0]), es[1..]);
    }
  }

  lemma {:induction false} WaitingStep(l: Link, e: Event)
    requires WellFormed(l) && Waiting(l.phase)
    ensures var r := Step(l, e);
            && (Waiting(r.phase) || Finished(r.phase))
            && r.txDone == l.txDone && r.deadlineMs == l.deadlineMs
            && r.rxDone == l.rxDone + (if r.phase.Done? then 1 else 0)
            && r.timeouts == l.timeouts + (if r.phase.Error? then 1 else 0)
            && (r.sem <==> l.sem || Finished(r.phase))
  {
    hide Or, Shl, OneBit, Zeros, Since, NowMs;
  }

  lemma {:induction false} WaitingOnlyCompletes(l: Link, es: seq<Event>)
    requires WellFormed(l) && Waiting(l.phase)
    ensures var r := Run(l, es);
            && (Waiting(r.phase) || Finished(r.phase))
            && r.txDone == l.txDone
            && r.rxDone == l.rxDone + (if r.phase.Done? then 1 else 0)
            && r.timeouts == l.timeouts + (if r.phase.Error? then 1 else 0)
            && (r.sem <==> l.sem || Finished(r.phase))
            && r.deadlineMs == l.deadlineMs
    decreases |es|
  {
    hide Step, WellFormed;
    if es != [] {
      var m := Step(l, es[0]);
      WaitingStep(l, es[0]);
      if Finished(m.phase) {
        FinishedIsAbsorbing(m, es[1..]);
      } else {
        WaitingOnlyCompletes(m, es[1..]);
      }
    }
  }

  lemma {:induction false} RunSplit(l: Link, es: seq<Event>, fs: seq<Event>)
    requires WellFormed(l)
    ensures Run(l, es + fs) == Run(Run(l, es), fs)
    decreases |es|
  {
    if es == [] {
      assert es + fs == fs;
    } else {
      assert (es + fs)[1..] == es[1..] + fs;
      RunSplit(Step(l, es[0]), es[1..], fs);
    }
  }

  /** Where the n-th tick stands. */
  lemma {:induction false} SplitAtTick(es: seq<Event>, n: nat) returns (pre: seq<Event>, tick: Event, post: seq<Event>)
    requires n < TickCount(es)
    ensures es == pre + [tick] + post && tick.Tick? && TickCount(pre) == n
  {
    if es[0].Tick? && n == 0 {
      pre, tick, post := [], es[0], es[1..];
    } else {
      var p;
      p, tick, post := SplitAtTick(es[1..], if es[0].Tick? then n - 1 else n);
      pre := [es[0]] + p;
      assert pre[1..] == p;
    }
  }

  /** Every interleaving after Begin: the link transmits for exactly 68 ticks, tick 69 opens the
      reply window, and from then on it is either still waiting with nothing given, or in exactly
      one of Done and Error with exactly one completion given. */
  lemma {:induction false} OneCompletion(l: Link, raw: Word, es: seq<Event>)
    requires |l.rxFrame| == 64 && |raw| == 64
    ensures var r := Run(Begin(l, raw), es);
            && (r.phase.Tx? <==> TickCount(es) <= 2 * FRAME_BITS)
            && !r.phase.Idle?
            && r.txDone == l.txDone + (if r.phase.Tx? then 0 else 1)
            && r.rxDone == l.rxDone + (if r.phase.Done? then 1 else 0)
            && r.timeouts == l.timeouts + (if r.phase.Error? then 1 else 0)
            && (r.sem <==> l.sem || Finished(r.phase))
  {
    var b := Begin(l, raw);
    if TickCount(es) <= 2 * FRAME_BITS {
      TransmitsManchester(b, raw, 0, es);
      TransmitKeepsCounters(b, es);
    } else {
      var pre, tick, post := SplitAtTick(es, 2 * FRAME_BITS);
      TransmitsManchester(b, raw, 0, pre);
      TransmitKeepsCounters(b, pre);
      assert es == pre + ([tick] + post);
      RunSplit(b, pre, [tick] + post);
      var s := Run(b, pre);
      SendingTick(s, raw, 2 * FRAME_BITS, tick.at);
      assert ([tick] + post)[1..] == post;
      WaitingOnlyCompletes(TickStep(s, tick.at), post);
    }
  }

  lemma {:induction false} TransmitKeepsCounters(l: Link, es: seq<Event>)
    requires WellFormed(l) && l.phase.Tx? && Run(l, es).phase.Tx?
    ensures var r := Run(l, es);
            r.txDone == l.txDone && r.rxDone == l.rxDone && r.timeouts == l.timeouts && r.sem == l.sem
    decreases |es|
  {
    if es != [] {
      var m := Step(l, es[0]);
      if !m.phase.Tx? {
        WaitingOnlyCompletes(m, es[1..]);
      } else {
        TransmitKeepsCounters(m, es[1..]);
      }
    }
  }
}
