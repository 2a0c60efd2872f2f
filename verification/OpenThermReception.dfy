/** Reception of a Manchester-coded frame under jitter, and the timing of the reply window. */
module OpenThermReception {
  import opened Common
  import opened Bits
  import opened OpenThermFrame
  import opened OpenThermLink

  /** A half-bit on the wire: its level and how long it lasts. */
  datatype Half = Half(active: bool, us: nat)

  /** The level just before half-bit k; the line is idle before the first one. */
  predicate LevelBefore(halves: seq<Half>, k: nat)
    requires k <= |halves|
  {
    k > 0 && halves[k - 1].active
  }

  /** The edges the RX pin shows from half-bit k on, when half-bit k begins at time t. */
  function EdgesFrom(halves: seq<Half>, k: nat, t: nat): seq<Event>
    requires k <= |halves|
    decreases |halves| - k
  {
    if k == |halves| then []
    else
      (if halves[k].active != LevelBefore(halves, k) then [Edge(halves[k].active, t)] else [])
      + EdgesFrom(halves, k + 1, t + halves[k].us)
  }

  ghost predicate Carries(halves: seq<Half>, raw: Word)
    requires |raw| == 64
  {
    |halves| == 2 * FRAME_BITS &&
    forall k :: 0 <= k < |halves| ==> halves[k].active == HalfLevel(raw, k)
  }

  /** A duration as the difference of two 64-bit times shows it. */
  function Shown(us: int): nat {
    us % UINT64
  }

  /** What the receiver needs between the middles of bits i and i + 1: an edge at their border comes at
      most 750 microseconds after the one middle, and the other middle later than that. */
  predicate StepTolerable(halves: seq<Half>, i: nat)
    requires |halves| == 2 * FRAME_BITS && i < FRAME_BITS - 1
  {
    var second, first := halves[2 * i + 1], halves[2 * i + 2];
    && (first.active != second.active ==> Shown(second.us) <= HALF_BIT_LIMIT_US)
    && Shown(second.us + first.us) > HALF_BIT_LIMIT_US
  }

  /** The jitter the receiver tolerates. */
  ghost predicate Tolerable(halves: seq<Half>)
    requires |halves| == 2 * FRAME_BITS
  {
    && Shown(halves[0].us) < HALF_BIT_LIMIT_US
    && forall i :: 0 <= i < FRAME_BITS - 1 ==> StepTolerable(halves, i)
  }

  /** The 33 bits after the start bit, as the receiver collects them. */
  function Body(raw: Word): (w: Word)
    requires |raw| == 64
    ensures |w| == 64
  {
    raw[..FRAME_BITS - 1] + Zeros(31)
  }

  /** The receiver has accepted the first i bits after the start bit. */
  ghost predicate Received(l: Link, raw: Word, i: nat)
    requires |raw| == 64 && i < FRAME_BITS
  {
    WellFormed(l) && l.phase.Rx? && l.rxIdx == i && l.rxFrame == raw[33 - i..33] + Zeros(64 - i)
  }

  /** After the middle of bit i: the bits so far, and after the last the completed frame. */
  ghost predicate After(l: Link, raw: Word, i: nat)
    requires |raw| == 64 && i < FRAME_BITS
  {
    if i < FRAME_BITS - 1 then Received(l, raw, i)
    else l.phase.Done? && l.sem && l.rxIdx == FRAME_BITS - 1 && l.rxFrame == Body(raw)
  }

  lemma {:induction false} ShiftInNext(raw: Word, i: nat, rx: Word, next: Word)
    requires |raw| == 64 && i < FRAME_BITS - 1
    requires rx == raw[33 - i..33] + Zeros(64 - i)
    requires next == Or(Shl(rx, 1), if raw[32 - i] then OneBit(0, 64) else Zeros(64))
    ensures next == raw[32 - i..33] + Zeros(63 - i)
  {
    hide Or, Shl, OneBit, Zeros;
    SliceGrows(raw, i);
    ShiftInAfter(raw[33 - i..33], raw[32 - i], rx, next);
  }

  lemma {:induction false} SliceGrows(raw: Word, i: nat)
    requires |raw| == 64 && i < FRAME_BITS - 1
    ensures raw[32 - i..33] == [raw[32 - i]] + raw[33 - i..33]
  {}

  lemma {:induction false} ShiftInAfter(got: Word, bit: bool, rx: Word, next: Word)
    requires |got| < FRAME_BITS - 1
    requires rx == got + Zeros(64 - |got|)
    requires next == Or(Shl(rx, 1), if bit then OneBit(0, 64) else Zeros(64))
    ensures next == [bit] + got + Zeros(63 - |got|)
  {}

  lemma {:induction false} LateEdgeShifts(l: Link, i: nat, level: bool, now: nat)
    requires WellFormed(l) && l.phase.Rx? && l.rxIdx == i < FRAME_BITS - 1
    requires Since(now, l.rxLastEdge) > HALF_BIT_LIMIT_US
    ensures var r := EdgeStep(l, level, now);
            && r.rxLastEdge == now && r.rxIdx == i + 1 && WellFormed(r)
            && r.rxFrame == Or(Shl(l.rxFrame, 1), if !level then OneBit(0, 64) else Zeros(64))
            && (if i + 1 < FRAME_BITS - 1 then r.phase.Rx? else r.phase.Done? && r.sem)
  {}

  lemma {:induction false} LowestBitShiftedIn(rx: Word, bit: bool, next: Word)
    requires |rx| == 64 && next == Or(Shl(rx, 1), if bit then OneBit(0, 64) else Zeros(64))
    ensures |next| == 64 && next[0] == bit
  {}

  /** An edge more than 750 microseconds after the last accepted one is taken for the middle of the next
      bit, and the bit for the inverted level. */
  lemma {:induction false} LateEdgeAccepted(l: Link, raw: Word, i: nat, level: bool, now: nat)
    requires |raw| == 64 && i < FRAME_BITS - 1 && Received(l, raw, i)
    requires Since(now, l.rxLastEdge) > 750
    ensures var r := EdgeStep(l, level, now);
            && r.rxLastEdge == now && r.rxIdx == i + 1 && WellFormed(r)
            && (After(r, raw, i + 1) <==> level == !raw[32 - i])
            && (if i + 1 < FRAME_BITS - 1 then r.phase.Rx? else r.phase.Done?)
  {
    hide EdgeStep, Since, WellFormed, Or, Shl, OneBit, Zeros;
    LateEdgeShifts(l, i, level, now);
    var r := EdgeStep(l, level, now);
    BodyIsAllBits(raw);
    if level == !raw[32 - i] {
      ShiftInNext(raw, i, l.rxFrame, r.rxFrame);
    } else {
      LowestBitShiftedIn(l.rxFrame, !level, r.rxFrame);
      assert raw[32 - i..33][0] == raw[32 - i];
    }
  }

  /** An edge that comes too early is dropped. */
  lemma {:induction false} EarlyEdgeDropped(l: Link, level: bool, now: nat)
    requires WellFormed(l) && l.phase.Rx? && Since(now, l.rxLastEdge) <= HALF_BIT_LIMIT_US
    ensures EdgeStep(l, level, now) == l
  {}

  lemma {:induction false} RunOne(l: Link, e: Event, es: seq<Event>)
    requires WellFormed(l)
    ensures Run(l, [e] + es) == Run(Step(l, e), es)
  {}

  /** The edges of one bit: an optional border edge and the mid-bit edge. */
  lemma {:induction false} BitEdges(halves: seq<Half>, k: nat, t: nat)
    requires 1 <= k && k + 1 < |halves| && halves[k + 1].active == !halves[k].active
    ensures var mid := t + halves[k].us;
            EdgesFrom(halves, k, t) ==
            (if halves[k].active != halves[k - 1].active then [Edge(halves[k].active, t)] else [])
            + ([Edge(!halves[k].active, mid)] + EdgesFrom(halves, k + 2, mid + halves[k + 1].us))
  {}

  lemma {:induction false} BitLevels(halves: seq<Half>, raw: Word, j: nat)
    requires |raw| == 64 && j < FRAME_BITS && Carries(halves, raw)
    ensures halves[2 * j].active == raw[33 - j] && halves[2 * j + 1].active == !raw[33 - j]
  {}

  /** The link after the edges of a bit that begins at time t with half-bit k. */
  function BitStep(l: Link, halves: seq<Half>, k: nat, t: nat): (r: Link)
    requires WellFormed(l) && 1 <= k < |halves|
    ensures WellFormed(r)
  {
    var bit := halves[k].active;
    var atBorder := if bit != halves[k - 1].active then EdgeStep(l, bit, t) else l;
    EdgeStep(atBorder, !bit, t + halves[k].us)
  }

  lemma {:induction false} RunBit(l: Link, halves: seq<Half>, k: nat, t: nat)
    requires WellFormed(l) && 1 <= k && k + 1 < |halves| && halves[k + 1].active == !halves[k].active
    ensures Run(l, EdgesFrom(halves, k, t)) ==
            Run(BitStep(l, halves, k, t), EdgesFrom(halves, k + 2, t + halves[k].us + halves[k + 1].us))
  {
    hide EdgesFrom, EdgeStep, Run, WellFormed;
    var mid := t + halves[k].us;
    var bit := halves[k].active;
    var rest := EdgesFrom(halves, k + 2, mid + halves[k + 1].us);
    var tail := [Edge(!bit, mid)] + rest;
    BitEdges(halves, k, t);
    if bit != halves[k - 1].active {
      RunOne(l, Edge(bit, t), tail);
      RunOne(EdgeStep(l, bit, t), Edge(!bit, mid), rest);
    } else {
      assert [] + tail == tail;
      RunOne(l, Edge(!bit, mid), rest);
    }
  }

  lemma {:induction false} NotYetAfter(l: Link, raw: Word, i: nat)
    requires |raw| == 64 && i < FRAME_BITS - 1 && Received(l, raw, i)
    ensures WellFormed(l) && l.phase.Rx? && !After(l, raw, i + 1)
  {}

  /** A wrong bit stays: no later edge mends it. */
  lemma {:induction false} WrongBitStays(l: Link, raw: Word, i: nat, level: bool, now: nat)
    requires WellFormed(l) && |raw| == 64 && 0 < i < FRAME_BITS && !After(l, raw, i) && l.rxIdx == i
    requires if i < FRAME_BITS - 1 then l.phase.Rx? else l.phase.Done?
    ensures !After(EdgeStep(l, level, now), raw, i)
  {}

  lemma {:induction false} EdgesOfBit(l: Link, raw: Word, i: nat, border: bool, t: nat, mid: nat)
    requires |raw| == 64 && i < FRAME_BITS - 1 && Received(l, raw, i) && WellFormed(l)
    ensures var r := EdgeStep(if border then EdgeStep(l, raw[32 - i], t) else l, !raw[32 - i], mid);
            var kept := (border ==> Since(t, l.rxLastEdge) <= HALF_BIT_LIMIT_US)
                        && Since(mid, l.rxLastEdge) > HALF_BIT_LIMIT_US;
            (After(r, raw, i + 1) <==> kept) && (kept ==> r.rxLastEdge == mid)
  {
    hide EdgeStep, Since, Received, WellFormed, After;
    NotYetAfter(l, raw, i);
    var bit := raw[32 - i];
    if border && Since(t, l.rxLastEdge) > HALF_BIT_LIMIT_US {
      LateEdgeAccepted(l, raw, i, bit, t);
      WrongBitStays(EdgeStep(l, bit, t), raw, i + 1, !bit, mid);
    } else {
      if border { EarlyEdgeDropped(l, bit, t); }
      if Since(mid, l.rxLastEdge) > HALF_BIT_LIMIT_US {
        LateEdgeAccepted(l, raw, i, !bit, mid);
      } else {
        EarlyEdgeDropped(l, !bit, mid);
      }
    }
  }

  lemma {:induction false} SinceIs(now: nat, last: int, us: int)
    requires now - last == us
    ensures Since(now, last) == Shown(us)
  {}

  /** The exact condition for one bit: after its edges the receiver has one bit more, and the right one,
      if and only if the border edge, where there is one, is early and the mid-bit edge is late. */
  lemma {:induction false} BitReceivedIff(l: Link, raw: Word, halves: seq<Half>, i: nat, t: nat)
    requires |raw| == 64 && i < FRAME_BITS - 1 && Received(l, raw, i) && WellFormed(l)
    requires |halves| == 2 * FRAME_BITS && Carries(halves, raw)
    requires t - l.rxLastEdge == halves[2 * i + 1].us
    ensures var r := BitStep(l, halves, 2 * i + 2, t);
            && (After(r, raw, i + 1) <==> StepTolerable(halves, i))
            && (StepTolerable(halves, i) ==> r.rxLastEdge == t + halves[2 * i + 2].us)
  {
    hide Carries, HalfLevel, EdgeStep, Since, Shown, Received, WellFormed, After;
    BitLevels(halves, raw, i + 1);
    var second, first := halves[2 * i + 1], halves[2 * i + 2];
    SinceIs(t, l.rxLastEdge, second.us);
    SinceIs(t + first.us, l.rxLastEdge, second.us + first.us);
    EdgesOfBit(l, raw, i, first.active != second.active, t, t + first.us);
  }

  lemma {:induction false} NoEdgesAtTheEnd(halves: seq<Half>, t: nat)
    ensures EdgesFrom(halves, |halves|, t) == []
  {}

  lemma {:induction false} RunNone(l: Link)
    requires WellFormed(l)
    ensures Run(l, []) == l
  {}

  lemma {:induction false} BodyIsAllBits(raw: Word)
    requires |raw| == 64
    ensures Body(raw) == raw[0..33] + Zeros(31)
  {}

  /** From the end of bit i, at time t, the receiver follows the frame to its end: after the middle of
      every bit it has exactly the bits so far. */
  ghost predicate Follows(l: Link, raw: Word, halves: seq<Half>, i: nat, t: nat)
    requires WellFormed(l) && |raw| == 64 && |halves| == 2 * FRAME_BITS && i < FRAME_BITS
    decreases FRAME_BITS - i
  {
    i == FRAME_BITS - 1 ||
    var k := 2 * i + 2;
    var r := BitStep(l, halves, k, t);
    After(r, raw, i + 1) && Follows(r, raw, halves, i + 1, t + halves[k].us + halves[k + 1].us)
  }

  lemma {:induction false} FollowsIff(l: Link, raw: Word, halves: seq<Half>, i: nat, t: nat)
    requires WellFormed(l) && |raw| == 64 && i < FRAME_BITS && After(l, raw, i)
    requires |halves| == 2 * FRAME_BITS && Carries(halves, raw)
    requires i < FRAME_BITS - 1 ==> t - l.rxLastEdge == halves[2 * i + 1].us
    ensures Follows(l, raw, halves, i, t) <==> forall j :: i <= j < FRAME_BITS - 1 ==> StepTolerable(halves, j)
    ensures Follows(l, raw, halves, i, t)
            ==> After(Run(l, EdgesFrom(halves, 2 * i + 2, t)), raw, FRAME_BITS - 1)
    decreases FRAME_BITS - i
  {
    hide Carries, HalfLevel, EdgesFrom, EdgeStep, Run, Since, Body, Received, WellFormed, StepTolerable, BitStep;
    if i == FRAME_BITS - 1 {
      NoEdgesAtTheEnd(halves, t);
      RunNone(l);
    } else {
      var k := 2 * i + 2;
      BitReceivedIff(l, raw, halves, i, t);
      if StepTolerable(halves, i) {
        BitLevels(halves, raw, i + 1);
        RunBit(l, halves, k, t);
        FollowsIff(BitStep(l, halves, k, t), raw, halves, i + 1, t + halves[k].us + halves[k + 1].us);
      }
    }
  }

  /** The two edges of the start bit put the receiver at bit 0 if and only if they are close enough. */
  lemma {:induction false} StartBit(l: Link, raw: Word, t: nat, us: nat) returns (s: Link)
    requires WellFormed(l) && l.phase.WaitRx? && |raw| == 64
    ensures s == EdgeStep(EdgeStep(l, true, t), false, t + us) && WellFormed(s)
    ensures After(s, raw, 0) <==> Shown(us) < HALF_BIT_LIMIT_US
    ensures After(s, raw, 0) ==> s.rxLastEdge == t + us
  {
    s := EdgeStep(EdgeStep(l, true, t), false, t + us);
    assert raw[33..33] + Zeros(64) == Zeros(64);
  }

  lemma {:induction false} StartEdges(halves: seq<Half>, t: nat)
    requires 2 <= |halves| && halves[0].active && !halves[1].active
    ensures var mid := t + halves[0].us;
            EdgesFrom(halves, 0, t) ==
            [Edge(true, t)] + ([Edge(false, mid)] + EdgesFrom(halves, 2, mid + halves[1].us))
  {}

  /** A waiting receiver locks on the start bit and follows the frame that begins at time t. */
  ghost predicate FollowsFrame(l: Link, raw: Word, halves: seq<Half>, t: nat)
    requires WellFormed(l) && |raw| == 64 && |halves| == 2 * FRAME_BITS
  {
    var mid := t + halves[0].us;
    var s := EdgeStep(EdgeStep(l, true, t), false, mid);
    After(s, raw, 0) && Follows(s, raw, halves, 0, mid + halves[1].us)
  }

  /** The tolerance is exact: the receiver follows a frame bit by bit if and only if the jitter is
      tolerable. */
  lemma {:induction false} FollowsFrameIffTolerable(l: Link, raw: Word, halves: seq<Half>, t: nat)
    requires WellFormed(l) && l.phase.WaitRx?
    requires |raw| == 64 && |halves| == 2 * FRAME_BITS && Carries(halves, raw)
    ensures FollowsFrame(l, raw, halves, t) <==> Tolerable(halves)
  {
    hide Carries, HalfLevel, EdgeStep, Received, StepTolerable, After, Follows;
    var s := StartBit(l, raw, t, halves[0].us);
    if After(s, raw, 0) {
      FollowsIff(s, raw, halves, 0, t + halves[0].us + halves[1].us);
    }
  }

  lemma {:induction false} RunStart(l: Link, halves: seq<Half>, t: nat)
    requires WellFormed(l) && 2 <= |halves| && halves[0].active && !halves[1].active
    ensures var mid := t + halves[0].us;
            Run(l, EdgesFrom(halves, 0, t)) ==
            Run(EdgeStep(EdgeStep(l, true, t), false, mid), EdgesFrom(halves, 2, mid + halves[1].us))
  {
    hide EdgesFrom, EdgeStep, Run, WellFormed;
    var mid := t + halves[0].us;
    var rest := EdgesFrom(halves, 2, mid + halves[1].us);
    StartEdges(halves, t);
    RunOne(l, Edge(true, t), [Edge(false, mid)] + rest);
    RunOne(EdgeStep(l, true, t), Edge(false, mid), rest);
  }

  lemma {:induction false} ReceiveFrame(l: Link, raw: Word, halves: seq<Half>, t: nat)
    requires WellFormed(l) && l.phase.WaitRx?
    requires |raw| == 64 && raw[33] && |halves| == 2 * FRAME_BITS && Carries(halves, raw) && Tolerable(halves)
    ensures var r := Run(l, EdgesFrom(halves, 0, t));
            r.phase.Done? && r.sem && r.rxIdx == FRAME_BITS - 1 && r.rxFrame == Body(raw)
  {
    hide Carries, Tolerable, HalfLevel, EdgesFrom, EdgeStep, Run, Body, Received, WellFormed, Follows;
    BitLevels(halves, raw, 0);
    RunStart(l, halves, t);
    FollowsFrameIffTolerable(l, raw, halves, t);
    var s := StartBit(l, raw, t, halves[0].us);
    FollowsIff(s, raw, halves, 0, t + halves[0].us + halves[1].us);
  }

  // ---------------------------------------------------------------- ticks in between

  function EdgesIn(es: seq<Event>): seq<Event> {
    if es == [] then [] else (if es[0].Edge? then [es[0]] else []) + EdgesIn(es[1..])
  }

  ghost predicate InTime(es: seq<Event>, deadlineMs: nat) {
    forall e :: e in es && e.Tick? ==> NowMs(e.at) <= deadlineMs
  }

  /** Ticks before the deadline do not disturb reception. */
  lemma {:induction false} TicksInTimeAreSilent(l: Link, es: seq<Event>)
    requires WellFormed(l) && (Waiting(l.phase) || Finished(l.phase)) && InTime(es, l.deadlineMs)
    ensures Run(l, es) == Run(l, EdgesIn(es))
    decreases |es|
  {
    if es != [] {
      var m := Step(l, es[0]);
      TicksInTimeAreSilent(m, es[1..]);
      if es[0].Edge? {
        RunOne(l, es[0], EdgesIn(es[1..]));
      } else {
        assert es[0] in es && m == l;
        assert EdgesIn(es) == EdgesIn(es[1..]);
      }
    }
  }

  lemma {:induction false} BodyParses(raw: Word)
    requires |raw| == 64
    ensures ParseFrame(Body(raw)) == ParseFrame(raw)
  {
    var b := Body(raw);
    assert b[1..25] == raw[1..25] && b[29..32] == raw[29..32];
    ParseReadsFieldsOnly(b, raw);
  }

  /** The round trip: any frame sent as the transmitter sends it, with any tolerable jitter and
      with timer ticks interleaved in any way before the deadline, is received as that frame. */
  lemma {:induction false} RoundTripUnderJitter(l: Link, f: Frame, halves: seq<Half>, t: nat, es: seq<Event>)
    requires WellFormed(l) && l.phase.WaitRx? && IsFrame(f)
    requires Carries(halves, BuildFrame(f)) && Tolerable(halves)
    requires EdgesIn(es) == EdgesFrom(halves, 0, t) && InTime(es, l.deadlineMs)
    ensures var r := Run(l, es);
            r.phase.Done? && r.sem && r.rxIdx == FRAME_BITS - 1 && ParseFrame(r.rxFrame) == Normalized(f)
  {
    BuildFrameLayout(f);
    ReceiveFrame(l, BuildFrame(f), halves, t);
    TicksInTimeAreSilent(l, es);
    BodyParses(BuildFrame(f));
    ParseBuild(f);
  }

  lemma {:induction false} OnlyEdges(halves: seq<Half>, k: nat, t: nat)
    requires k <= |halves|
    ensures EdgesIn(EdgesFrom(halves, k, t)) == EdgesFrom(halves, k, t)
    ensures forall e :: e in EdgesFrom(halves, k, t) ==> e.Edge?
    decreases |halves| - k
  {
    if k < |halves| {
      OnlyEdges(halves, k + 1, t + halves[k].us);
      var rest := EdgesFrom(halves, k + 1, t + halves[k].us);
      if halves[k].active != LevelBefore(halves, k) {
        assert ([Edge(halves[k].active, t)] + rest)[1..] == rest;
      } else {
        assert [] + rest == rest;
      }
    }
  }

  /** The wire that carries a word with the half-bit lengths given. */
  function Wire(raw: Word, us: seq<nat>): (halves: seq<Half>)
    requires |raw| == 64 && |us| == 2 * FRAME_BITS
    ensures Carries(halves, raw)
  {
    seq(2 * FRAME_BITS, k requires 0 <= k < 2 * FRAME_BITS => Half(HalfLevel(raw, k), us[k]))
  }

  lemma {:induction false} QuarterIsTolerable(halves: seq<Half>)
    requires |halves| == 2 * FRAME_BITS && forall k :: 0 <= k < |halves| ==> 376 <= halves[k].us <= 749
    ensures Tolerable(halves)
  {
    forall i | 0 <= i < FRAME_BITS - 1 ensures StepTolerable(halves, i) {}
  }

  /** In particular every frame survives any distortion in which each half-bit of nominally 500
      microseconds lasts anything between 376 and 749. */
  lemma {:induction false} SurvivesQuarterJitter(l: Link, f: Frame, us: seq<nat>, t: nat)
    requires WellFormed(l) && l.phase.WaitRx? && IsFrame(f)
    requires |us| == 2 * FRAME_BITS && forall k :: 0 <= k < |us| ==> 376 <= us[k] <= 749
    ensures var r := Run(l, EdgesFrom(Wire(BuildFrame(f), us), 0, t));
            r.phase.Done? && ParseFrame(r.rxFrame) == Normalized(f)
  {
    var halves := Wire(BuildFrame(f), us);
    assert forall k :: 0 <= k < |halves| ==> halves[k].us == us[k];
    QuarterIsTolerable(halves);
    OnlyEdges(halves, 0, t);
    hide Carries, HalfLevel, EdgesFrom, EdgesIn, Run, BuildFrame, ParseFrame, Wire, Tolerable;
    RoundTripUnderJitter(l, f, halves, t, EdgesFrom(halves, 0, t));
  }

  /** The wire as the transmitter drives it: half-bit k has the level of the bus after tick k + 1. */
  ghost function Emitted(l: Link, raw: Word, ticks: seq<nat>, us: seq<nat>): seq<Half>
    requires |l.rxFrame| == 64 && |raw| == 64
    requires |ticks| == |us| == 2 * FRAME_BITS
  {
    seq(2 * FRAME_BITS, k requires 0 <= k < 2 * FRAME_BITS =>
      Half(Run(Begin(l, raw), TicksAt(ticks[..k + 1])).bus, us[k]))
  }

  function TicksAt(times: seq<nat>): (es: seq<Event>)
    ensures TickCount(es) == |times|
  {
    if times == [] then [] else [Tick(times[0])] + TicksAt(times[1..])
  }

  lemma {:induction false} EmittedCarries(l: Link, raw: Word, ticks: seq<nat>, us: seq<nat>)
    requires |l.rxFrame| == 64 && |raw| == 64
    requires |ticks| == |us| == 2 * FRAME_BITS
    ensures Carries(Emitted(l, raw, ticks, us), raw)
  {
    forall k | 0 <= k < 2 * FRAME_BITS
      ensures Run(Begin(l, raw), TicksAt(ticks[..k + 1])).bus == HalfLevel(raw, k)
    {
      TransmitsManchester(Begin(l, raw), raw, 0, TicksAt(ticks[..k + 1]));
    }
  }

  /** One gateway's transmitter against another's receiver, end to end. */
  lemma {:induction false} TransmitThenReceive(sender: Link, receiver: Link, f: Frame, ticks: seq<nat>, us: seq<nat>,
                            t: nat, es: seq<Event>)
    requires |sender.rxFrame| == 64 && IsFrame(f) && |ticks| == |us| == 2 * FRAME_BITS
    requires WellFormed(receiver) && receiver.phase.WaitRx?
    requires var wire := Emitted(sender, BuildFrame(f), ticks, us);
             Tolerable(wire) && EdgesIn(es) == EdgesFrom(wire, 0, t) && InTime(es, receiver.deadlineMs)
    ensures var r := Run(receiver, es);
            r.phase.Done? && ParseFrame(r.rxFrame) == Normalized(f)
  {
    EmittedCarries(sender, BuildFrame(f), ticks, us);
    RoundTripUnderJitter(receiver, f, Emitted(sender, BuildFrame(f), ticks, us), t, es);
  }

  /** A falling edge does not disturb a link that waits. After a rising one the two-stage start check locks on
      exactly when the next edge falls and comes less than 750 microseconds later; otherwise the pulse is
      taken for noise and the link keeps waiting. */
  lemma {:induction false} StartLocksOnShortPulse(l: Link, t: nat, us: nat, level: bool)
    requires WellFormed(l) && l.phase.WaitRx? && us < UINT64
    ensures var r := Run(l, [Edge(true, t), Edge(level, t + us)]);
            (r.phase.Rx? <==> us < 750 && !level) && (r.phase.WaitRx? <==> us >= 750 || level)
    ensures EdgeStep(l, false, t) == l
  {
    var s1 := EdgeStep(l, true, t);
    assert [Edge(true, t), Edge(level, t + us)] == [Edge(true, t)] + ([Edge(level, t + us)] + []);
    RunOne(l, Edge(true, t), [Edge(level, t + us)] + []);
    RunOne(s1, Edge(level, t + us), []);
    assert Since(t + us, t) == us;
  }
}
