/** Hot-water priority: the hysteresis latch, its schedule gate, and the enable bits sent to the boiler. */
module DhwControl {
  import opened Common

  const HOURS := 24
  const MASTER_CH_ENABLE: bv8 := 1
  const MASTER_DHW_ENABLE: bv8 := 2
  const MASTER_CH2_ENABLE: bv8 := 16

  /** What one poll reads: the tank, the settings, the schedule, the local clock in hours since the
      epoch, and whether the boiler answers the status exchange. */
  datatype Env = Env(temp: real, setpoint: real, hysteresis: real,
                     scheduled: bool, on: seq<bool>, synced: bool, localHours: int, answered: bool)

  /** The latch, the enable flags in the shared state, and commands not yet taken over by it. */
  datatype Control = Control(priority: bool, chEnabled: bool, dhwEnabled: bool,
                             pendingCh: Option<bool>, pendingDhw: Option<bool>)

  /** The local hour; -1 while the clock is not synced. */
  function LocalHour(e: Env): (h: int)
    ensures -1 <= h < HOURS
    ensures e.synced ==> h == e.localHours % HOURS
  {
    if !e.synced then -1
    else
      // C++ remainder, brought back into range for times before the epoch
      var r := if e.localHours >= 0 then e.localHours % HOURS else -((-e.localHours) % HOURS);
      if r < 0 then r + HOURS else r
  }

  predicate HourAllowed(on: seq<bool>, hour: int)
    requires |on| == HOURS
  {
    if hour < 0 || hour >= HOURS then true else on[hour]
  }

  predicate Allowed(c: Control, e: Env)
    requires |e.on| == HOURS
  {
    c.dhwEnabled && (e.scheduled ==> HourAllowed(e.on, LocalHour(e)))
  }

  predicate ShouldHeat(temp: real, setpoint: real, hysteresis: real, enabled: bool) {
    enabled && temp < setpoint - hysteresis
  }

  predicate ShouldStop(temp: real, setpoint: real) {
    temp >= setpoint
  }

  /** A band below half a degree is replaced by two degrees. */
  function Effective(hysteresis: real): (h: real)
    ensures h >= 0.5
  {
    if hysteresis < 0.5 then 2.0 else hysteresis
  }

  function Latch(priority: bool, allowed: bool, e: Env): bool {
    if allowed && e.temp > 5.0 then
      if !priority && ShouldHeat(e.temp, e.setpoint, Effective(e.hysteresis), allowed) then true
      else if priority && ShouldStop(e.temp, e.setpoint) then false
      else priority
    else false
  }

  function MasterByte(c: Control): bv8 {
    var ch := if c.pendingCh.Some? then c.pendingCh.value else c.chEnabled;
    var dhw := if c.pendingDhw.Some? then c.pendingDhw.value else c.dhwEnabled;
    (if ch then MASTER_CH_ENABLE else 0)
    | (if dhw && c.priority then MASTER_DHW_ENABLE | MASTER_CH2_ENABLE else 0)
  }

  /** Once the boiler has answered, pending commands move into the shared state. */
  function Answered(c: Control): Control {
    Control(c.priority,
            if c.pendingCh.Some? then c.pendingCh.value else c.chEnabled,
            if c.pendingDhw.Some? then c.pendingDhw.value else c.dhwEnabled,
            None, None)
  }

  /** One poll: the latch first, then the status exchange. */
  function Poll(c: Control, e: Env): (Control, bv8)
    requires |e.on| == HOURS
  {
    var d := c.(priority := Latch(c.priority, Allowed(c, e), e));
    (if e.answered then Answered(d) else d, MasterByte(d))
  }

  // ---------------------------------------------------------------- one poll

  /** The tank asks for heat: in an hour that the schedule allows (any hour, while the clock is not synced),
      above 5 degrees and below the setpoint, and either still heating or below the band. */
  predicate WantsHeat(c: Control, e: Env)
    requires |e.on| == HOURS
  {
    && (e.scheduled && e.synced ==> e.on[e.localHours % 24])
    && 5.0 < e.temp < e.setpoint
    && (c.priority || e.temp < e.setpoint - if e.hysteresis < 0.5 then 2.0 else e.hysteresis)
  }

  /** After every evaluation, from any state: priority holds exactly if hot water is enabled and the tank
      asks for heat. */
  lemma {:induction false} PriorityIff(c: Control, e: Env)
    requires |e.on| == HOURS
    ensures Poll(c, e).0.priority <==>
            c.dhwEnabled && WantsHeat(c, e)
  {}

  /** The hot-water and second-circuit bits are sent together, and only under priority with the
      hot water enabled; no other bit than these and the heating bit is ever set. */
  lemma {:induction false} BitsSent(c: Control, e: Env)
    requires |e.on| == HOURS
    ensures var (d, m) := Poll(c, e);
            && m in {0, 1, 18, 19}
            && (m & MASTER_CH_ENABLE != 0 <==> Commanded(c.pendingCh, c.chEnabled))
            && (m & MASTER_DHW_ENABLE != 0 <==> m & MASTER_CH2_ENABLE != 0)
            && (m & MASTER_DHW_ENABLE != 0 <==> d.priority && c.pendingDhw != Some(false))
            && (m & MASTER_DHW_ENABLE != 0 ==> c.dhwEnabled)
  {}

  /** The command that waits to be taken over, or else what the shared state says. */
  function Commanded(pending: Option<bool>, enabled: bool): bool {
    if pending.Some? then pending.value else enabled
  }

  // ---------------------------------------------------------------- commands over runs

  /** What can happen between and at polls. The enable flags are commanded on two paths: written into the
      shared state, as the configuration, the room controller and the start-up do, or queued with the boiler
      poll, which takes them over once the boiler has answered. */
  datatype Event =
    | WriteCh(on: bool)
    | WriteDhw(on: bool)
    | QueueCh(on: bool)
    | QueueDhw(on: bool)
    | PollWith(env: Env)

  predicate Proper(e: Event) {
    e.PollWith? ==> |e.env.on| == HOURS
  }

  function After(c: Control, e: Event): Control
    requires Proper(e)
  {
    match e
    case WriteCh(on) => c.(chEnabled := on)
    case WriteDhw(on) => c.(dhwEnabled := on)
    case QueueCh(on) => c.(pendingCh := Some(on))
    case QueueDhw(on) => c.(pendingDhw := Some(on))
    case PollWith(env) => Poll(c, env).0
  }

  function RunAll(c: Control, events: seq<Event>): Control
    requires forall e :: e in events ==> Proper(e)
    decreases |events|
  {
    if events == [] then c else
    assert Proper(events[0]);
    RunAll(After(c, events[0]), events[1..])
  }

  /** The bytes that a run sends. */
  function Sent(c: Control, events: seq<Event>): seq<bv8>
    requires forall e :: e in events ==> Proper(e)
    decreases |events|
  {
    if events == [] then []
    else
      assert Proper(events[0]);
      (if events[0].PollWith? then [Poll(c, events[0].env).1] else []) + Sent(After(c, events[0]), events[1..])
  }

  predicate NoHotWater(m: bv8) {
    m & MASTER_DHW_ENABLE == 0 && m & MASTER_CH2_ENABLE == 0
  }

  /** An off-command is queued, or nothing is queued and the state says off. */
  predicate TurnedOff(c: Control) {
    !Commanded(c.pendingDhw, c.dhwEnabled)
  }

  /** An off-command on either path keeps hot water out of the very next byte, from any state. It leaves
      hot water turned off for good, except, and only, when it is written while an on-command is queued. */
  lemma {:induction false} OffTakesEffect(c: Control, env: Env)
    requires |env.on| == HOURS
    ensures NoHotWater(Poll(After(c, WriteDhw(false)), env).1)
    ensures NoHotWater(Poll(After(c, QueueDhw(false)), env).1)
    ensures TurnedOff(After(c, QueueDhw(false)))
    ensures TurnedOff(After(c, WriteDhw(false))) <==> !(c.pendingDhw.Some? && c.pendingDhw.value)
  {
    BitsSent(After(c, WriteDhw(false)), env);
    BitsSent(After(c, QueueDhw(false)), env);
    hide Poll;
  }

  /** Once turned off, hot water stays off, whatever happens and even while the boiler does not answer,
      until it is commanded on by either path. */
  lemma {:induction false} OffStaysOff(c: Control, events: seq<Event>)
    requires TurnedOff(c)
    requires forall e :: e in events ==> Proper(e) && e != WriteDhw(true) && e != QueueDhw(true)
    ensures forall m :: m in Sent(c, events) ==> NoHotWater(m)
    decreases |events|
  {
    if events != [] {
      var e := events[0];
      assert e in events;
      if e.PollWith? {
        BitsSent(c, e.env);
      }
      assert TurnedOff(After(c, e));
      assert forall f :: f in events[1..] ==> f in events;
      hide Poll, TurnedOff;
      OffStaysOff(After(c, e), events[1..]);
    }
  }

  /** When an on-command takes effect. Written into the state, it does with the next byte, answered or not,
      exactly if the tank asks for heat and no off-command is queued. Queued while the state says off, it
      never does with the next byte; and it does with the one after, exactly if the boiler has answered
      and the tank asks for heat by then. */
  lemma {:induction false} OnTakesEffect(c: Control, env: Env, later: Env)
    requires |env.on| == |later.on| == HOURS
    ensures Poll(After(c, WriteDhw(true)), env).1 & MASTER_DHW_ENABLE != 0
            <==> WantsHeat(c, env) && c.pendingDhw != Some(false)
    ensures !c.dhwEnabled ==>
              var q := Poll(After(c, QueueDhw(true)), env);
              && NoHotWater(q.1)
              && (Poll(q.0, later).1 & MASTER_DHW_ENABLE != 0 <==> env.answered && WantsHeat(q.0, later))
  {
    PriorityIff(After(c, WriteDhw(true)), env);
    BitsSent(After(c, WriteDhw(true)), env);
    var d := After(c, QueueDhw(true));
    BitsSent(d, env);
    var q := Poll(d, env).0;
    assert q.dhwEnabled == if env.answered then true else c.dhwEnabled;
    assert q.pendingDhw == if env.answered then None else Some(true);
    PriorityIff(q, later);
    BitsSent(q, later);
    hide Poll;
  }

  /** The events that turn the state's flag on: an on-command written, or a queued one taken over. */
  predicate TurnsOn(c: Control, e: Event) {
    e == WriteDhw(true) || (e.PollWith? && e.env.answered && c.pendingDhw == Some(true))
  }

  predicate NeverTurnsOn(c: Control, events: seq<Event>)
    requires forall e :: e in events ==> Proper(e)
    decreases |events|
  {
    events == [] ||
    (assert Proper(events[0]);
     !TurnsOn(c, events[0]) && NeverTurnsOn(After(c, events[0]), events[1..]))
  }

  /** From the flag off, an event turns it on exactly if it is one of these; and until one of them happens no
      byte enables hot water, however cold the tank and whatever is queued. */
  lemma {:induction false} OnNeedsWriteOrAnswer(c: Control, events: seq<Event>)
    requires !c.dhwEnabled && forall e :: e in events ==> Proper(e)
    ensures forall e :: Proper(e) ==> (After(c, e).dhwEnabled <==> TurnsOn(c, e))
    ensures NeverTurnsOn(c, events) ==> forall m :: m in Sent(c, events) ==> NoHotWater(m)
    decreases |events|
  {
    if NeverTurnsOn(c, events) && events != [] {
      var e := events[0];
      assert Proper(e);
      if e.PollWith? {
        BitsSent(c, e.env);
      }
      assert !After(c, e).dhwEnabled;
      hide Poll;
      OnNeedsWriteOrAnswer(After(c, e), events[1..]);
    }
  }

  /** Once on and with no off-command queued, hot water stays on until it is commanded off by either path: after
      any events, answered or not, the next byte enables it exactly if the tank asks for heat. */
  lemma {:induction false} OnStaysOn(c: Control, events: seq<Event>, env: Env)
    requires c.dhwEnabled && c.pendingDhw != Some(false) && |env.on| == HOURS
    requires forall e :: e in events ==> Proper(e) && e != WriteDhw(false) && e != QueueDhw(false)
    ensures var d := RunAll(c, events);
            && d.dhwEnabled && d.pendingDhw != Some(false)
            && (Poll(d, env).1 & MASTER_DHW_ENABLE != 0 <==> WantsHeat(d, env))
    decreases |events|
  {
    if events == [] {
      PriorityIff(c, env);
      BitsSent(c, env);
      hide Poll, WantsHeat;
    } else {
      var e := events[0];
      assert e in events && forall f :: f in events[1..] ==> f in events;
      var d := After(c, e);
      assert d.dhwEnabled && d.pendingDhw != Some(false);
      hide Poll, WantsHeat, After;
      OnStaysOn(d, events[1..], env);
    }
  }

  /** The last command to the heating flag on either path, or the value before any. */
  function LastCh(on: bool, events: seq<Event>): bool
    decreases |events|
  {
    if events == [] then on
    else LastCh(if events[0].WriteCh? || events[0].QueueCh? then events[0].on else on, events[1..])
  }

  /** The last command was written while the opposite one was queued. */
  predicate Overruled(c: Control, overruled: bool, events: seq<Event>)
    requires forall e :: e in events ==> Proper(e)
    decreases |events|
  {
    if events == [] then overruled else
    assert Proper(events[0]);
    var e := events[0];
    Overruled(After(c, e),
              if e.QueueCh? then false else if e.WriteCh? then c.pendingCh == Some(!e.on) else overruled,
              events[1..])
  }

  /** After any events on either path, the byte of the next poll carries the last command, whether or not
      the boiler answers, exactly unless that command was overruled by a queued one. */
  lemma {:induction false} HeatingFollowsCommands(c: Control, events: seq<Event>, env: Env)
    requires (forall e :: e in events ==> Proper(e)) && |env.on| == HOURS
    ensures var last := LastCh(Commanded(c.pendingCh, c.chEnabled), events);
            (Poll(RunAll(c, events), env).1 & MASTER_CH_ENABLE != 0 <==> last) <==> !Overruled(c, false, events)
  {
    HeatingFollows(c, Commanded(c.pendingCh, c.chEnabled), false, events, env);
  }

  lemma {:induction false} HeatingFollows(c: Control, last: bool, overruled: bool, events: seq<Event>, env: Env)
    requires (forall e :: e in events ==> Proper(e)) && |env.on| == HOURS
    requires Commanded(c.pendingCh, c.chEnabled) == last <==> !overruled
    ensures (Poll(RunAll(c, events), env).1 & MASTER_CH_ENABLE != 0 <==> LastCh(last, events))
            <==> !Overruled(c, overruled, events)
    decreases |events|
  {
    if events == [] {
      BitsSent(c, env);
    } else {
      var e := events[0];
      assert Proper(e);
      var d := After(c, e);
      var next := if e.WriteCh? || e.QueueCh? then e.on else last;
      var over := if e.QueueCh? then false else if e.WriteCh? then c.pendingCh == Some(!e.on) else overruled;
      assert Commanded(d.pendingCh, d.chEnabled) == next <==> !over;
      hide Poll, Commanded;
      HeatingFollows(d, next, over, events[1..], env);
    }
  }

  /** In a run without queued commands, which is every run of the firmware, nothing is overruled: the heating
      bit carries the last value written. */
  lemma {:induction false} HeatingFollowsWrites(c: Control, events: seq<Event>, env: Env)
    requires c.pendingCh.None? && |env.on| == HOURS
    requires forall e :: e in events ==> Proper(e) && !e.QueueCh?
    ensures Poll(RunAll(c, events), env).1 & MASTER_CH_ENABLE != 0 <==> LastCh(c.chEnabled, events)
  {
    NothingOverruled(c, events);
    HeatingFollowsCommands(c, events, env);
    hide Poll;
  }

  lemma {:induction false} NothingOverruled(c: Control, events: seq<Event>)
    requires c.pendingCh.None? && forall e :: e in events ==> Proper(e) && !e.QueueCh?
    ensures !Overruled(c, false, events)
    decreases |events|
  {
    if events != [] {
      assert events[0] in events && forall f :: f in events[1..] ==> f in events;
      assert After(c, events[0]).pendingCh.None?;
      hide Poll;
      NothingOverruled(After(c, events[0]), events[1..]);
    }
  }

  // ---------------------------------------------------------------- switching costs temperature swing

  function Abs(x: real): real {
    if x < 0.0 then -x else x
  }

  /** How far the temperature has travelled in all. */
  function Variation(temps: seq<real>): real {
    if |temps| <= 1 then 0.0
    else Variation(temps[..|temps| - 1]) + Abs(temps[|temps| - 1] - temps[|temps| - 2])
  }

  /** The latch after a sequence of temperatures, heating allowed throughout. */
  function Heating(temps: seq<real>, setpoint: real, hysteresis: real): bool {
    if temps == [] then false
    else NextLatch(Heating(temps[..|temps| - 1], setpoint, hysteresis), temps[|temps| - 1], setpoint, hysteresis)
  }

  function NextLatch(priority: bool, temp: real, setpoint: real, hysteresis: real): bool {
    Latch(priority, true, Env(temp, setpoint, hysteresis, false, [], false, 0, true))
  }

  function SwitchOns(temps: seq<real>, setpoint: real, hysteresis: real): nat {
    if temps == [] then 0
    else
      var front := temps[..|temps| - 1];
      SwitchOns(front, setpoint, hysteresis)
      + if !Heating(front, setpoint, hysteresis) && Heating(temps, setpoint, hysteresis) then 1 else 0
  }

  /** With a fixed setpoint and band and heating always allowed, n switch-ons need a total temperature
      travel of at least 2 h (n - 1): the latch cannot chatter. */
  lemma {:induction false} SwitchingNeedsSwing(temps: seq<real>, setpoint: real, hysteresis: real)
    requires forall t :: t in temps ==> t > 5.0
    ensures var n := SwitchOns(temps, setpoint, hysteresis);
            n > 0 ==> Variation(temps) >= 2.0 * Effective(hysteresis) * (n - 1) as real
  {
    if temps != [] {
      Swing(temps, setpoint, hysteresis);
    }
  }

  /** The bound that the induction carries: while heating, the travel also covers how far the tank has
      risen above the switch-on level; while not, a further band and how far it has fallen below the setpoint. */
  ghost predicate Covered(v: real, n: nat, on: bool, t: real, sp: real, h: real) {
    if n == 0 then !on && v >= 0.0
    else
      var base := 2.0 * h * (n - 1) as real;
      v >= base && (if on then v >= base + (t - (sp - h)) else v >= base + h + (sp - t))
  }

  lemma {:induction false} CoveredStep(v: real, n: nat, on: bool, t: real, u: real, sp: real, hysteresis: real)
    requires var h := Effective(hysteresis); Covered(v, n, on, t, sp, h) && v >= 0.0 && u > 5.0
    ensures var h := Effective(hysteresis);
            var next := NextLatch(on, u, sp, hysteresis);
            Covered(v + Abs(u - t), if !on && next then n + 1 else n, next, u, sp, h)
  {
    var h := Effective(hysteresis);
    if n > 0 {
      OneBandMore(h, n);
    }
    hide Effective;
  }

  lemma {:induction false} OneBandMore(h: real, n: nat)
    requires n > 0
    ensures 2.0 * h * n as real == 2.0 * h * (n - 1) as real + 2.0 * h
  {
    assert n as real == (n - 1) as real + 1.0;
  }

  lemma {:induction false} Swing(temps: seq<real>, setpoint: real, hysteresis: real)
    requires temps != [] && forall t :: t in temps ==> t > 5.0
    ensures Variation(temps) >= 0.0
    ensures Covered(Variation(temps), SwitchOns(temps, setpoint, hysteresis), Heating(temps, setpoint, hysteresis),
                    temps[|temps| - 1], setpoint, Effective(hysteresis))
  {
    var last := temps[|temps| - 1];
    var front := temps[..|temps| - 1];
    assert last in temps;
    if front == [] {
      assert temps == [last];
      assert Heating([], setpoint, hysteresis) == false && SwitchOns([], setpoint, hysteresis) == 0;
      var next := NextLatch(false, last, setpoint, hysteresis);
      assert Heating(temps, setpoint, hysteresis) == next;
    } else {
      assert forall t :: t in front ==> t in temps;
      Swing(front, setpoint, hysteresis);
      CoveredStep(Variation(front), SwitchOns(front, setpoint, hysteresis), Heating(front, setpoint, hysteresis),
                  front[|front| - 1], last, setpoint, hysteresis);
      hide Covered, NextLatch;
      assert temps[|temps| - 2] == front[|front| - 1];
    }
  }

  // ---------------------------------------------------------------- the interactor

  class BoilerPollInteractor {
    var dhwPriority: bool
    var chEnabled: bool
    var dhwEnabled: bool
    var pendingCh: bool
    var pendingChValue: bool
    var pendingDhw: bool
    var pendingDhwValue: bool

    ghost function View(): Control
      reads this
    {
      Control(dhwPriority, chEnabled, dhwEnabled,
              if pendingCh then Some(pendingChValue) else None,
              if pendingDhw then Some(pendingDhwValue) else None)
    }

    /** The configuration's write into the shared state. */
    method WriteChEnable(on: bool)
      modifies this
      ensures View() == After(old(View()), WriteCh(on))
    {
      chEnabled := on;
    }

    method WriteDhwEnable(on: bool)
      modifies this
      ensures View() == After(old(View()), WriteDhw(on))
    {
      dhwEnabled := on;
    }

    method SetChEnable(on: bool)
      modifies this
      ensures View() == After(old(View()), QueueCh(on))
    {
      pendingCh := true;
      pendingChValue := on;
    }

    method SetDhwEnable(on: bool)
      modifies this
      ensures View() == After(old(View()), QueueDhw(on))
    {
      pendingDhw := true;
      pendingDhwValue := on;
    }

    method DoDhwHysteresis(e: Env)
      requires |e.on| == HOURS
      modifies this`dhwPriority
      ensures dhwPriority == Latch(old(dhwPriority), Allowed(old(View()), e), e)
    {
      var allowed := dhwEnabled;
      if e.scheduled {
        var hour := -1;
        if e.synced {
          hour := if e.localHours >= 0 then e.localHours % HOURS else -((-e.localHours) % HOURS);
          if hour < 0 { hour := hour + HOURS; }
        }
        allowed := dhwEnabled && HourAllowed(e.on, hour);
      }
      if allowed && e.temp > 5.0 {
        var hyst := e.hysteresis;
        if hyst < 0.5 { hyst := 2.0; }
        if !dhwPriority && ShouldHeat(e.temp, e.setpoint, hyst, allowed) {
          dhwPriority := true;
        } else if dhwPriority && ShouldStop(e.temp, e.setpoint) {
          dhwPriority := false;
        }
      } else {
        dhwPriority := false;
      }
    }

    method BuildMasterByte() returns (m: bv8)
      ensures m == MasterByte(View())
    {
      m := 0;
      var ch := if pendingCh then pendingChValue else chEnabled;
      var dhw := if pendingDhw then pendingDhwValue else dhwEnabled;
      if ch { m := m | MASTER_CH_ENABLE; }
      if dhw && dhwPriority {
        m := m | MASTER_DHW_ENABLE;
        m := m | MASTER_CH2_ENABLE;
      }
    }

    method DoStatus(answered: bool) returns (m: bv8)
      modifies this
      ensures m == MasterByte(old(View()))
      ensures View() == if answered then Answered(old(View())) else old(View())
    {
      m := BuildMasterByte();
      if answered {
        if pendingCh {
          chEnabled := pendingChValue;
          pendingCh := false;
        }
        if pendingDhw {
          dhwEnabled := pendingDhwValue;
          pendingDhw := false;
        }
      }
    }

    method Execute(e: Env) returns (m: bv8)
      requires |e.on| == HOURS
      modifies this
      ensures (View(), m) == Poll(old(View()), e)
    {
      DoDhwHysteresis(e);
      m := DoStatus(e.answered);
    }
  }
}
