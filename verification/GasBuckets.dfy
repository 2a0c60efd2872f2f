/** Gas consumption by hour and day: the bucket arithmetic of one tick, over the reals. */
module GasBuckets {
  import opened Common
  import opened Reals

  const HOURS := 24
  const SLOTS := 64

  /** The running day: its number (-1 before the clock is synced), its totals, its completed hours,
      and the current hour. The second number of each pair is the hot-water part. */
  datatype Today = Today(
    day: int, total: real, dhw: real,
    hours: seq<real>, hoursDhw: seq<real>,
    hour: int, hourTotal: real, hourDhw: real)

  datatype DayEntry = DayEntry(epochDay: int, total: real, dhw: real)

  /** The ring of completed days. */
  datatype Ring = Ring(slots: seq<DayEntry>, head: int, count: int)

  datatype History = History(ring: Ring, yesterday: int, hours: seq<real>, hoursDhw: seq<real>)

  /** The service's persistent part and its meter integral. */
  datatype Ram = Ram(today: Today, history: History, dirty: bool, integral: real, lastMs: nat)

  /** What one execution reads: the millisecond clock, the burner, and the local wall clock, which
      the code reads twice. */
  datatype Input = Input(nowMs: nat, firing: bool, flow: real, dhw: bool,
                         synced: bool, hourlyClock: int, dailyClock: int)

  function Zeros(n: nat): (s: seq<real>)
    ensures |s| == n && forall i :: 0 <= i < n ==> s[i] == 0.0
  {
    seq(n, _ => 0.0)
  }

  const NO_ENTRY := DayEntry(0, 0.0, 0.0)

  function FreshToday(): Today {
    Today(-1, 0.0, 0.0, Zeros(HOURS), Zeros(HOURS), -1, 0.0, 0.0)
  }

  function FreshHistory(): History {
    History(Ring(seq(SLOTS, _ => NO_ENTRY), 0, 0), -1, Zeros(HOURS), Zeros(HOURS))
  }

  function Fresh(): Ram {
    Ram(FreshToday(), FreshHistory(), false, 0.0, 0)
  }

  predicate RingShaped(r: Ring) {
    |r.slots| == SLOTS && 0 <= r.head < SLOTS && 0 <= r.count <= SLOTS
  }

  predicate Shaped(m: Ram) {
    && |m.today.hours| == HOURS && |m.today.hoursDhw| == HOURS
    && |m.history.hours| == HOURS && |m.history.hoursDhw| == HOURS
    && RingShaped(m.history.ring)
  }

  // ---------------------------------------------------------------- one execution

  /** The gas burnt since the previous execution; gaps of a minute or more are not counted. */
  function Volume(m: Ram, i: Input): real {
    var dtMs := (i.nowMs - m.lastMs) % UINT32;
    if i.firing && 0 < dtMs < 60000
    then (if i.flow < 0.0 then 0.0 else i.flow) * (dtMs as real / 3600000.0)
    else 0.0
  }

  function AddVolume(t: Today, dv: real, dhw: bool): Today {
    var dw := if dhw then dv else 0.0;
    t.(total := t.total + dv, dhw := t.dhw + dw, hourTotal := t.hourTotal + dv, hourDhw := t.hourDhw + dw)
  }

  /** Files the hour that is being left under the tracked day, if it belongs to it. */
  function Hourly(t: Today, clock: int): Today
    requires |t.hours| == HOURS && |t.hoursDhw| == HOURS
  {
    var hour := Div(clock, 3600);
    if t.hour < 0 then t.(hour := hour, hourTotal := 0.0, hourDhw := 0.0)
    else if hour == t.hour then t
    else
      var filed :=
        if t.hour / 24 == t.day then
          var k := t.hour % 24;
          t.(hours := t.hours[k := t.hours[k] + t.hourTotal],
             hoursDhw := t.hoursDhw[k := t.hoursDhw[k] + t.hourDhw])
        else t;
      filed.(hour := hour, hourTotal := 0.0, hourDhw := 0.0)
  }

  /** The slot that lies `i` places after the head. */
  function Slot(head: int, i: int): (k: int)
    requires 0 <= head < SLOTS && 0 <= i <= SLOTS
    ensures k == if head + i < SLOTS then head + i else head + i - SLOTS
  {
    (head + i) % SLOTS
  }

  function Push(r: Ring, e: DayEntry): (q: Ring)
    requires RingShaped(r)
    ensures RingShaped(q)
  {
    var slots := r.slots[Slot(r.head, r.count) := e];
    if r.count < SLOTS then Ring(slots, r.head, r.count + 1)
    else Ring(slots, Slot(r.head, 1), r.count)
  }

  function Daily(m: Ram, clock: int): (r: Ram)
    requires Shaped(m)
    ensures Shaped(r)
  {
    var day := Div(clock, SECONDS_PER_DAY);
    var t := m.today;
    if t.day < 0 then m.(today := t.(day := day, total := 0.0, dhw := 0.0))
    else if day == t.day then m
    else
      var ring := Push(m.history.ring, DayEntry(t.day, t.total, t.dhw));
      m.(history := if day == t.day + 1 then History(ring, t.day, t.hours, t.hoursDhw)
                    else History(ring, -1, Zeros(HOURS), Zeros(HOURS)),
         today := t.(day := day, total := 0.0, dhw := 0.0, hours := Zeros(HOURS), hoursDhw := Zeros(HOURS)),
         dirty := true)
  }

  function Execute(m: Ram, i: Input): (r: Ram)
    requires Shaped(m)
    ensures Shaped(r)
  {
    if m.lastMs == 0 then m.(lastMs := i.nowMs)
    else
      var dv := Volume(m, i);
      var burnt := m.(today := AddVolume(m.today, dv, i.dhw), integral := m.integral + dv, lastMs := i.nowMs);
      if i.synced then Daily(burnt.(today := Hourly(burnt.today, i.hourlyClock)), i.dailyClock)
      else burnt
  }

  /** What one execution adds, in numbers: the flow, if the burner fires and the gap is under a minute, times
      the gap in hours; to the integral, and to the day and the hour as long as the clock is not synced. The
      first execution after start-up only sets the time. */
  lemma {:induction false} ExecuteAddsTheFlow(m: Ram, i: Input)
    requires Shaped(m)
    ensures var r := Execute(m, i);
            var ms := (i.nowMs - m.lastMs) % UINT32;
            var v := if i.firing && 0 < ms < 60000 && i.flow > 0.0 then i.flow * (ms as real / 3600000.0) else 0.0;
            var w := if i.dhw then v else 0.0;
            && r.lastMs == i.nowMs
            && (m.lastMs == 0 ==> r == m.(lastMs := i.nowMs))
            && (m.lastMs != 0 ==> r.integral == m.integral + v)
            && (m.lastMs != 0 && !i.synced ==>
                  && r.today.total == m.today.total + v && r.today.dhw == m.today.dhw + w
                  && r.today.hourTotal == m.today.hourTotal + v && r.today.hourDhw == m.today.hourDhw + w
                  && r.history == m.history && r.today.day == m.today.day && r.today.hour == m.today.hour)
            && (m.lastMs != 0 && i.synced && 0 <= m.today.day == Div(i.dailyClock, SECONDS_PER_DAY) ==>
                  && r.today.total == m.today.total + v && r.today.dhw == m.today.dhw + w
                  && r.today.day == m.today.day && r.history == m.history && r.dirty == m.dirty)
  {
    VolumeIs(m, i);
    hide Volume, Div;
  }

  lemma {:induction false} VolumeIs(m: Ram, i: Input)
    ensures var ms := (i.nowMs - m.lastMs) % UINT32;
            Volume(m, i) == if i.firing && 0 < ms < 60000 && i.flow > 0.0 then i.flow * (ms as real / 3600000.0) else 0.0
  {}

  /** A new device has counted nothing, knows no day, and has nothing to save. */
  lemma {:induction false} FreshIsEmpty()
    ensures var m := Fresh();
            && m.integral == 0.0 && m.lastMs == 0 && !m.dirty
            && m.today.day == m.today.hour == -1 && m.today.total == m.today.dhw == 0.0
            && m.today.hourTotal == m.today.hourDhw == 0.0 && m.today.hours == m.today.hoursDhw == Zeros(HOURS)
            && m.history.ring.count == 0 && m.history.ring.head == 0 && m.history.yesterday == -1
  {}

  // ---------------------------------------------------------------- sums

  function Sum(s: seq<real>): real {
    if s == [] then 0.0 else s[0] + Sum(s[1..])
  }

  lemma {:induction false} SumUpdate(s: seq<real>, k: nat, x: real)
    requires k < |s|
    ensures Sum(s[k := s[k] + x]) == Sum(s) + x
  {
    if k == 0 {
      assert s[k := s[k] + x][1..] == s[1..];
    } else {
      assert s[k := s[k] + x][1..] == s[1..][k - 1 := s[1..][k - 1] + x];
      SumUpdate(s[1..], k - 1, x);
    }
  }

  lemma {:induction false} SumZeros(n: nat)
    ensures Sum(Zeros(n)) == 0.0
  {
    if n > 0 {
      assert Zeros(n)[1..] == Zeros(n - 1);
      SumZeros(n - 1);
    }
  }

  // ---------------------------------------------------------------- conservation

  /** Hot water is part of the total in every bucket. */
  ghost predicate Split(total: seq<real>, dhw: seq<real>) {
    |total| == |dhw| == HOURS && forall k :: 0 <= k < HOURS ==> 0.0 <= dhw[k] <= total[k]
  }

  /** The day's total is the sum of its completed hours and the current hour. */
  ghost predicate TodayConserved(t: Today) {
    && Split(t.hours, t.hoursDhw)
    && 0.0 <= t.hourDhw <= t.hourTotal && 0.0 <= t.dhw <= t.total
    && if t.day >= 0 then
         && t.hour >= 0 && t.hour / 24 == t.day
         && t.total == Sum(t.hours) + t.hourTotal
         && t.dhw == Sum(t.hoursDhw) + t.hourDhw
       else
         t.hour < 0 && t.hours == Zeros(HOURS) && t.hoursDhw == Zeros(HOURS)
  }

  function Newest(r: Ring): DayEntry
    requires RingShaped(r) && r.count > 0
  {
    r.slots[Slot(r.head, r.count - 1)]
  }

  /** Yesterday's hours add up to the newest completed day, which is yesterday. */
  ghost predicate HistoryConserved(h: History) {
    && RingShaped(h.ring) && Split(h.hours, h.hoursDhw)
    && (h.yesterday >= 0 ==>
          h.ring.count > 0 && Newest(h.ring) == DayEntry(h.yesterday, Sum(h.hours), Sum(h.hoursDhw)))
  }

  ghost predicate Conserved(m: Ram) {
    TodayConserved(m.today) && HistoryConserved(m.history)
  }

  lemma {:induction false} FreshConserved()
    ensures Conserved(Fresh())
  {}

  lemma {:induction false} VolumeNotNegative(m: Ram, i: Input)
    ensures Volume(m, i) >= 0.0
  {}

  lemma {:induction false} AddVolumeConserves(t: Today, dv: real, dhw: bool)
    requires TodayConserved(t) && dv >= 0.0
    ensures TodayConserved(AddVolume(t, dv, dhw))
  {}

  /** After the hourly step the totals still agree, with the hour now the clock's. */
  lemma {:induction false} HourlyConserves(t: Today, clock: int)
    requires TodayConserved(t) && clock >= 0
    ensures var r := Hourly(t, clock);
            && r.day == t.day && r.total == t.total && r.dhw == t.dhw
            && Split(r.hours, r.hoursDhw) && 0.0 <= r.hourDhw <= r.hourTotal
            && r.hour == clock / 3600
            && (t.day >= 0 ==> r.total == Sum(r.hours) + r.hourTotal && r.dhw == Sum(r.hoursDhw) + r.hourDhw)
            && (t.day >= 0 && r.hour != t.hour ==> r.hourTotal == 0.0 && r.hourDhw == 0.0)
            && (t.day < 0 ==> r.hours == Zeros(HOURS) && r.hoursDhw == Zeros(HOURS) && r.hourTotal == 0.0 && r.hourDhw == 0.0)
  {
    if t.day >= 0 && clock / 3600 != t.hour {
      SumUpdate(t.hours, t.hour % 24, t.hourTotal);
      SumUpdate(t.hoursDhw, t.hour % 24, t.hourDhw);
    }
  }

  lemma {:induction false} NewestAfterPush(r: Ring, e: DayEntry)
    requires RingShaped(r)
    ensures Push(r, e).count > 0 && Newest(Push(r, e)) == e
  {}

  lemma {:induction false} HourOfDay(clock: int)
    requires clock >= 0
    ensures clock / 3600 / 24 == clock / SECONDS_PER_DAY
  {}

  /** One execution keeps every bucket conserved, provided the two readings of the wall clock fall on
      the same day. The rollover rests on the hourly step running first: it has filed the last hour
      before the day's hours are moved to yesterday. */
  lemma {:induction false} ExecuteConserves(m: Ram, i: Input)
    requires Conserved(m) && Shaped(m)
    requires i.hourlyClock >= 0 && i.dailyClock >= 0
    requires i.hourlyClock / SECONDS_PER_DAY == i.dailyClock / SECONDS_PER_DAY
    ensures Conserved(Execute(m, i))
  {
    if m.lastMs != 0 {
      var dv := Volume(m, i);
      VolumeNotNegative(m, i);
      AddVolumeConserves(m.today, dv, i.dhw);
      var t := AddVolume(m.today, dv, i.dhw);
      if i.synced {
        HourlyConserves(t, i.hourlyClock);
        HourOfDay(i.hourlyClock);
        DailyConserves(m.(today := Hourly(t, i.hourlyClock), integral := m.integral + dv, lastMs := i.nowMs), i.dailyClock);
      }
    }
  }

  lemma {:induction false} DailyConserves(m: Ram, clock: int)
    requires Shaped(m) && HistoryConserved(m.history) && clock >= 0
    requires var t := m.today;
             && Split(t.hours, t.hoursDhw) && 0.0 <= t.hourDhw <= t.hourTotal && 0.0 <= t.dhw <= t.total
             && t.hour >= 0 && t.hour / 24 == clock / SECONDS_PER_DAY
             && (t.day >= 0 ==> t.total == Sum(t.hours) + t.hourTotal && t.dhw == Sum(t.hoursDhw) + t.hourDhw)
             && (t.day >= 0 && t.day != t.hour / 24 ==> t.hourTotal == 0.0 && t.hourDhw == 0.0)
             && (t.day < 0 ==> t.hours == Zeros(HOURS) && t.hoursDhw == Zeros(HOURS) && t.hourTotal == 0.0 && t.hourDhw == 0.0)
    ensures Conserved(Daily(m, clock))
  {
    SumZeros(HOURS);
    var t := m.today;
    NewestAfterPush(m.history.ring, DayEntry(t.day, t.total, t.dhw));
    hide Push, Newest, Sum;
  }

  // ---------------------------------------------------------------- a midnight between the two readings

  /** The sums alone, whichever hour is the current one. */
  ghost predicate SumsHold(m: Ram)
    requires Shaped(m)
  {
    && (m.today.day >= 0 ==>
          && m.today.total == Sum(m.today.hours) + m.today.hourTotal
          && m.today.dhw == Sum(m.today.hoursDhw) + m.today.hourDhw)
    && (m.history.yesterday >= 0 ==>
          && m.history.ring.count > 0
          && Newest(m.history.ring)
             == DayEntry(m.history.yesterday, Sum(m.history.hours), Sum(m.history.hoursDhw)))
  }

  /** Where the current hour's gas goes, as the two readings fall: it stays the current hour of the tracked
      day; or it is filed under the day it belongs to; or that day is closed without a yesterday. */
  predicate HourKept(t: Today, hour: int, day: int) {
    if hour == t.hour then day == t.day
    else t.hour / 24 == t.day || (day != t.day && day != t.day + 1)
  }

  /** The sums of the day after the hourly step, and what of the current hour is missing from them. */
  lemma {:induction false} HourlyMisses(t: Today, clock: int)
    requires |t.hours| == HOURS && |t.hoursDhw| == HOURS && t.hour >= 0 && clock >= 0
    requires t.total == Sum(t.hours) + t.hourTotal && t.dhw == Sum(t.hoursDhw) + t.hourDhw
    ensures var r := Hourly(t, clock);
            var filed := clock / 3600 != t.hour && t.hour / 24 == t.day;
            && r.day == t.day && r.total == t.total && r.dhw == t.dhw
            && |r.hours| == HOURS && |r.hoursDhw| == HOURS
            && r.total == Sum(r.hours) + (if filed then 0.0 else t.hourTotal)
            && r.dhw == Sum(r.hoursDhw) + (if filed then 0.0 else t.hourDhw)
            && r.hourTotal == (if clock / 3600 == t.hour then t.hourTotal else 0.0)
            && r.hourDhw == (if clock / 3600 == t.hour then t.hourDhw else 0.0)
  {
    if clock / 3600 != t.hour && t.hour / 24 == t.day {
      SumUpdate(t.hours, t.hour % 24, t.hourTotal);
      SumUpdate(t.hoursDhw, t.hour % 24, t.hourDhw);
    }
  }

  /** When the daily step keeps the sums. */
  lemma {:induction false} DailySums(m: Ram, clock: int)
    requires Shaped(m) && m.today.day >= 0 && clock >= 0
    requires m.history.yesterday >= 0 ==>
               && m.history.ring.count > 0
               && Newest(m.history.ring)
                  == DayEntry(m.history.yesterday, Sum(m.history.hours), Sum(m.history.hoursDhw))
    ensures var t := m.today;
            var day := clock / SECONDS_PER_DAY;
            SumsHold(Daily(m, clock)) <==>
            && (day == t.day ==>
                  t.total == Sum(t.hours) + t.hourTotal && t.dhw == Sum(t.hoursDhw) + t.hourDhw)
            && (day != t.day ==> t.hourTotal == 0.0 && t.hourDhw == 0.0)
            && (day == t.day + 1 ==> t.total == Sum(t.hours) && t.dhw == Sum(t.hoursDhw))
  {
    SumZeros(HOURS);
    NewestAfterPush(m.history.ring, DayEntry(m.today.day, m.today.total, m.today.dhw));
    hide Push, Newest, Sum, Zeros;
  }

  /** The exact law of one execution, from any state in which the sums hold: they hold afterwards if and only
      if the current hour has collected nothing or its gas is kept. */
  lemma {:induction false} SumsKeptIff(m: Ram, i: Input)
    requires Shaped(m) && SumsHold(m) && m.lastMs != 0 && i.synced
    requires m.today.day >= 0 && m.today.hour >= 0 && 0.0 <= m.today.hourDhw <= m.today.hourTotal
    requires 0 <= i.hourlyClock && 0 <= i.dailyClock
    ensures SumsHold(Execute(m, i)) <==>
            || m.today.hourTotal + Volume(m, i) == 0.0
            || HourKept(m.today, i.hourlyClock / 3600, i.dailyClock / SECONDS_PER_DAY)
  {
    var dv := Volume(m, i);
    VolumeNotNegative(m, i);
    var t := AddVolume(m.today, dv, i.dhw);
    HourlyMisses(t, i.hourlyClock);
    DailySums(m.(today := Hourly(t, i.hourlyClock), integral := m.integral + dv, lastMs := i.nowMs), i.dailyClock);
    hide Volume, Hourly, Daily, Sum, Newest;
  }

  /** From a conserved state that is: the sums survive if and only if no day ends in this execution, or the
      hour does too, or the hour has collected nothing. */
  lemma {:induction false} SumsSurviveIff(m: Ram, i: Input)
    requires Conserved(m) && Shaped(m) && m.today.day >= 0 && m.lastMs != 0 && i.synced
    requires 0 <= i.hourlyClock && 0 <= i.dailyClock
    ensures SumsHold(Execute(m, i)) <==>
            || i.dailyClock / SECONDS_PER_DAY == m.today.day
            || i.hourlyClock / 3600 != m.today.hour
            || m.today.hourTotal + Volume(m, i) == 0.0
  {
    SumsKeptIff(m, i);
  }

  // ---------------------------------------------------------------- what comes after

  predicate Steady(i: Input) {
    0 <= i.hourlyClock && 0 <= i.dailyClock && i.hourlyClock / SECONDS_PER_DAY == i.dailyClock / SECONDS_PER_DAY
  }

  function ExecuteAll(m: Ram, inputs: seq<Input>): (r: Ram)
    requires Shaped(m)
    ensures Shaped(r)
    decreases |inputs|
  {
    if inputs == [] then m else ExecuteAll(Execute(m, inputs[0]), inputs[1..])
  }

  /** The sums hold now and after any further executions, each with both readings on one day. */
  ghost predicate SumsLast(m: Ram)
    requires Shaped(m)
  {
    forall inputs :: (forall k :: 0 <= k < |inputs| ==> Steady(inputs[k])) ==> SumsHold(ExecuteAll(m, inputs))
  }

  lemma {:induction false} ConservedLasts(m: Ram, inputs: seq<Input>)
    requires Shaped(m) && Conserved(m) && forall k :: 0 <= k < |inputs| ==> Steady(inputs[k])
    ensures SumsHold(ExecuteAll(m, inputs))
    decreases |inputs|
  {
    if inputs != [] {
      ExecuteConserves(m, inputs[0]);
      hide Conserved, Execute;
      ConservedLasts(Execute(m, inputs[0]), inputs[1..]);
    }
  }

  /** A second's burn in the first hour of the tracked day. */
  function NextBurn(m: Ram): Input {
    var clock := m.today.day * SECONDS_PER_DAY;
    Input(m.lastMs + 1000, true, 1.0, false, true, clock, clock)
  }

  /** When the current hour is not of the tracked day, the next gas burnt is missing from the day's hours. */
  lemma {:induction false} StrayHourBreaks(m: Ram)
    requires Shaped(m) && SumsHold(m) && m.lastMs != 0
    requires m.today.day >= 0 && m.today.hour >= 0 && 0.0 <= m.today.hourDhw <= m.today.hourTotal
    requires m.today.hour / 24 != m.today.day
    ensures Steady(NextBurn(m)) && !SumsHold(Execute(m, NextBurn(m)))
  {
    var i := NextBurn(m);
    assert i.hourlyClock / 3600 == 24 * m.today.day && i.dailyClock / SECONDS_PER_DAY == m.today.day;
    assert Volume(m, i) > 0.0;
    SumsKeptIff(m, i);
  }

  /** Both readings on one day is what it takes for the sums to hold for good: if midnight passes between
      them, they break at once or with some later execution, however steady. */
  lemma {:induction false} SumsLastIffSameDay(m: Ram, i: Input)
    requires Conserved(m) && Shaped(m) && m.today.day >= 0 && m.lastMs != 0 && i.synced
    requires 0 <= i.hourlyClock && 0 <= i.dailyClock
    ensures SumsLast(Execute(m, i)) <==> i.hourlyClock / SECONDS_PER_DAY == i.dailyClock / SECONDS_PER_DAY
  {
    var r := Execute(m, i);
    if i.hourlyClock / SECONDS_PER_DAY == i.dailyClock / SECONDS_PER_DAY {
      ExecuteConserves(m, i);
      forall inputs | forall k :: 0 <= k < |inputs| ==> Steady(inputs[k]) ensures SumsHold(ExecuteAll(r, inputs)) {
        ConservedLasts(r, inputs);
      }
    } else {
      Straddled(m, i);
      BreaksLater(r);
    }
  }

  /** After such an execution the hour is not of the day. */
  lemma {:induction false} Straddled(m: Ram, i: Input)
    requires Conserved(m) && Shaped(m) && m.today.day >= 0 && m.lastMs != 0 && i.synced
    requires 0 <= i.hourlyClock && 0 <= i.dailyClock
    requires i.hourlyClock / SECONDS_PER_DAY != i.dailyClock / SECONDS_PER_DAY
    ensures var t := Execute(m, i).today;
            t.day >= 0 && t.hour >= 0 && t.hour / 24 != t.day && 0.0 <= t.hourDhw <= t.hourTotal
  {
    VolumeNotNegative(m, i);
    AddVolumeConserves(m.today, Volume(m, i), i.dhw);
    var t := AddVolume(m.today, Volume(m, i), i.dhw);
    HourlyConserves(t, i.hourlyClock);
    HourOfDay(i.hourlyClock);
    hide Volume, AddVolume, Hourly, Push;
  }

  lemma {:induction false} ExecuteOne(m: Ram, i: Input)
    requires Shaped(m)
    ensures ExecuteAll(m, [i]) == Execute(m, i)
  {
    assert [i][1..] == [] && ExecuteAll(Execute(m, i), []) == Execute(m, i);
  }

  lemma {:induction false} ExecuteFirst(m: Ram, i: Input, rest: seq<Input>)
    requires Shaped(m)
    ensures ExecuteAll(m, [i] + rest) == ExecuteAll(Execute(m, i), rest)
  {
    assert ([i] + rest)[1..] == rest;
  }

  lemma {:induction false} BreaksLater(m: Ram)
    requires Shaped(m) && m.today.day >= 0 && m.today.hour >= 0 && 0.0 <= m.today.hourDhw <= m.today.hourTotal
    requires m.today.hour / 24 != m.today.day
    ensures !SumsLast(m)
  {
    assert ExecuteAll(m, []) == m;
    if SumsHold(m) {
      var n := if m.lastMs == 0 then m.(lastMs := 1) else m;
      var i := NextBurn(n);
      var wake := i.(nowMs := 1);
      StrayHourBreaks(n);
      ExecuteOne(n, i);
      assert m.lastMs == 0 ==> Execute(m, wake) == n;
      ExecuteFirst(m, wake, [i]);
      hide Execute, SumsHold, ExecuteAll;
      var inputs := if m.lastMs == 0 then [wake] + [i] else [i];
      assert !SumsHold(ExecuteAll(m, inputs));
    }
  }

  /** And the day that was lost: across such a midnight yesterday's hours miss exactly what the last
      hour had collected. */
  lemma {:induction false} StraddledMidnightLosesTheLastHour(m: Ram, i: Input)
    requires Conserved(m) && Shaped(m) && m.today.day >= 0 && m.lastMs != 0 && i.synced
    requires i.hourlyClock / 3600 == m.today.hour && i.dailyClock / SECONDS_PER_DAY == m.today.day + 1
    ensures var r := Execute(m, i);
            var lastHour := m.today.hourTotal + Volume(m, i);
            && r.history.yesterday == m.today.day
            && Newest(r.history.ring).total == Sum(r.history.hours) + lastHour
  {}
}
