/** The ring of completed days, its stored form, and whole runs of the device with saves and reboots. */
module GasHistory {
  import opened Common
  import opened GasBuckets

  // ---------------------------------------------------------------- the ring

  /** The completed days, oldest first. */
  function RingView(r: Ring): (v: seq<DayEntry>)
    requires RingShaped(r)
    ensures |v| == r.count
    ensures forall i :: 0 <= i < r.count ==> v[i] == r.slots[Slot(r.head, i)]
  {
    seq(r.count, i requires 0 <= i < r.count => r.slots[Slot(r.head, i)])
  }

  lemma {:induction false} PushedSlot(r: Ring, e: DayEntry, i: nat)
    requires RingShaped(r) && i < Push(r, e).count
    ensures Push(r, e).slots[Slot(Push(r, e).head, i)] ==
            if i == Push(r, e).count - 1 then e
            else r.slots[Slot(r.head, if r.count < SLOTS then i else i + 1)]
  {}

  /** Archiving a day appends it, and only the newest 64 are kept. */
  lemma {:induction false} PushAppends(r: Ring, e: DayEntry)
    requires RingShaped(r)
    ensures RingView(Push(r, e)) == Last(RingView(r) + [e], SLOTS)
  {
    var a, b := RingView(Push(r, e)), Last(RingView(r) + [e], SLOTS);
    assert |a| == |b|;
    forall i | 0 <= i < |a| ensures a[i] == b[i] {
      PushedSlot(r, e, i);
      hide Slot, Push;
    }
  }

  // ---------------------------------------------------------------- the stored form

  datatype TodayBlob = TodayBlob(
    day: int, total: real, dhw: real,
    hours: seq<real>, hoursDhw: seq<real>,
    currentHour: int, hourTotal: real, hourDhw: real)

  datatype HistoryBlob = HistoryBlob(
    daily: seq<DayEntry>, head: int, count: int,
    yesterday: int, hours: seq<real>, hoursDhw: seq<real>)

  predicate TodayBlobShaped(b: TodayBlob) {
    |b.hours| == HOURS && |b.hoursDhw| == HOURS
  }

  predicate HistoryBlobShaped(b: HistoryBlob) {
    |b.daily| == SLOTS && |b.hours| == HOURS && |b.hoursDhw| == HOURS
  }

  /** The bucket of the current hour, if it belongs to the tracked day. */
  function CurrentHour(t: Today): (h: int)
    ensures -1 <= h < HOURS
  {
    if t.hour >= 0 && t.hour / 24 == t.day then t.hour % 24 else -1
  }

  function PackToday(t: Today): TodayBlob {
    TodayBlob(t.day, t.total, t.dhw, t.hours, t.hoursDhw, CurrentHour(t), t.hourTotal, t.hourDhw)
  }

  function LoadToday(b: TodayBlob): Today {
    var known := b.day >= 0 && 0 <= b.currentHour < HOURS;
    Today(b.day, b.total, b.dhw, b.hours, b.hoursDhw,
          if known then b.day * 24 + b.currentHour else -1,
          if known then b.hourTotal else 0.0,
          if known then b.hourDhw else 0.0)
  }

  /** The ring is stored unrolled: the oldest day first, whatever the head. */
  function PackHistory(h: History): HistoryBlob
    requires RingShaped(h.ring)
  {
    HistoryBlob(RingView(h.ring) + seq(SLOTS - h.ring.count, _ => NO_ENTRY), h.ring.head, h.ring.count,
                h.yesterday, h.hours, h.hoursDhw)
  }

  function LoadedHead(head: int): int {
    var h := Rem(head, SLOTS);
    if h < 0 then h + SLOTS else h
  }

  function LoadedCount(count: int): int {
    if count < 0 then 0 else if count > SLOTS then SLOTS else count
  }

  /** Copies the stored days into place from the stored head on; other slots keep what they held. */
  function LoadRing(mem: seq<DayEntry>, daily: seq<DayEntry>, head: int, count: int): (r: Ring)
    requires |mem| == SLOTS && |daily| == SLOTS
    requires 0 <= head < SLOTS && 0 <= count <= SLOTS
    ensures RingShaped(r)
  {
    Ring(seq(SLOTS, k requires 0 <= k < SLOTS =>
               var i := if k >= head then k - head else k - head + SLOTS;
               if i < count then daily[i] else mem[k]),
         head, count)
  }

  lemma {:induction false} LoadedHeadInRange(head: int)
    ensures 0 <= LoadedHead(head) < SLOTS
    ensures LoadedHead(head) == head % SLOTS
  {}

  function LoadHistory(mem: seq<DayEntry>, b: HistoryBlob): (h: History)
    requires |mem| == SLOTS && HistoryBlobShaped(b)
    ensures RingShaped(h.ring)
  {
    LoadedHeadInRange(b.head);
    History(LoadRing(mem, b.daily, LoadedHead(b.head), LoadedCount(b.count)), b.yesterday, b.hours, b.hoursDhw)
  }

  /** Whatever head and count were stored, even out of range, loading shows the first days of the blob
      in order: as many as the count says, none for a negative one and at most 64. */
  lemma {:induction false} LoadedView(mem: seq<DayEntry>, b: HistoryBlob)
    requires |mem| == SLOTS && HistoryBlobShaped(b)
    ensures RingView(LoadHistory(mem, b).ring)
         == b.daily[..if b.count < 0 then 0 else if b.count < 64 then b.count else 64]
  {}

  /** Saving the history and loading it back, into any memory, preserves every completed day in order,
      yesterday's hours, and the head and count themselves. */
  lemma {:induction false} HistoryRoundTrip(mem: seq<DayEntry>, h: History)
    requires |mem| == SLOTS && RingShaped(h.ring) && |h.hours| == |h.hoursDhw| == HOURS
    ensures var b := PackHistory(h);
            var q := LoadHistory(mem, b);
            && RingView(q.ring) == RingView(h.ring)
            && q.ring.head == h.ring.head && q.ring.count == h.ring.count
            && q == h.(ring := q.ring)
  {
    var b := PackHistory(h);
    LoadedView(mem, b);
    LoadedHeadInRange(b.head);
    assert b.daily[..h.ring.count] == RingView(h.ring);
    hide LoadedHead;
  }

  /** The running day comes back unchanged exactly when its hour belongs to it, or when neither is
      known yet and the hour is empty. */
  lemma {:induction false} TodayRoundTrip(t: Today)
    ensures LoadToday(PackToday(t)) == t <==>
            (t.hour >= 0 && t.hour / 24 == t.day) || (t.hour == -1 && t.hourTotal == t.hourDhw == 0.0)
  {}

  /** Whatever a stored running day says, the hour it loads is one of its own day, or else unknown and empty. */
  lemma {:induction false} LoadedHourBelongs(b: TodayBlob)
    ensures var t := LoadToday(b);
            && (t.hour >= 0 <==> b.day >= 0 && 0 <= b.currentHour <= 23)
            && (t.hour >= 0 ==> t.hour / 24 == t.day == b.day && t.hour % 24 == b.currentHour
                                && t.hourTotal == b.hourTotal && t.hourDhw == b.hourDhw)
            && (t.hour < 0 ==> t.hour == -1 && t.hourTotal == t.hourDhw == 0.0)
  {}

  // ---------------------------------------------------------------- the device

  /** Flash: the two gas blobs. */
  datatype Nvs = Nvs(today: Option<TodayBlob>, history: Option<HistoryBlob>)

  datatype Device = Device(ram: Ram, nvs: Nvs)

  /** What can happen: one execution, a meter correction (it sets the integral only), the periodic
      save, and a reboot, which restores the integral from elsewhere. */
  datatype Event = Tick(i: Input) | Correction(integral: real) | Save | Reboot(integral: real)

  predicate NvsShaped(n: Nvs) {
    && (n.today.Some? ==> TodayBlobShaped(n.today.value))
    && (n.history.Some? ==> HistoryBlobShaped(n.history.value))
  }

  predicate DeviceShaped(d: Device) {
    Shaped(d.ram) && NvsShaped(d.nvs)
  }

  /** Start-up: fresh memory, then whatever the store holds. */
  function Boot(n: Nvs, integral: real): (m: Ram)
    requires NvsShaped(n)
    ensures Shaped(m)
  {
    Fresh().(
      today := if n.today.Some? then LoadToday(n.today.value) else FreshToday(),
      history := if n.history.Some? then LoadHistory(FreshHistory().ring.slots, n.history.value) else FreshHistory(),
      integral := integral)
  }

  /** The running day is written every time, the completed days only when they have changed. */
  function SaveAll(d: Device): (e: Device)
    requires DeviceShaped(d)
    ensures DeviceShaped(e)
  {
    Device(d.ram.(dirty := false),
           Nvs(Some(PackToday(d.ram.today)),
               if d.ram.dirty then Some(PackHistory(d.ram.history)) else d.nvs.history))
  }

  function After(d: Device, e: Event): (r: Device)
    requires DeviceShaped(d)
    ensures DeviceShaped(r)
  {
    match e
    case Tick(i) => d.(ram := Execute(d.ram, i))
    case Correction(x) => d.(ram := d.ram.(integral := x))
    case Save => SaveAll(d)
    case Reboot(x) => d.(ram := Boot(d.nvs, x))
  }

  function Run(d: Device, events: seq<Event>): (r: Device)
    requires DeviceShaped(d)
    ensures DeviceShaped(r)
    decreases |events|
  {
    if events == [] then d else Run(After(d, events[0]), events[1..])
  }

  function Factory(): (d: Device)
    ensures DeviceShaped(d)
  {
    Device(Fresh(), Nvs(None, None))
  }

  // ---------------------------------------------------------------- conservation over runs

  /** The clock readings of one tick fall on the same day, and the clock is not before 1970. */
  predicate SteadyTick(e: Event) {
    e.Tick? ==> 0 <= e.i.hourlyClock && 0 <= e.i.dailyClock &&
                e.i.hourlyClock / SECONDS_PER_DAY == e.i.dailyClock / SECONDS_PER_DAY
  }

  /** Buckets add up in memory, and would add up after a reboot. */
  ghost predicate AllConserved(d: Device) {
    DeviceShaped(d) && Conserved(d.ram) && Conserved(Boot(d.nvs, 0.0))
  }

  lemma {:induction false} SavedHistoryConserved(h: History)
    requires HistoryConserved(h)
    ensures HistoryConserved(LoadHistory(FreshHistory().ring.slots, PackHistory(h)))
  {}

  lemma {:induction false} SavedTodayConserved(t: Today)
    requires TodayConserved(t)
    ensures TodayConserved(LoadToday(PackToday(t)))
  {}

  lemma {:induction false} StepConserves(d: Device, e: Event)
    requires AllConserved(d) && SteadyTick(e)
    ensures AllConserved(After(d, e))
  {
    match e
    case Tick(i) => ExecuteConserves(d.ram, i);
    case Correction(_) =>
    case Reboot(_) =>
    case Save =>
      SavedTodayConserved(d.ram.today);
      SavedHistoryConserved(d.ram.history);
      hide TodayConserved, HistoryConserved, LoadToday, PackToday, LoadHistory, PackHistory;
  }

  /** In every run from factory state, over any ticks, clock losses, corrections, saves and reboots, the
      tracked day's total is the sum of its hours, likewise its hot-water part, and yesterday's hours
      add up to the newest archived day. */
  lemma {:induction false} EveryRunConserves(events: seq<Event>)
    requires forall e :: e in events ==> SteadyTick(e)
    ensures Conserved(Run(Factory(), events).ram)
  {
    FreshConserved();
    RunConserves(Factory(), events);
  }

  lemma {:induction false} RunConserves(d: Device, events: seq<Event>)
    requires AllConserved(d)
    requires forall e :: e in events ==> SteadyTick(e)
    ensures AllConserved(Run(d, events))
    decreases |events|
  {
    if events != [] {
      StepConserves(d, events[0]);
      hide AllConserved, After, SteadyTick;
      RunConserves(After(d, events[0]), events[1..]);
    }
  }

  // ---------------------------------------------------------------- no completed day is lost

  /** The specification of the history: the list of all days ever completed, the part of it a reboot
      would come back to, and nothing about rings, blobs or flags. */
  datatype Ledger = Ledger(days: seq<DayEntry>, saved: seq<DayEntry>)

  /** The day that an execution completes, if any. */
  function Completed(m: Ram, i: Input): seq<DayEntry>
    requires Shaped(m)
  {
    if m.lastMs != 0 && i.synced && m.today.day >= 0 && Div(i.dailyClock, SECONDS_PER_DAY) != m.today.day then
      var t := AddVolume(m.today, Volume(m, i), i.dhw);
      [DayEntry(t.day, t.total, t.dhw)]
    else []
  }

  function Record(g: Ledger, d: Device, e: Event): Ledger
    requires DeviceShaped(d)
  {
    match e
    case Tick(i) => g.(days := g.days + Completed(d.ram, i))
    case Correction(_) => g
    case Save => g.(saved := g.days)
    case Reboot(_) => g.(days := g.saved)
  }

  function RunLedger(g: Ledger, d: Device, events: seq<Event>): Ledger
    requires DeviceShaped(d)
    decreases |events|
  {
    if events == [] then g else RunLedger(Record(g, d, events[0]), After(d, events[0]), events[1..])
  }

  /** The ring shows the newest 64 days; flash holds the newest 64 of the saved ones; and when the
      dirty flag is down, flash is up to date. */
  ghost predicate Tracks(d: Device, g: Ledger) {
    && DeviceShaped(d)
    && RingView(d.ram.history.ring) == Last(g.days, SLOTS)
    && RingView(Boot(d.nvs, 0.0).history.ring) == Last(g.saved, SLOTS)
    && (!d.ram.dirty ==> Last(g.days, SLOTS) == Last(g.saved, SLOTS))
  }

  lemma {:induction false} DailyAppends(m: Ram, clock: int)
    requires Shaped(m)
    ensures var r := Daily(m, clock);
            var done := m.today.day >= 0 && Div(clock, SECONDS_PER_DAY) != m.today.day;
            && RingView(r.history.ring) ==
               (if done then Last(RingView(m.history.ring) + [DayEntry(m.today.day, m.today.total, m.today.dhw)], SLOTS)
                else RingView(m.history.ring))
            && r.dirty == (m.dirty || done)
  {
    PushAppends(m.history.ring, DayEntry(m.today.day, m.today.total, m.today.dhw));
    hide Push, Last, RingView;
  }

  lemma {:induction false} ExecuteAppends(m: Ram, i: Input)
    requires Shaped(m)
    ensures var r := Execute(m, i);
            && RingView(r.history.ring) == Last(RingView(m.history.ring) + Completed(m, i), SLOTS)
            && r.dirty == (m.dirty || Completed(m, i) != [])
  {
    var view := RingView(m.history.ring);
    assert view + [] == view;
    LastOfView(m.history.ring);
    if m.lastMs != 0 && i.synced {
      var t := AddVolume(m.today, Volume(m, i), i.dhw);
      assert t.day == m.today.day;
      var n := m.(today := Hourly(t, i.hourlyClock), integral := m.integral + Volume(m, i), lastMs := i.nowMs);
      assert n.today.day == t.day && n.today.total == t.total && n.today.dhw == t.dhw;
      DailyAppends(n, i.dailyClock);
      hide Volume, Daily, AddVolume, Last, RingView, Hourly;
    }
  }

  lemma {:induction false} StepTracks(d: Device, g: Ledger, e: Event)
    requires Tracks(d, g)
    ensures Tracks(After(d, e), Record(g, d, e))
  {
    match e
    case Tick(i) =>
      ExecuteAppends(d.ram, i);
      var done := Completed(d.ram, i);
      hide Execute, Completed, Boot, Last;
      if done == [] {
        assert g.days + done == g.days;
        assert RingView(d.ram.history.ring) + done == RingView(d.ram.history.ring);
        LastOfView(d.ram.history.ring);
      } else {
        assert done == [done[0]] by { CompletesAtMostOne(d.ram, i); }
        LastOfLast(g.days, [done[0]], SLOTS);
      }
    case Correction(_) =>
    case Reboot(_) =>
    case Save =>
      HistoryRoundTrip(FreshHistory().ring.slots, d.ram.history);
      hide PackToday, LoadToday, LoadHistory, PackHistory, RingView, Last;
  }

  lemma {:induction false} CompletesAtMostOne(m: Ram, i: Input)
    requires Shaped(m)
    ensures |Completed(m, i)| <= 1
  {}

  lemma {:induction false} LastOfView(r: Ring)
    requires RingShaped(r)
    ensures Last(RingView(r), SLOTS) == RingView(r)
  {}

  lemma {:induction false} RunTracks(d: Device, g: Ledger, events: seq<Event>)
    requires Tracks(d, g)
    ensures Tracks(Run(d, events), RunLedger(g, d, events))
    decreases |events|
  {
    if events != [] {
      StepTracks(d, g, events[0]);
      hide Tracks, After, Record;
      RunTracks(After(d, events[0]), Record(g, d, events[0]), events[1..]);
    }
  }

  /** In every run from factory state the ring holds exactly the newest 64 completed days, oldest
      first, where a reboot only ever forgets days completed since the last save: writing the history
      only when the dirty flag is up loses nothing. */
  lemma {:induction false} EveryRunKeepsNewestDays(events: seq<Event>)
    ensures RingView(Run(Factory(), events).ram.history.ring)
            == Last(RunLedger(Ledger([], []), Factory(), events).days, SLOTS)
  {
    RunTracks(Factory(), Ledger([], []), events);
  }

  // ---------------------------------------------------------------- what a reboot comes back to

  predicate SameHistory(a: History, b: History)
    requires RingShaped(a.ring) && RingShaped(b.ring)
  {
    RingView(a.ring) == RingView(b.ring) && a.yesterday == b.yesterday && a.hours == b.hours && a.hoursDhw == b.hoursDhw
  }

  /** When the dirty flag is down, flash has the history as it is in memory. */
  ghost predicate UpToDate(d: Device) {
    DeviceShaped(d) && (!d.ram.dirty ==> SameHistory(Boot(d.nvs, 0.0).history, d.ram.history))
  }

  lemma {:induction false} StepUpToDate(d: Device, e: Event)
    requires UpToDate(d)
    ensures UpToDate(After(d, e))
  {
    hide RingView, LoadHistory, PackHistory, PackToday, LoadToday, Volume, AddVolume, Hourly, Push, Zeros;
    if e.Save? {
      HistoryRoundTrip(FreshHistory().ring.slots, d.ram.history);
    }
  }

  lemma {:induction false} RunUpToDate(d: Device, events: seq<Event>)
    requires UpToDate(d)
    ensures UpToDate(Run(d, events))
    decreases |events|
  {
    if events != [] {
      StepUpToDate(d, events[0]);
      hide UpToDate, After;
      RunUpToDate(After(d, events[0]), events[1..]);
    }
  }

  lemma {:induction false} FlashIsKept(d: Device, events: seq<Event>)
    requires DeviceShaped(d) && forall e :: e in events ==> e.Tick? || e.Correction?
    ensures Run(d, events).nvs == d.nvs
    decreases |events|
  {
    hide Execute;
    if events != [] {
      assert events[0] in events;
      FlashIsKept(After(d, events[0]), events[1..]);
    }
  }

  /** In every run, a reboot comes back to the last save, whatever happened since: to its completed days and
      its yesterday, and to its running day with the current hour; before the clock was synced, without
      what that hour had collected. The integral is the one restored from elsewhere. */
  lemma {:induction false} RebootComesBackToTheSave(events: seq<Event>, since: seq<Event>, integral: real)
    requires forall e :: e in events ==> SteadyTick(e)
    requires forall e :: e in since ==> e.Tick? || e.Correction?
    ensures var d := Run(Factory(), events);
            var m := After(Run(After(d, Save), since), Reboot(integral)).ram;
            && SameHistory(m.history, d.ram.history)
            && m.today == (if d.ram.today.day >= 0 then d.ram.today
                           else d.ram.today.(hour := -1, hourTotal := 0.0, hourDhw := 0.0))
            && m.integral == integral && m.lastMs == 0 && !m.dirty
  {
    var d := Run(Factory(), events);
    var s := After(d, Save);
    EveryRunConserves(events);
    RunUpToDate(Factory(), events);
    StepUpToDate(d, Save);
    FlashIsKept(s, since);
    TodayRoundTrip(d.ram.today);
    hide Run, SameHistory, LoadHistory, PackHistory, HistoryConserved, Factory;
  }

  // ---------------------------------------------------------------- the order of the days

  ghost predicate Increasing(days: seq<DayEntry>, limit: int) {
    && (forall i, j :: 0 <= i < j < |days| ==> days[i].epochDay < days[j].epochDay)
    && (forall i :: 0 <= i < |days| ==> 0 <= days[i].epochDay < limit)
  }

  ghost predicate Chronological(m: Ram) {
    Shaped(m) && Increasing(RingView(m.history.ring), m.today.day)
  }

  /** As long as the wall clock does not go back past the tracked day, the chart lists each day once,
      in order, and all of them before today. */
  lemma {:induction false} ExecuteKeepsOrder(m: Ram, i: Input)
    requires Chronological(m)
    requires i.dailyClock >= 0 && i.dailyClock / SECONDS_PER_DAY >= m.today.day
    ensures Chronological(Execute(m, i))
  {
    hide Execute, Completed, RingView, Last;
    ExecuteAppends(m, i);
    DayMovesOn(m, i);
    CompletedDay(m, i);
  }

  lemma {:induction false} DayMovesOn(m: Ram, i: Input)
    requires Shaped(m) && i.dailyClock >= 0 && i.dailyClock / SECONDS_PER_DAY >= m.today.day
    ensures Execute(m, i).today.day >= m.today.day
    ensures Completed(m, i) != [] ==> Execute(m, i).today.day > m.today.day
  {
    hide Volume, Push;
  }

  lemma {:induction false} CompletedDay(m: Ram, i: Input)
    requires Shaped(m)
    ensures |Completed(m, i)| <= 1
    ensures forall e :: e in Completed(m, i) ==> e.epochDay == m.today.day >= 0
  {}

  // ---------------------------------------------------------------- the charts

  /** The daily chart: completed days, then today if there is room. */
  function DailyChart(m: Ram, max: int): seq<DayEntry>
    requires Shaped(m)
  {
    var view := RingView(m.history.ring);
    var n := if max < 0 then 0 else if max < |view| then max else |view|;
    view[..n] + (if n < max && m.today.day >= 0 then [DayEntry(m.today.day, m.today.total, m.today.dhw)] else [])
  }

  datatype HourEntry = HourEntry(epochHour: int, total: real, dhw: real)

  function YesterdayChart(h: History): (s: seq<HourEntry>)
    requires |h.hours| == |h.hoursDhw| == HOURS
  {
    if h.yesterday < 0 then [] else
    seq(HOURS, k requires 0 <= k < HOURS => HourEntry(h.yesterday * 24 + k, h.hours[k], h.hoursDhw[k]))
  }

  function TodayChart(t: Today): (s: seq<HourEntry>)
    requires |t.hours| == |t.hoursDhw| == HOURS
  {
    if t.day < 0 then [] else
    seq(HOURS, k requires 0 <= k < HOURS =>
      HourEntry(t.day * 24 + k,
                t.hours[k] + (if k == CurrentHour(t) then t.hourTotal else 0.0),
                t.hoursDhw[k] + (if k == CurrentHour(t) then t.hourDhw else 0.0)))
  }

  lemma {:induction false} ChartSizes(h: History, t: Today)
    requires |h.hours| == |h.hoursDhw| == |t.hours| == |t.hoursDhw| == HOURS
    ensures |YesterdayChart(h)| == (if h.yesterday < 0 then 0 else HOURS)
    ensures |TodayChart(t)| == (if t.day < 0 then 0 else HOURS)
  {}

  lemma {:induction false} YesterdayBar(h: History, k: nat)
    requires |h.hours| == |h.hoursDhw| == HOURS && h.yesterday >= 0 && k < HOURS
    ensures |YesterdayChart(h)| == HOURS
    ensures YesterdayChart(h)[k] == HourEntry(h.yesterday * 24 + k, h.hours[k], h.hoursDhw[k])
  {}

  lemma {:induction false} TodayBar(t: Today, k: nat)
    requires |t.hours| == |t.hoursDhw| == HOURS && t.day >= 0 && k < HOURS
    ensures |TodayChart(t)| == HOURS
    ensures TodayChart(t)[k] ==
            HourEntry(t.day * 24 + k,
                      t.hours[k] + (if k == CurrentHour(t) then t.hourTotal else 0.0),
                      t.hoursDhw[k] + (if k == CurrentHour(t) then t.hourDhw else 0.0))
  {}

  /** The hourly chart, cut at `max` bars. */
  function HourlyChart(m: Ram, max: int): seq<HourEntry>
    requires Shaped(m)
  {
    var bars := YesterdayChart(m.history) + TodayChart(m.today);
    if max < 0 then [] else if max < |bars| then bars[..max] else bars
  }

  lemma {:induction false} CutChart(m: Ram, max: int, n: nat, k: nat)
    requires Shaped(m)
    requires var first, second := YesterdayChart(m.history), TodayChart(m.today);
             && n <= |first| && k <= |second| && (k > 0 ==> n == |first|) && (n + k <= max || n + k == 0)
             && (n + k < max ==> n == |first| && k == |second|)
    ensures YesterdayChart(m.history)[..n] + TodayChart(m.today)[..k] == HourlyChart(m, max)
  {
    hide YesterdayChart, TodayChart;
  }

  function Totals(bars: seq<HourEntry>): (s: seq<real>)
    ensures |s| == |bars| && forall k :: 0 <= k < |bars| ==> s[k] == bars[k].total
  {
    seq(|bars|, k requires 0 <= k < |bars| => bars[k].total)
  }

  function DhwTotals(bars: seq<HourEntry>): (s: seq<real>)
    ensures |s| == |bars| && forall k :: 0 <= k < |bars| ==> s[k] == bars[k].dhw
  {
    seq(|bars|, k requires 0 <= k < |bars| => bars[k].dhw)
  }

  lemma {:induction false} TodayBars(t: Today)
    requires |t.hours| == |t.hoursDhw| == HOURS && t.day >= 0
    ensures |TodayChart(t)| == HOURS
    ensures forall k :: 0 <= k < HOURS ==> TodayChart(t)[k].epochHour == t.day * 24 + k
    ensures forall k :: 0 <= k < HOURS ==>
              TodayChart(t)[k].total == (if k == CurrentHour(t) then t.hours[k] + t.hourTotal else t.hours[k])
    ensures forall k :: 0 <= k < HOURS ==>
              TodayChart(t)[k].dhw == (if k == CurrentHour(t) then t.hoursDhw[k] + t.hourDhw else t.hoursDhw[k])
  {}

  /** In every state what the current hour has collected stands in the bar of that hour and in no other: in
      none of them, if it is not an hour of the tracked day. */
  lemma {:induction false} HourStandsInItsBar(t: Today, k: nat)
    requires |t.hours| == |t.hoursDhw| == HOURS && t.day >= 0 && k < HOURS
    ensures |TodayChart(t)| == HOURS
    ensures var bar := TodayChart(t)[k];
            var mine := bar.epochHour == t.hour;
            && bar.epochHour == 24 * t.day + k
            && bar.total == t.hours[k] + (if mine then t.hourTotal else 0.0)
            && bar.dhw == t.hoursDhw[k] + (if mine then t.hourDhw else 0.0)
  {
    TodayBar(t, k);
    hide TodayChart;
  }

  /** The two charts agree: today's hourly bars add up to today's daily bar, and yesterday's to the
      newest completed day. */
  lemma {:induction false} ChartsAgree(m: Ram)
    requires Shaped(m) && Conserved(m)
    ensures m.today.day >= 0 ==>
              && Sum(Totals(TodayChart(m.today))) == m.today.total
              && Sum(DhwTotals(TodayChart(m.today))) == m.today.dhw
    ensures m.history.yesterday >= 0 ==>
              && Sum(Totals(YesterdayChart(m.history))) == Newest(m.history.ring).total
              && Sum(DhwTotals(YesterdayChart(m.history))) == Newest(m.history.ring).dhw
  {
    var t, h := m.today, m.history;
    if t.day >= 0 {
      var k := t.hour % 24;
      SumUpdate(t.hours, k, t.hourTotal);
      SumUpdate(t.hoursDhw, k, t.hourDhw);
      assert CurrentHour(t) == k;
      TodayBars(t);
      hide TodayChart;
      assert Totals(TodayChart(t)) == t.hours[k := t.hours[k] + t.hourTotal];
      assert DhwTotals(TodayChart(t)) == t.hoursDhw[k := t.hoursDhw[k] + t.hourDhw];
    }
    if h.yesterday >= 0 {
      assert Totals(YesterdayChart(h)) == h.hours;
      assert DhwTotals(YesterdayChart(h)) == h.hoursDhw;
    }
  }

  /** What one can read off the daily view, over every run of steady ticks and for every size: its first entries
      are the newest 64 days ever completed, oldest first; then comes the tracked day, if there is one and
      room for it, with the sums of its hourly bars; and it is cut only for want of room. */
  lemma {:induction false} DailyViewOverRuns(events: seq<Event>, max: int)
    requires forall e :: e in events ==> SteadyTick(e)
    ensures var m := Run(Factory(), events).ram;
            var kept := Last(RunLedger(Ledger([], []), Factory(), events).days, SLOTS);
            var view := DailyChart(m, max);
            var all := |kept| + if m.today.day >= 0 then 1 else 0;
            && |view| == (if max < 0 then 0 else if max < all then max else all)
            && (forall i :: 0 <= i < |view| && i < |kept| ==> view[i] == kept[i])
            && (|view| > |kept| ==>
                  && view[|kept|].epochDay == m.today.day
                  && view[|kept|].total == Sum(Totals(TodayChart(m.today)))
                  && view[|kept|].dhw == Sum(DhwTotals(TodayChart(m.today)))
                  && 0.0 <= view[|kept|].dhw <= view[|kept|].total)
  {
    EveryRunKeepsNewestDays(events);
    EveryRunConserves(events);
    var m := Run(Factory(), events).ram;
    ChartsAgree(m);
    DailyChartParts(m, max);
    hide Run, RunLedger, Last, TodayChart, Totals, DhwTotals, Sum, RingView, DailyChart, HistoryConserved;
  }

  lemma {:induction false} DailyChartParts(m: Ram, max: int)
    requires Shaped(m)
    ensures var kept, view := RingView(m.history.ring), DailyChart(m, max);
            var all := |kept| + if m.today.day >= 0 then 1 else 0;
            && |view| == (if max < 0 then 0 else if max < all then max else all)
            && (forall i :: 0 <= i < |view| && i < |kept| ==> view[i] == kept[i])
            && (|view| > |kept| ==> view[|kept|] == DayEntry(m.today.day, m.today.total, m.today.dhw))
  {}

  /** The bars of one day: 24 consecutive hours that add up to the day. */
  ghost predicate DayBars(bars: seq<HourEntry>, day: int, total: real, dhw: real) {
    && |bars| == HOURS
    && (forall k :: 0 <= k < HOURS ==> bars[k].epochHour == day * 24 + k && 0.0 <= bars[k].dhw <= bars[k].total)
    && Sum(Totals(bars)) == total && Sum(DhwTotals(bars)) == dhw
  }

  /** And off the hourly view: the bars of yesterday, if there is one, which is then the newest day completed,
      followed by those of the tracked day, if there is one; cut only for want of room. */
  lemma {:induction false} HourlyViewOverRuns(events: seq<Event>, max: int)
    returns (first: seq<HourEntry>, second: seq<HourEntry>)
    requires forall e :: e in events ==> SteadyTick(e)
    ensures var m := Run(Factory(), events).ram;
            var days := RunLedger(Ledger([], []), Factory(), events).days;
            var view, bars := HourlyChart(m, max), first + second;
            && |view| == (if max < 0 then 0 else if max < |bars| then max else |bars|) && view == bars[..|view|]
            && (if m.history.yesterday < 0 then first == []
                else
                  && days != [] && days[|days| - 1].epochDay == m.history.yesterday
                  && DayBars(first, m.history.yesterday, days[|days| - 1].total, days[|days| - 1].dhw))
            && (if m.today.day < 0 then second == []
                else DayBars(second, m.today.day, m.today.total, m.today.dhw))
  {
    hide Run, RunLedger, TodayChart, YesterdayChart, HourlyChart, DayBars, RingView, Newest, Conserved, Last;
    EveryRunKeepsNewestDays(events);
    EveryRunConserves(events);
    var m := Run(Factory(), events).ram;
    first, second := YesterdayChart(m.history), TodayChart(m.today);
    HourlyParts(m, max);
    BarsOfDays(m);
    if m.history.yesterday >= 0 {
      NewestInView(m.history.ring);
    }
  }

  lemma {:induction false} NewestInView(r: Ring)
    requires RingShaped(r) && r.count > 0
    ensures RingView(r)[|RingView(r)| - 1] == Newest(r)
  {}

  lemma {:induction false} HourlyParts(m: Ram, max: int)
    requires Shaped(m)
    ensures var view, bars := HourlyChart(m, max), YesterdayChart(m.history) + TodayChart(m.today);
            |view| == (if max < 0 then 0 else if max < |bars| then max else |bars|) && view == bars[..|view|]
  {
    hide YesterdayChart, TodayChart;
  }

  lemma {:induction false} BarsOfDays(m: Ram)
    requires Shaped(m) && Conserved(m)
    ensures if m.history.yesterday < 0 then YesterdayChart(m.history) == []
            else
              && m.history.ring.count > 0
              && var e := Newest(m.history.ring);
                 e.epochDay == m.history.yesterday && DayBars(YesterdayChart(m.history), e.epochDay, e.total, e.dhw)
    ensures if m.today.day < 0 then TodayChart(m.today) == []
            else DayBars(TodayChart(m.today), m.today.day, m.today.total, m.today.dhw)
  {
    ChartsAgree(m);
    BarsInOrder(m);
    hide TodayChart, YesterdayChart, Totals, DhwTotals, Sum, Newest;
  }

  lemma {:induction false} BarsInOrder(m: Ram)
    requires Shaped(m) && Conserved(m)
    ensures var first, second := YesterdayChart(m.history), TodayChart(m.today);
            && |first| == (if m.history.yesterday < 0 then 0 else HOURS)
            && |second| == (if m.today.day < 0 then 0 else HOURS)
            && (forall k :: 0 <= k < |first| ==>
                  first[k].epochHour == m.history.yesterday * 24 + k && 0.0 <= first[k].dhw <= first[k].total)
            && (forall k :: 0 <= k < |second| ==>
                  second[k].epochHour == m.today.day * 24 + k && 0.0 <= second[k].dhw <= second[k].total)
  {}

  /** Adds a volume to bar k. */
  function Added(bars: seq<HourEntry>, k: nat, dv: real, dhw: bool): seq<HourEntry>
    requires k < |bars|
  {
    bars[k := HourEntry(bars[k].epochHour, bars[k].total + dv, bars[k].dhw + if dhw then dv else 0.0)]
  }

  /** What an execution does to the charts while a day is tracked: the volume goes to the bar of the
      hour that was current, and to no other; leaving an hour changes no bar; on the next day the very
      same bars are yesterday's and today starts with empty ones; after any other jump there is no
      yesterday. */
  lemma {:induction false} ExecuteMovesTheCharts(m: Ram, i: Input)
    requires Shaped(m) && Conserved(m) && m.today.day >= 0 && m.lastMs != 0 && i.synced
    requires 0 <= i.hourlyClock && 0 <= i.dailyClock
    requires i.hourlyClock / SECONDS_PER_DAY == i.dailyClock / SECONDS_PER_DAY
    ensures var r := Execute(m, i);
            var bars := Added(TodayChart(m.today), m.today.hour % 24, Volume(m, i), i.dhw);
            var day := i.dailyClock / SECONDS_PER_DAY;
            && (day == m.today.day ==> TodayChart(r.today) == bars && r.history == m.history)
            && (day == m.today.day + 1 ==> YesterdayChart(r.history) == bars)
            && (day != m.today.day ==> Totals(TodayChart(r.today)) == DhwTotals(TodayChart(r.today)) == Zeros(HOURS))
            && (day != m.today.day && day != m.today.day + 1 ==> YesterdayChart(r.history) == [])
  {
    var dv := Volume(m, i);
    var t := AddVolume(m.today, dv, i.dhw);
    VolumeGoesToCurrentBar(m.today, dv, i.dhw);
    HourOfDay(i.hourlyClock);
    LeavingAnHourChangesNoBar(t, i.hourlyClock);
    var h := Hourly(t, i.hourlyClock);
    RolloverMovesTheBars(m.(today := h, integral := m.integral + dv, lastMs := i.nowMs), i.dailyClock);
    hide Volume, AddVolume, Hourly, Daily, TodayChart, YesterdayChart;
  }

  lemma {:induction false} VolumeGoesToCurrentBar(t: Today, dv: real, dhw: bool)
    requires |t.hours| == |t.hoursDhw| == HOURS && t.day >= 0 && t.hour >= 0 && t.hour / 24 == t.day
    ensures TodayChart(AddVolume(t, dv, dhw)) == Added(TodayChart(t), t.hour % 24, dv, dhw)
  {
    var a, b := TodayChart(AddVolume(t, dv, dhw)), Added(TodayChart(t), t.hour % 24, dv, dhw);
    TodayBars(t);
    TodayBars(AddVolume(t, dv, dhw));
    assert CurrentHour(AddVolume(t, dv, dhw)) == CurrentHour(t) == t.hour % 24;
    hide TodayChart, CurrentHour;
    forall k | 0 <= k < HOURS ensures a[k] == b[k] {}
  }

  lemma {:induction false} RolloverMovesTheBars(m: Ram, clock: int)
    requires Shaped(m) && m.today.day >= 0 && clock >= 0
    requires clock / SECONDS_PER_DAY != m.today.day ==> m.today.hourTotal == m.today.hourDhw == 0.0
    ensures var r := Daily(m, clock);
            var day := clock / SECONDS_PER_DAY;
            && (day == m.today.day ==> r == m)
            && (day != m.today.day ==> Totals(TodayChart(r.today)) == DhwTotals(TodayChart(r.today)) == Zeros(HOURS))
            && (day == m.today.day + 1 ==> YesterdayChart(r.history) == BarsOf(m.today.day, m.today.hours, m.today.hoursDhw))
            && (day != m.today.day && day != m.today.day + 1 ==> YesterdayChart(r.history) == [])
  {
    hide Push;
    var r := Daily(m, clock);
    if clock / SECONDS_PER_DAY != m.today.day {
      TodayBars(r.today);
      assert Totals(TodayChart(r.today)) == Zeros(HOURS);
      assert DhwTotals(TodayChart(r.today)) == Zeros(HOURS);
    }
  }

  function BarsOf(day: int, hours: seq<real>, hoursDhw: seq<real>): (s: seq<HourEntry>)
    requires |hours| == |hoursDhw| == HOURS
    ensures |s| == HOURS && forall k :: 0 <= k < HOURS ==> s[k] == HourEntry(day * 24 + k, hours[k], hoursDhw[k])
  {
    seq(HOURS, k requires 0 <= k < HOURS => HourEntry(day * 24 + k, hours[k], hoursDhw[k]))
  }

  lemma {:induction false} LeavingAnHourChangesNoBar(t: Today, clock: int)
    requires |t.hours| == |t.hoursDhw| == HOURS && t.day >= 0 && t.hour >= 0 && t.hour / 24 == t.day && clock >= 0
    ensures var r := Hourly(t, clock);
            && r.day == t.day
            && (clock / 3600 / 24 == t.day ==> TodayChart(r) == TodayChart(t))
            && (clock / 3600 / 24 != t.day ==>
                  && r.hourTotal == r.hourDhw == 0.0
                  && TodayChart(t) == BarsOf(t.day, r.hours, r.hoursDhw))
  {
    var r := Hourly(t, clock);
    TodayBars(t);
    TodayBars(r);
    if clock / 3600 / 24 == t.day {
      assert forall k :: 0 <= k < HOURS ==> TodayChart(r)[k] == TodayChart(t)[k];
    }
  }

  // ---------------------------------------------------------------- the integral

  function ExecuteAll(m: Ram, inputs: seq<Input>): Ram
    requires Shaped(m)
    decreases |inputs|
  {
    if inputs == [] then m else ExecuteAll(Execute(m, inputs[0]), inputs[1..])
  }

  /** The inputs of a steady burn: executions at the given true times, at a constant flow, each within a
      minute of the one before and none on a zero of the 32-bit clock. */
  predicate Steady(last: nat, inputs: seq<Input>, times: seq<nat>, flow: real)
    requires |inputs| == |times|
    decreases |inputs|
  {
    inputs == [] ||
    (SteadyStep(last, inputs[0], times[0], flow) && Steady(times[0], inputs[1..], times[1..], flow))
  }

  predicate SteadyStep(last: nat, i: Input, now: nat, flow: real) {
    last <= now < last + 60000 && now % UINT32 != 0 && i.nowMs == now % UINT32 && i.firing && i.flow == flow
  }

  /** A burn at constant flow, executed at least once a minute, is integrated without loss: flow times
      the time that has passed, even when the 32-bit clock wraps. (An execution on a zero of the clock
      would read as "not started yet".) */
  lemma {:induction false} SteadyBurnIsIntegrated(m: Ram, last: nat, inputs: seq<Input>, times: seq<nat>, flow: real)
    requires Shaped(m) && m.lastMs == last % UINT32 != 0 && flow >= 0.0
    requires |inputs| == |times| && Steady(last, inputs, times, flow)
    ensures var end := if times == [] then last else times[|times| - 1];
            ExecuteAll(m, inputs).integral == m.integral + Burnt(flow, last, end)
    decreases |inputs|
  {
    if inputs == [] {
      assert Hours(last, last) == 0.0;
      assert Burnt(flow, last, last) == 0.0;
    } else {
      var now := times[0];
      OneExecution(m, last, inputs[0], now, flow);
      var end := times[|times| - 1];
      hide Execute, Hours, Burnt, SteadyStep;
      SteadyBurnIsIntegrated(Execute(m, inputs[0]), now, inputs[1..], times[1..], flow);
      assert end == if times[1..] == [] then now else times[1..][|times| - 2];
      SplitHours(flow, last, now, end);
    }
  }

  function Hours(from: int, to: int): real {
    (to - from) as real / 3600000.0
  }

  /** What a flow adds up to between two times. */
  function Burnt(flow: real, from: int, to: int): real {
    flow * Hours(from, to)
  }

  lemma {:induction false} SplitHours(flow: real, a: int, b: int, c: int)
    ensures Burnt(flow, a, c) == Burnt(flow, a, b) + Burnt(flow, b, c)
  {
    assert Hours(a, c) == Hours(a, b) + Hours(b, c);
  }

  lemma {:induction false} VolumeIs(m: Ram, i: Input)
    requires i.firing && i.flow >= 0.0 && 0 < (i.nowMs - m.lastMs) % UINT32 < 60000
    ensures Volume(m, i) == i.flow * (((i.nowMs - m.lastMs) % UINT32) as real / 3600000.0)
  {}

  lemma {:induction false} OneExecution(m: Ram, last: nat, i: Input, now: nat, flow: real)
    requires Shaped(m) && m.lastMs == last % UINT32 != 0 && flow >= 0.0
    requires SteadyStep(last, i, now, flow)
    ensures var r := Execute(m, i);
            r.lastMs == now % UINT32 && r.integral == m.integral + Burnt(flow, last, now)
  {
    StepVolume(m, last, i, now, flow);
    IntegralGrows(m, i);
    hide Burnt, Volume, Execute;
  }

  lemma {:induction false} IntegralGrows(m: Ram, i: Input)
    requires Shaped(m) && m.lastMs != 0
    ensures Execute(m, i).lastMs == i.nowMs && Execute(m, i).integral == m.integral + Volume(m, i)
  {
    hide Volume, AddVolume, Hourly, Push;
  }

  lemma {:induction false} StepVolume(m: Ram, last: nat, i: Input, now: nat, flow: real)
    requires m.lastMs == last % UINT32 && flow >= 0.0 && SteadyStep(last, i, now, flow)
    ensures Volume(m, i) == Burnt(flow, last, now)
  {
    var dtMs := (i.nowMs - m.lastMs) % UINT32;
    assert dtMs == now - last;
    var hours := dtMs as real / 3600000.0;
    assert Hours(last, now) == hours;
    if dtMs == 0 {
      assert hours == 0.0;
      assert flow * hours == 0.0;
    } else {
      VolumeIs(m, i);
    }
  }
}
