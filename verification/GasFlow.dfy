/** The gas service as an object: hour arrays and a ring updated in place, specified by the functions of
    GasBuckets and GasHistory. */
module GasFlow {
  import opened Common
  import opened GasBuckets
  import opened GasHistory

  class GasFlowService {
    const daily: array<DayEntry>
    const todayHours: array<real>
    const todayHoursDhw: array<real>
    const yesterdayHours: array<real>
    const yesterdayHoursDhw: array<real>
    var head: int
    var count: int
    var todayDay: int
    var dailyTotal: real
    var dailyDhw: real
    var dirty: bool
    var todayHour: int
    var hourTotal: real
    var hourDhw: real
    var yesterdayDay: int
    var integral: real
    var lastMs: nat

    ghost predicate Valid()
      reads this
    {
      && daily.Length == SLOTS
      && todayHours.Length == todayHoursDhw.Length == yesterdayHours.Length == yesterdayHoursDhw.Length == HOURS
      && todayHours != todayHoursDhw && todayHours != yesterdayHours && todayHours != yesterdayHoursDhw
      && todayHoursDhw != yesterdayHours && todayHoursDhw != yesterdayHoursDhw
      && yesterdayHours != yesterdayHoursDhw
      && 0 <= head < SLOTS && 0 <= count <= SLOTS
    }

    ghost function Arrays(): set<object> {
      {daily} + {todayHours, todayHoursDhw, yesterdayHours, yesterdayHoursDhw}
    }

    ghost function TodayView(): Today
      requires Valid()
      reads this, todayHours, todayHoursDhw
    {
      Today(todayDay, dailyTotal, dailyDhw, todayHours[..], todayHoursDhw[..], todayHour, hourTotal, hourDhw)
    }

    ghost function HistoryView(): History
      requires Valid()
      reads this, daily, yesterdayHours, yesterdayHoursDhw
    {
      History(Ring(daily[..], head, count), yesterdayDay, yesterdayHours[..], yesterdayHoursDhw[..])
    }

    ghost function View(): (m: Ram)
      requires Valid()
      ensures Shaped(m)
      reads this, Arrays()
    {
      Ram(TodayView(), HistoryView(), dirty, integral, lastMs)
    }

    constructor ()
      ensures Valid() && fresh(Arrays()) && View() == Fresh()
    {
      daily := new DayEntry[SLOTS](_ => NO_ENTRY);
      todayHours := new real[HOURS](_ => 0.0);
      todayHoursDhw := new real[HOURS](_ => 0.0);
      yesterdayHours := new real[HOURS](_ => 0.0);
      yesterdayHoursDhw := new real[HOURS](_ => 0.0);
      head, count, todayDay, dailyTotal, dailyDhw, dirty := 0, 0, -1, 0.0, 0.0, false;
      todayHour, hourTotal, hourDhw, yesterdayDay, integral, lastMs := -1, 0.0, 0.0, -1, 0.0, 0;
      new;
      assert daily[..] == FreshHistory().ring.slots;
      assert todayHours[..] == todayHoursDhw[..] == yesterdayHours[..] == yesterdayHoursDhw[..] == Zeros(HOURS);
    }

    method UpdateHourlyTracking(clock: int)
      requires Valid()
      modifies this, todayHours, todayHoursDhw
      ensures Valid()
      ensures View() == old(View()).(today := Hourly(old(TodayView()), clock))
    {
      var epochHour := Div(clock, 3600);
      if todayHour < 0 {
        todayHour, hourTotal, hourDhw := epochHour, 0.0, 0.0;
        return;
      }
      if epochHour == todayHour {
        return;
      }
      if todayHour / 24 == todayDay {
        var idx := todayHour % 24;
        todayHours[idx] := todayHours[idx] + hourTotal;
        todayHoursDhw[idx] := todayHoursDhw[idx] + hourDhw;
      }
      todayHour, hourTotal, hourDhw := epochHour, 0.0, 0.0;
    }

    method PushDaily(epochDay: int, total: real, dhw: real)
      requires Valid()
      modifies this`head, this`count, daily
      ensures Valid()
      ensures HistoryView() ==
              old(HistoryView()).(ring := Push(old(HistoryView()).ring, DayEntry(epochDay, total, dhw)))
    {
      var idx := (head + count) % SLOTS;
      daily[idx] := DayEntry(epochDay, total, dhw);
      if count < SLOTS {
        count := count + 1;
      } else {
        head := (head + 1) % SLOTS;
      }
    }

    /** Copies 24 totals and their hot-water parts into a pair of hour arrays. */
    method CopyHours(a: array<real>, b: array<real>, hours: seq<real>, hoursDhw: seq<real>)
      requires a.Length == b.Length == |hours| == |hoursDhw| == HOURS && a != b
      modifies a, b
      ensures a[..] == hours && b[..] == hoursDhw
    {
      for h := 0 to HOURS
        invariant a[..h] == hours[..h] && b[..h] == hoursDhw[..h]
      {
        a[h] := hours[h];
        b[h] := hoursDhw[h];
      }
      assert a[..] == a[..HOURS] && b[..] == b[..HOURS];
    }

    method ClearHours(a: array<real>, b: array<real>)
      requires a.Length == b.Length == HOURS && a != b
      modifies a, b
      ensures a[..] == b[..] == Zeros(HOURS)
    {
      for i := 0 to HOURS
        invariant forall j :: 0 <= j < i ==> a[j] == b[j] == 0.0
      {
        a[i] := 0.0;
        b[i] := 0.0;
      }
    }

    method UpdateDailyTracking(clock: int)
      requires Valid()
      modifies this, Arrays()
      ensures Valid() && View() == Daily(old(View()), clock)
    {
      hide Push, Slot;
      var epochDay := Div(clock, SECONDS_PER_DAY);
      if todayDay < 0 {
        todayDay, dailyTotal, dailyDhw := epochDay, 0.0, 0.0;
        return;
      }
      if epochDay != todayDay {
        PushDaily(todayDay, dailyTotal, dailyDhw);
        if epochDay == todayDay + 1 {
          CopyHours(yesterdayHours, yesterdayHoursDhw, todayHours[..], todayHoursDhw[..]);
          yesterdayDay := todayDay;
        } else {
          ClearHours(yesterdayHours, yesterdayHoursDhw);
          yesterdayDay := -1;
        }
        ClearHours(todayHours, todayHoursDhw);
        todayDay, dailyTotal, dailyDhw, dirty := epochDay, 0.0, 0.0, true;
      }
    }

    /** The accumulation part of an execution. */
    method Accumulate(i: Input)
      requires Valid()
      modifies this`integral, this`dailyTotal, this`dailyDhw, this`hourTotal, this`hourDhw, this`lastMs
      ensures View() == var m := old(View());
                        m.(today := AddVolume(m.today, Volume(m, i), i.dhw),
                           integral := m.integral + Volume(m, i), lastMs := i.nowMs)
    {
      if i.firing {
        var flow := if i.flow < 0.0 then 0.0 else i.flow;
        var dtMs := (i.nowMs - lastMs) % UINT32;
        if 0 < dtMs < 60000 {
          var dv := flow * (dtMs as real / 3600000.0);
          assert dv == Volume(View(), i);
          integral := integral + dv;
          dailyTotal := dailyTotal + dv;
          hourTotal := hourTotal + dv;
          if i.dhw {
            dailyDhw := dailyDhw + dv;
            hourDhw := hourDhw + dv;
          }
        }
      }
      lastMs := i.nowMs;
    }

    method Execute(i: Input)
      requires Valid()
      modifies this, Arrays()
      ensures Valid() && View() == GasBuckets.Execute(old(View()), i)
    {
      if lastMs == 0 {
        lastMs := i.nowMs;
        return;
      }
      hide Volume, AddVolume, Hourly, Daily;
      Accumulate(i);
      if i.synced {
        UpdateHourlyTracking(i.hourlyClock);
        UpdateDailyTracking(i.dailyClock);
      }
    }

    method PackTodayBlob() returns (b: TodayBlob)
      requires Valid()
      ensures b == PackToday(TodayView())
    {
      var current := -1;
      if todayHour >= 0 && todayHour / 24 == todayDay {
        current := todayHour % 24;
      }
      b := TodayBlob(todayDay, dailyTotal, dailyDhw, todayHours[..], todayHoursDhw[..], current, hourTotal, hourDhw);
    }

    method PackHistoryBlob() returns (b: HistoryBlob)
      requires Valid()
      ensures b == PackHistory(HistoryView())
    {
      var days := new DayEntry[SLOTS](_ => NO_ENTRY);
      ghost var view := RingView(HistoryView().ring);
      for i := 0 to count
        invariant forall j :: 0 <= j < SLOTS ==> days[j] == if j < i then view[j] else NO_ENTRY
      {
        days[i] := daily[(head + i) % SLOTS];
      }
      assert days[..] == PackHistory(HistoryView()).daily;
      b := HistoryBlob(days[..], head, count, yesterdayDay, yesterdayHours[..], yesterdayHoursDhw[..]);
    }

    /** Reports whether the completed days have changed since the last call. */
    method ConsumeHistoryDirty() returns (d: bool)
      requires Valid()
      modifies this`dirty
      ensures Valid() && d == old(dirty) && View() == old(View()).(dirty := false)
    {
      d := dirty;
      dirty := false;
    }

    method LoadTodayBlob(b: TodayBlob)
      requires Valid() && TodayBlobShaped(b)
      modifies this`todayDay, this`dailyTotal, this`dailyDhw, this`todayHour, this`hourTotal, this`hourDhw
      modifies todayHours, todayHoursDhw
      ensures Valid() && View() == old(View()).(today := LoadToday(b))
    {
      todayDay, dailyTotal, dailyDhw := b.day, b.total, b.dhw;
      CopyHours(todayHours, todayHoursDhw, b.hours, b.hoursDhw);
      assert HistoryView() == old(HistoryView());
      hourTotal, hourDhw, todayHour := 0.0, 0.0, -1;
      if b.day >= 0 && b.currentHour >= 0 && b.currentHour < HOURS {
        todayHour := b.day * 24 + b.currentHour;
        hourTotal, hourDhw := b.hourTotal, b.hourDhw;
      }
      assert TodayView() == LoadToday(b);
      assert HistoryView() == old(HistoryView());
    }

    /** Puts the first `count` stored days into the ring, from `head` on. */
    method PlaceDays(stored: seq<DayEntry>)
      requires Valid() && |stored| == SLOTS
      modifies daily
      ensures Ring(daily[..], head, count) == LoadRing(old(daily[..]), stored, head, count)
    {
      for i := 0 to count
        invariant forall k :: 0 <= k < SLOTS ==>
                    daily[k] == var j := (if k >= head then k - head else k - head + SLOTS);
                                if j < i then stored[j] else old(daily[k])
      {
        daily[Slot(head, i)] := stored[i];
      }
    }

    method LoadHistoryBlob(b: HistoryBlob)
      requires Valid() && HistoryBlobShaped(b)
      modifies this, daily, yesterdayHours, yesterdayHoursDhw
      ensures Valid() && View() == old(View()).(history := LoadHistory(old(daily[..]), b))
    {
      LoadedHeadInRange(b.head);
      head := Rem(b.head, SLOTS);
      if head < 0 { head := head + SLOTS; }
      assert head == LoadedHead(b.head);
      hide Rem, LoadedHead, LoadRing;
      count := b.count;
      if count < 0 { count := 0; }
      if count > SLOTS { count := SLOTS; }
      PlaceDays(b.daily);
      yesterdayDay := b.yesterday;
      CopyHours(yesterdayHours, yesterdayHoursDhw, b.hours, b.hoursDhw);
    }

    /** Start-up of a new object from the store. */
    method LoadDaily(n: Nvs)
      requires Valid() && NvsShaped(n) && View() == Fresh().(integral := integral)
      modifies this, Arrays()
      ensures Valid() && View() == Boot(n, old(integral))
    {
      if n.today.Some? {
        LoadTodayBlob(n.today.value);
      }
      if n.history.Some? {
        LoadHistoryBlob(n.history.value);
      }
    }

    method GetDailyView(max: int) returns (out: seq<DayEntry>)
      requires Valid()
      ensures out == DailyChart(View(), max)
    {
      out := [];
      ghost var view := RingView(View().history.ring);
      var i := 0;
      while i < count && |out| < max
        invariant 0 <= i <= count && (i <= max || i == 0)
        invariant out == view[..i]
        decreases count - i
      {
        out := out + [daily[(head + i) % SLOTS]];
        i := i + 1;
      }
      if |out| < max && todayDay >= 0 {
        out := out + [DayEntry(todayDay, dailyTotal, dailyDhw)];
      }
    }

    method GetHourlyView(max: int) returns (out: seq<HourEntry>)
      requires Valid()
      ensures out == HourlyChart(View(), max)
    {
      hide YesterdayChart, TodayChart, HourlyChart;
      out := [];
      ghost var first, second := YesterdayChart(HistoryView()), TodayChart(TodayView());
      ChartSizes(HistoryView(), TodayView());
      if yesterdayDay >= 0 {
        var h := 0;
        while h < HOURS && |out| < max
          invariant 0 <= h <= HOURS && (h <= max || h == 0)
          invariant out == first[..h]
          decreases HOURS - h
        {
          YesterdayBar(HistoryView(), h);
          assert first[..h + 1] == first[..h] + [first[h]];
          out := out + [HourEntry(yesterdayDay * 24 + h, yesterdayHours[h], yesterdayHoursDhw[h])];
          h := h + 1;
        }
      }
      ghost var n, last := |out|, 0;
      ghost var before := out;
      assert before == first[..n];
      if todayDay >= 0 {
        var current := -1;
        if todayHour >= 0 && todayHour / 24 == todayDay {
          current := todayHour % 24;
        }
        assert current == CurrentHour(TodayView());
        var h := 0;
        while h < HOURS && |out| < max
          invariant 0 <= h <= HOURS && (n + h <= max || h == 0)
          invariant out == before + second[..h]
          decreases HOURS - h
        {
          TodayBar(TodayView(), h);
          assert second[..h + 1] == second[..h] + [second[h]];
          out := out + [HourEntry(todayDay * 24 + h,
                                  todayHours[h] + (if h == current then hourTotal else 0.0),
                                  todayHoursDhw[h] + (if h == current then hourDhw else 0.0))];
          h := h + 1;
        }
        last := h;
      }
      CutChart(View(), max, n, last);
    }
  }
}
