/** The hot-water prediction: heating sessions, the filter that runs during them, the rates they leave
    behind, and the time that remains. */
module DhwPrediction {
  import opened Common
  import opened Kalman2D
  import Reals

  const DEF_RATE_PRIOR := 0.03
  const MIN_RATE := 0.002
  const MIN_UNCERT := 15
  const HIST_N := 3

  /** The rates of the last sessions: a ring of three. */
  datatype History = History(rates: seq<real>, idx: int, count: int)

  /** What the display is told. */
  datatype Prediction = Prediction(shown: bool, remaining: int, uncertainty: int, rate: real, elapsed: int)

  const HIDDEN := Prediction(false, 0, 0, 0.0, 0)

  datatype Service = Service(
    filter: Filter, active: bool, startTemp: real, startMs: nat, lastMs: nat, cycles: nat,
    history: History, prevFlame: bool, prevDhw: bool, prediction: Prediction, saved: Option<History>)

  /** What one poll reads: flags, temperatures, the 32-bit millisecond clock; and the square root that the
      mathematics library returns. */
  datatype Env = Env(flame: bool, dhw: bool, temp: real, setpoint: real, nowMs: nat, root: real)

  predicate Ring(h: History) {
    |h.rates| == HIST_N && 0 <= h.idx < HIST_N && 0 <= h.count <= HIST_N && (h.count < HIST_N ==> h.idx == h.count)
  }

  // ---------------------------------------------------------------- the steps

  function Sum(s: seq<real>, n: nat): real
    requires n <= |s|
  {
    if n == 0 then 0.0 else Sum(s, n - 1) + s[n - 1]
  }

  function PriorRate(h: History): real
    requires Ring(h)
  {
    if h.count == 0 then DEF_RATE_PRIOR else Sum(h.rates, h.count) / h.count as real
  }

  function StartSession(s: Service, e: Env): Service
    requires Ring(s.history)
  {
    s.(filter := Reset(s.filter, e.temp, PriorRate(s.history)),
       startTemp := e.temp, startMs := e.nowMs, lastMs := e.nowMs, active := true, cycles := 0, prediction := HIDDEN)
  }

  /** Rounding of a value that is not negative. */
  function Round(x: real): int {
    if x + 0.5 >= 0.0 then (x + 0.5).Floor else -((-(x + 0.5)).Floor)
  }

  function AtLeast(x: real, least: real): (r: real)
    ensures r >= least
  {
    if x < least then least else x
  }

  function Seconds(fromMs: nat, toMs: nat): (s: real)
    ensures s >= 0.0
  {
    ((toMs - fromMs) % UINT32) as real / 1000.0
  }

  /** The standard deviation of delta / rate, from that of the rate. */
  function Deviation(delta: real, rate: real, root: real): int
    requires rate > 0.0
  {
    Round(Ratio(Ratio(delta, rate), rate) * root)
  }

  function Predicted(s: Service, e: Env): Prediction {
    var rate := AtLeast(s.filter.x1, MIN_RATE);
    var delta := AtLeast(e.setpoint - s.filter.x0, 0.5);
    var remaining := Round(Ratio(delta, rate));
    var uncertainty := Deviation(delta, rate, e.root);
    Prediction(true,
               if remaining < 0 then 0 else remaining,
               if uncertainty < MIN_UNCERT then MIN_UNCERT else uncertainty,
               rate, Round(Seconds(s.startMs, e.nowMs)))
  }

  function Ratio(x: real, y: real): real
    requires y > 0.0
  {
    x / y
  }

  function UpdateSession(s: Service, e: Env): Service
    requires Good(s.filter)
  {
    if !s.active then s
    else
      var gapMs := (e.nowMs - s.lastMs) % UINT32;
      var f := if gapMs > 15000 then Reset(s.filter, e.temp, s.filter.x1) else s.filter;
      var u := s.(lastMs := e.nowMs, cycles := s.cycles + 1, filter := Update(f, e.temp, e.nowMs as real));
      if u.cycles < 2 then u else u.(prediction := Predicted(u, e))
  }

  function SessionRate(s: Service, durationMs: nat): real {
    var dur := durationMs as real / 1000.0;
    var actual := if s.cycles > 2 && dur > 10.0 && s.filter.x0 > s.startTemp
                  then (s.filter.x0 - s.startTemp) / dur else DEF_RATE_PRIOR;
    if actual < MIN_RATE then DEF_RATE_PRIOR else actual
  }

  function Recorded(h: History, rate: real): (r: History)
    requires Ring(h)
    ensures Ring(r)
  {
    History(h.rates[h.idx := rate], (h.idx + 1) % HIST_N, if h.count < HIST_N then h.count + 1 else h.count)
  }

  function FinishSession(s: Service, durationMs: nat): Service
    requires Ring(s.history)
  {
    if !s.active then s
    else
      var h := Recorded(s.history, SessionRate(s, durationMs));
      s.(history := h, saved := Some(h), active := false, prediction := HIDDEN)
  }

  function Execute(s: Service, e: Env): Service
    requires Ring(s.history) && Good(s.filter)
  {
    var heating := e.flame && e.dhw;
    var s1 := if heating && (!s.prevFlame || !s.prevDhw) then StartSession(s, e) else s;
    var s2 := if s1.active && heating then UpdateSession(s1, e) else s1;
    var s3 := if s2.active && !heating then FinishSession(s2, (e.nowMs - s2.startMs) % UINT32) else s2;
    s3.(prevFlame := e.flame, prevDhw := e.dhw)
  }

  /** Start-up, with the history that flash holds. */
  function Boot(saved: Option<History>): Service {
    Service(Initial(), false, 0.0, 0, 0, 0,
            if saved.Some? then saved.value else History([0.0, 0.0, 0.0], 0, 0),
            false, false, HIDDEN, saved)
  }

  // ---------------------------------------------------------------- the invariant

  predicate Positive(h: History) {
    Ring(h) && forall i :: 0 <= i < h.count ==> h.rates[i] >= MIN_RATE
  }

  /** A session is active exactly while hot water is being heated; the filter's covariance is positive
      definite; a prediction is shown only in a session of two polls or more; recorded rates are positive,
      and flash holds the history as it stands. */
  ghost predicate Sound(s: Service) {
    && Good(s.filter) && Positive(s.history)
    && (s.active <==> s.prevFlame && s.prevDhw)
    && (s.prediction.shown ==>
          && s.active && s.cycles >= 2 && s.filter.P11 > 0.0
          && s.prediction.remaining >= 0 && s.prediction.uncertainty >= MIN_UNCERT && s.prediction.rate >= MIN_RATE)
    && (!s.prediction.shown ==> s.prediction == HIDDEN)
    && s.saved == (if s.history.count == 0 then None else Some(s.history))
  }

  lemma {:induction false} ResetIsGood(f: Filter, temp: real, rate: real)
    ensures Good(Reset(f, temp, rate))
  {}

  lemma {:induction false} RateVariancePositive(f: Filter, temp: real, timeMs: real)
    requires Good(f)
    ensures Update(f, temp, timeMs).P11 > 0.0
  {
    UpdateKeepsGood(f, temp, timeMs);
  }

  lemma {:induction false} UpdateSessionSound(s: Service, e: Env)
    requires s.active && Good(s.filter)
    ensures var r := UpdateSession(s, e);
            && r == s.(filter := r.filter, lastMs := e.nowMs, cycles := s.cycles + 1, prediction := r.prediction)
            && Good(r.filter) && r.filter.P11 > 0.0
            && r.prediction == if r.cycles < 2 then s.prediction
                               else Predicted(r.(prediction := s.prediction), e)
  {
    ResetIsGood(s.filter, e.temp, s.filter.x1);
    hide Update, Predicted, Reset;
    var gapMs := (e.nowMs - s.lastMs) % UINT32;
    var f := if gapMs > 15000 then Reset(s.filter, e.temp, s.filter.x1) else s.filter;
    UpdateKeepsGood(f, e.temp, e.nowMs as real);
    RateVariancePositive(f, e.temp, e.nowMs as real);
  }

  lemma {:induction false} SessionRatePositive(s: Service, durationMs: nat)
    ensures SessionRate(s, durationMs) >= MIN_RATE
  {}

  lemma {:induction false} RecordedPositive(h: History, rate: real)
    requires Positive(h) && rate >= MIN_RATE
    ensures Positive(Recorded(h, rate)) && Recorded(h, rate).count > 0
  {}

  lemma {:induction false} ExecuteKeepsSound(s: Service, e: Env)
    requires Sound(s)
    ensures Sound(Execute(s, e))
  {
    var heating := e.flame && e.dhw;
    var s1 := if heating && (!s.prevFlame || !s.prevDhw) then StartSession(s, e) else s;
    ResetIsGood(s.filter, e.temp, PriorRate(s.history));
    hide Predicted, Update, Reset, PriorRate, SessionRate, Recorded;
    if s1.active && heating {
      UpdateSessionSound(s1, e);
      var r := UpdateSession(s1, e);
      PredictedInRange(r.(prediction := s1.prediction), e);
      hide UpdateSession;
    } else if s1.active {
      var d := (e.nowMs - s1.startMs) % UINT32;
      SessionRatePositive(s1, d);
      RecordedPositive(s1.history, SessionRate(s1, d));
    }
  }

  lemma {:induction false} PredictedInRange(s: Service, e: Env)
    ensures var p := Predicted(s, e); p.shown && p.remaining >= 0 && p.uncertainty >= MIN_UNCERT && p.rate >= MIN_RATE
  {}

  // ---------------------------------------------------------------- whole lives

  datatype Event = Poll(e: Env) | Reboot

  function After(s: Service, ev: Event): Service
    requires Ring(s.history) && Good(s.filter)
  {
    match ev
    case Poll(e) => Execute(s, e)
    case Reboot => Boot(s.saved)
  }

  ghost function Run(s: Service, events: seq<Event>): (r: Service)
    requires Sound(s)
    ensures Sound(r)
    decreases |events|
  {
    if events == [] then s
    else
      EventKeepsSound(s, events[0]);
      Run(After(s, events[0]), events[1..])
  }

  lemma {:induction false} EventKeepsSound(s: Service, ev: Event)
    requires Sound(s)
    ensures Sound(After(s, ev))
  {
    if ev.Poll? {
      ExecuteKeepsSound(s, ev.e);
      hide Execute;
    } else {
      InitialIsGood();
    }
  }

  /** The newest rates, oldest first. */
  function View(h: History): (v: seq<real>)
    requires Ring(h)
    ensures |v| == h.count
  {
    if h.count < HIST_N then h.rates[..h.count] else h.rates[h.idx..] + h.rates[..h.idx]
  }

  /** The rate of the session that a poll finishes, if it finishes one. */
  function Finished(s: Service, ev: Event): seq<real> {
    if ev.Poll? && s.active && !(ev.e.flame && ev.e.dhw)
    then [SessionRate(s, (ev.e.nowMs - s.startMs) % UINT32)] else []
  }

  ghost function AllFinished(s: Service, events: seq<Event>): seq<real>
    requires Sound(s)
    decreases |events|
  {
    if events == [] then []
    else
      EventKeepsSound(s, events[0]);
      Finished(s, events[0]) + AllFinished(After(s, events[0]), events[1..])
  }

  /** The slot of rate i, counted from the oldest. */
  function SlotOf(h: History, i: int): int {
    if h.count < HIST_N then i else if h.idx + i < HIST_N then h.idx + i else h.idx + i - HIST_N
  }

  lemma {:induction false} ViewAt(h: History, i: nat)
    requires Ring(h) && i < h.count
    ensures 0 <= SlotOf(h, i) < HIST_N && View(h)[i] == h.rates[SlotOf(h, i)]
  {}

  lemma {:induction false} RecordedSlot(h: History, rate: real, i: nat)
    requires Ring(h) && i < Recorded(h, rate).count
    ensures var r := Recorded(h, rate);
            var newest := i == r.count - 1;
            && (newest ==> SlotOf(r, i) == h.idx)
            && (!newest ==> SlotOf(r, i) != h.idx && SlotOf(r, i) == SlotOf(h, if h.count < HIST_N then i else i + 1))
  {
    assert (h.idx + 1) % HIST_N == if h.idx == 2 then 0 else h.idx + 1;
  }

  lemma {:induction false} RecordedViewAt(h: History, rate: real, i: nat)
    requires Ring(h) && i < Recorded(h, rate).count
    ensures var n := Recorded(h, rate).count;
            && n == (if h.count < HIST_N then h.count + 1 else HIST_N)
            && View(Recorded(h, rate))[i] ==
               if i == n - 1 then rate else View(h)[if h.count < HIST_N then i else i + 1]
  {
    var r := Recorded(h, rate);
    assert r.rates == h.rates[h.idx := rate];
    RecordedSlot(h, rate, i);
    ViewAt(r, i);
    hide View, SlotOf;
    if i < r.count - 1 {
      ViewAt(h, if h.count < HIST_N then i else i + 1);
    }
  }

  lemma {:induction false} RecordedView(h: History, rate: real)
    requires Ring(h)
    ensures View(Recorded(h, rate)) == Last(View(h) + [rate], HIST_N)
  {
    hide View, Last;
    var x, y := View(Recorded(h, rate)), Last(View(h) + [rate], HIST_N);
    assert |x| == |y|;
    forall i | 0 <= i < |x| ensures x[i] == y[i] {
      RecordedViewAt(h, rate, i);
    }
  }

  lemma {:induction false} EventView(s: Service, ev: Event)
    requires Sound(s)
    ensures Ring(After(s, ev).history)
    ensures View(After(s, ev).history) == Last(View(s.history) + Finished(s, ev), HIST_N)
  {
    EventKeepsSound(s, ev);
    ViewIsShort(s.history);
    assert View(s.history) + [] == View(s.history);
    match ev
    case Reboot =>
      hide Last;
    case Poll(e) =>
      PollHistory(s, e);
      hide Execute, Recorded, View, Last;
      if Finished(s, ev) != [] {
        RecordedView(s.history, Finished(s, ev)[0]);
      }
  }

  lemma {:induction false} PollHistory(s: Service, e: Env)
    requires Ring(s.history) && Good(s.filter) && (s.active <==> s.prevFlame && s.prevDhw)
    ensures var f := Finished(s, Poll(e));
            Execute(s, e).history == if f == [] then s.history else Recorded(s.history, f[0])
  {
    var heating := e.flame && e.dhw;
    var s1 := if heating && (!s.prevFlame || !s.prevDhw) then StartSession(s, e) else s;
    ResetIsGood(s.filter, e.temp, PriorRate(s.history));
    hide SessionRate, Recorded, Predicted, Update, Reset, PriorRate;
    if s1.active && heating {
      UpdateSessionSound(s1, e);
      hide UpdateSession;
    }
  }

  lemma {:induction false} ViewIsShort(h: History)
    requires Ring(h)
    ensures Last(View(h), HIST_N) == View(h)
  {}

  /** In every life of the device, over polls and reboots, the history is the rates of the last three
      sessions finished: a reboot loses none, and a session cut off by one is not recorded. */
  lemma {:induction false} HistoryIsLastThree(s: Service, events: seq<Event>)
    requires Sound(s)
    ensures View(Run(s, events).history) == Last(View(s.history) + AllFinished(s, events), HIST_N)
    decreases |events|
  {
    if events == [] {
      assert View(s.history) + [] == View(s.history);
    } else {
      EventKeepsSound(s, events[0]);
      EventView(s, events[0]);
      var n := After(s, events[0]);
      HistoryIsLastThree(n, events[1..]);
      LastRegroups(View(s.history), Finished(s, events[0]), AllFinished(n, events[1..]), HIST_N);
      hide After, View, Last, Finished, Sound;
    }
  }

  lemma {:induction false} FreshIsSound()
    ensures Sound(Boot(None)) && View(Boot(None).history) == []
  {
    InitialIsGood();
  }

  /** Main result: in every life of the device from empty flash, whenever a prediction is shown a session
      is active, the variance under its square root is positive, and its numbers are in range; and the
      history is what the last three sessions left. */
  lemma {:induction false} EveryLifeIsSound(events: seq<Event>)
    ensures Sound(Boot(None))
    ensures var s := Run(Boot(None), events);
            && (s.prediction.shown ==> s.active && s.filter.P11 > 0.0 && s.prediction.remaining >= 0)
            && View(s.history) == Last(AllFinished(Boot(None), events), HIST_N)
  {
    FreshIsSound();
    HistoryIsLastThree(Boot(None), events);
    assert [] + AllFinished(Boot(None), events) == AllFinished(Boot(None), events);
    hide Run, AllFinished, View, Last;
  }

  // ---------------------------------------------------------------- what a session starts from

  /** The prior rate is the mean of the history, in whatever order the ring holds it, and lies between
      the smallest and the largest of the rates. */
  lemma {:induction false} PriorIsMean(h: History, lo: real, hi: real)
    requires Positive(h) && h.count > 0
    requires forall i :: 0 <= i < h.count ==> lo <= View(h)[i] <= hi
    ensures PriorRate(h) * h.count as real == Sum(View(h), h.count)
    ensures lo <= PriorRate(h) <= hi
  {
    hide View, Sum, PriorRate;
    var n := h.count;
    SumOfView(h);
    SumBounds(View(h), n, lo, hi);
    Mean(Sum(h.rates, n), n as real, lo, hi);
    PriorIs(h);
  }

  lemma {:induction false} PriorIs(h: History)
    requires Ring(h) && h.count > 0
    ensures PriorRate(h) == Sum(h.rates, h.count) / h.count as real
  {
    hide Sum;
  }

  lemma {:induction false} SumOfView(h: History)
    requires Positive(h)
    ensures Sum(View(h), h.count) == Sum(h.rates, h.count)
  {
    SumThree(View(h), h.count);
    SumThree(h.rates, h.count);
    hide Sum;
  }

  lemma {:induction false} SumThree(s: seq<real>, n: nat)
    requires n <= |s| && n <= 3
    ensures Sum(s, n) == (if n > 0 then s[0] else 0.0) + (if n > 1 then s[1] else 0.0) + (if n > 2 then s[2] else 0.0)
  {
    if n > 0 {
      SumThree(s, n - 1);
    }
  }

  lemma {:induction false} SumBounds(s: seq<real>, n: nat, lo: real, hi: real)
    requires n <= |s| && forall i :: 0 <= i < n ==> lo <= s[i] <= hi
    ensures lo * n as real <= Sum(s, n) <= hi * n as real
  {
    if n > 0 {
      SumBounds(s, n - 1, lo, hi);
      assert lo * n as real == lo * (n - 1) as real + lo && hi * n as real == hi * (n - 1) as real + hi;
    }
  }

  lemma {:induction false} Mean(sum: real, k: real, lo: real, hi: real)
    requires k > 0.0 && lo * k <= sum <= hi * k
    ensures sum / k * k == sum && lo <= sum / k <= hi
  {}

  /** The filter's clock restarts at zero with every reset while the measurements carry the time since
      boot, so the step after a reset, which follows at once, is the uptime in seconds within the filter's
      limits: right, the smallest step, exactly in the first millisecond after boot; and a whole minute, the
      largest one, exactly from the second minute on. */
  lemma {:induction false} StepAfterReset(f: Filter, temp: real, rate: real, nowMs: nat)
    ensures var dt := TimeStep(Reset(f, temp, rate), nowMs as real);
            && (dt == 0.001 <==> nowMs <= 1)
            && (dt == 60.0 <==> nowMs >= 60000)
            && (1 <= nowMs <= 60000 ==> dt == nowMs as real / 1000.0)
  {}

  /** That is the first step of every session, and the step after every gap of more than 15 s in one. */
  lemma {:induction false} StepsAfterReset(s: Service, e: Env)
    requires Sound(s) && e.flame && e.dhw
    requires !s.active || (e.nowMs - s.lastMs) % UINT32 > 15000
    ensures var f := Reset(s.filter, e.temp, if s.active then s.filter.x1 else PriorRate(s.history));
            var dt := TimeStep(f, e.nowMs as real);
            && Execute(s, e).filter == Correct(Predict(f, dt).(lastTimeMs := e.nowMs as real), e.temp)
            && (dt == 0.001 <==> e.nowMs <= 1)
            && (dt == 60.0 <==> e.nowMs >= 60000)
  {
    StepAfterReset(s.filter, e.temp, if s.active then s.filter.x1 else PriorRate(s.history), e.nowMs);
    ResetIsGood(s.filter, e.temp, if s.active then s.filter.x1 else PriorRate(s.history));
    hide PriorRate, Predict, Correct, TimeStep, Predicted;
  }

  // ---------------------------------------------------------------- what is shown, in numbers

  lemma {:induction false} RoundIs(x: real)
    ensures x >= 0.0 ==> Round(x) >= 0 && Round(x) as real <= x + 0.5 < Round(x) as real + 1.0
    ensures x < 0.0 ==> Round(x) <= 0
  {}

  lemma {:induction false} Multiplied(x: real, y: real, k: real)
    requires k > 0.0
    ensures x <= y <==> x * k <= y * k
  {}

  /** x is n units, to the nearest one. */
  predicate Nearest(n: int, x: real, unit: real) {
    n as real * unit <= x + unit / 2.0 < (n + 1) as real * unit
  }

  lemma {:induction false} NearestIs(n: int, q: real, unit: real, x: real)
    requires unit > 0.0 && q * unit == x && n as real <= q + 0.5 < n as real + 1.0
    ensures Nearest(n, x, unit)
  {
    Between(n as real, q, (n + 1) as real, unit, x);
  }

  lemma {:induction false} Between(lo: real, q: real, hi: real, unit: real, x: real)
    requires unit > 0.0 && q * unit == x && lo <= q + 0.5 < hi
    ensures lo * unit <= x + unit / 2.0 < hi * unit
  {
    HalfMore(q, unit);
    Multiplied(lo, q + 0.5, unit);
    Multiplied(hi, q + 0.5, unit);
  }

  lemma {:induction false} HalfMore(q: real, unit: real)
    ensures (q + 0.5) * unit == q * unit + unit / 2.0
  {}

  /** What is shown of a deviation: at least 15. */
  predicate NearestFrom15(shown: int, x: real, unit: real) {
    (shown > 15 && Nearest(shown, x, unit)) || (shown == 15 && x + unit / 2.0 < 16.0 * unit)
  }

  lemma {:induction false} NearestFrom15Is(n: int, q: real, unit: real, x: real)
    requires unit > 0.0 && q * unit == x
    requires q >= 0.0 ==> n as real <= q + 0.5 < n as real + 1.0
    requires q < 0.0 ==> n <= 0
    ensures NearestFrom15(if n < 15 then 15 else n, x, unit)
  {
    if n > 15 {
      NearestIs(n, q, unit, x);
    } else {
      HalfMore(q, unit);
      Multiplied(16.0, q + 0.5, unit);
    }
  }

  lemma {:induction false} RemainingIs(delta: real, rate: real)
    requires delta >= 0.0 && rate > 0.0
    ensures Round(Ratio(delta, rate)) >= 0 && Nearest(Round(Ratio(delta, rate)), delta, rate)
  {
    var q := Reals.Divided(delta, rate);
    Reals.SignOfFactor(rate, q, delta);
    assert Ratio(delta, rate) == q;
    RoundIs(q);
    hide Ratio, Round, Nearest;
    NearestIs(Round(q), q, rate, delta);
  }

  function Product(x: real, y: real): (r: real)
    ensures x > 0.0 && y > 0.0 ==> r > 0.0
  {
    x * y
  }

  lemma {:induction false} DeviationIs(delta: real, rate: real, root: real)
    requires rate > 0.0
    ensures var n := Deviation(delta, rate, root);
            NearestFrom15(if n < 15 then 15 else n, Product(delta, root), Product(rate, rate))
  {
    var time := Reals.Divided(delta, rate);
    var q := Reals.Divided(time, rate);
    assert Deviation(delta, rate, root) == Round(q * root);
    RoundIs(q * root);
    hide Deviation, Ratio, Round, NearestFrom15;
    hide Product;
    Scaled(q, time, delta, rate, root);
    NearestFrom15Is(Round(q * root), q * root, Product(rate, rate), Product(delta, root));
  }

  lemma {:induction false} Scaled(q: real, time: real, delta: real, rate: real, root: real)
    requires q * rate == time && time * rate == delta
    ensures q * root * Product(rate, rate) == Product(delta, root)
  {
    Substituted(q * rate, time, rate);
    Substituted(q * rate * rate, delta, root);
    assert q * root * (rate * rate) == q * rate * rate * root;
  }

  lemma {:induction false} Substituted(a: real, b: real, k: real)
    requires a == b
    ensures a * k == b * k
  {}

  lemma {:induction false} ElapsedIs(fromMs: nat, toMs: nat)
    ensures Nearest(Round(Seconds(fromMs, toMs)), ((toMs - fromMs) % UINT32) as real, 1000.0)
  {
    RoundIs(Seconds(fromMs, toMs));
    hide Round;
  }

  /** The display shows the rate; the whole seconds nearest to what the rise takes at this rate; the whole
      seconds nearest to its deviation, at least 15; and the whole seconds nearest to the session's age. */
  predicate Shows(p: Prediction, rate: real, rise: real, root: real, ageMs: int) {
    && p.rate == rate
    && Nearest(p.remaining, rise, rate)
    && NearestFrom15(p.uncertainty, Product(rise, root), Product(rate, rate))
    && Nearest(p.elapsed, ageMs as real, 1000.0)
  }

  lemma {:induction false} PredictedShows(s: Service, e: Env)
    ensures Shows(Predicted(s, e), AtLeast(s.filter.x1, 0.002), AtLeast(e.setpoint - s.filter.x0, 0.5), e.root,
                  (e.nowMs - s.startMs) % UINT32)
  {
    hide Round, Ratio, Deviation, Seconds, Nearest, NearestFrom15, AtLeast, Product;
    var rate, rise := AtLeast(s.filter.x1, MIN_RATE), AtLeast(e.setpoint - s.filter.x0, 0.5);
    RemainingIs(rise, rate);
    DeviationIs(rise, rate, e.root);
    ElapsedIs(s.startMs, e.nowMs);
  }

  /** What the filter knows after a poll: a rate of at least 0.002 degrees a second, and a rise still to come
      of at least half a degree. */
  predicate ShowsWhatItKnows(s: Service, e: Env) {
    Shows(s.prediction, if s.filter.x1 < 0.002 then 0.002 else s.filter.x1,
          if e.setpoint - s.filter.x0 < 0.5 then 0.5 else e.setpoint - s.filter.x0, e.root,
          (e.nowMs - s.startMs) % UINT32)
  }

  /** After every poll a prediction is shown exactly in a session of two polls or more, and it shows what the
      filter then knows. */
  lemma {:induction false} PredictionInNumbers(s: Service, e: Env)
    requires Sound(s)
    ensures var r := Execute(s, e);
            && (r.prediction.shown <==> r.active && r.cycles >= 2)
            && (r.prediction.shown ==> ShowsWhatItKnows(r, e))
  {
    ExecuteKeepsSound(s, e);
    var heating := e.flame && e.dhw;
    var s1 := if heating && (!s.prevFlame || !s.prevDhw) then StartSession(s, e) else s;
    ResetIsGood(s.filter, e.temp, PriorRate(s.history));
    if s1.active && heating {
      UpdateSessionSound(s1, e);
      var r := UpdateSession(s1, e);
      PredictedShows(r.(prediction := s1.prediction), e);
      PredictedInRange(r.(prediction := s1.prediction), e);
      hide UpdateSession, Predicted, Update, Reset, PriorRate, Shows;
    } else {
      hide Predicted, Update, Reset, PriorRate, SessionRate, Recorded, Shows;
    }
  }

  /** A session: it starts with a poll that finds hot water being heated for the first time, from that poll's
      temperature and clock; each such poll in it counts; the filter follows the tank, from the start or from
      the last poll unless that is more than 15 s ago; and it ends with the first poll that does not. */
  lemma {:induction false} SessionsAreKept(s: Service, e: Env)
    requires Sound(s)
    ensures var r := Execute(s, e);
            && (r.active <==> e.flame && e.dhw) && r.prevFlame == e.flame && r.prevDhw == e.dhw
            && (r.active && !s.active ==>
                  r.startTemp == e.temp && r.startMs == r.lastMs == e.nowMs && r.cycles == 1)
            && (r.active && s.active ==>
                  r.startTemp == s.startTemp && r.startMs == s.startMs && r.lastMs == e.nowMs && r.cycles == s.cycles + 1)
            && (r.active && s.active && (e.nowMs - s.lastMs) % UINT32 <= 15000 ==>
                  r.filter == Update(s.filter, e.temp, e.nowMs as real))
            && (!r.active ==> r.filter == s.filter)
            && (r.active == s.active || r.active ==> r.history == s.history)
  {
    ResetIsGood(s.filter, e.temp, PriorRate(s.history));
    hide Predicted, Update, Reset, PriorRate, SessionRate, Recorded;
  }

  /** What a session leaves: its rise over the time it took, in degrees a second; or 0.03, if it had two polls
      or fewer, took 10 s or less, or rose by less than 0.002 degrees a second. */
  predicate Leaves(rate: real, cycles: nat, rise: real, ms: int) {
    if cycles > 2 && ms > 10000 && 0.002 * ms as real <= 1000.0 * rise
    then rate * ms as real == 1000.0 * rise else rate == 0.03
  }

  lemma {:induction false} SessionRateLeaves(s: Service, ms: nat)
    ensures Leaves(SessionRate(s, ms), s.cycles, s.filter.x0 - s.startTemp, ms)
  {
    var rise, dur := s.filter.x0 - s.startTemp, ms as real / 1000.0;
    if ms > 10000 {
      var q := Reals.Divided(rise, dur);
      QuotientLeaves(q, rise, dur, ms);
      assert SessionRate(s, ms) == if s.cycles > 2 && rise > 0.0 && q >= 0.002 then q else 0.03;
      hide SessionRate;
    }
  }

  lemma {:induction false} QuotientLeaves(q: real, rise: real, dur: real, ms: nat)
    requires ms > 10000 && dur * 1000.0 == ms as real && q * dur == rise
    ensures 0.002 * ms as real <= 1000.0 * rise <==> q >= 0.002
    ensures q >= 0.002 ==> rise > 0.0
    ensures q * ms as real == 1000.0 * rise
  {
    Multiplied(0.002, q, dur);
    assert q * (dur * 1000.0) == 1000.0 * (q * dur);
  }

  lemma {:induction false} RateInNumbers(s: Service, e: Env)
    requires Sound(s) && s.active && !(e.flame && e.dhw)
    ensures var v := View(Execute(s, e).history);
            && v != []
            && Leaves(v[|v| - 1], s.cycles, s.filter.x0 - s.startTemp, (e.nowMs - s.startMs) % UINT32)
  {
    hide Execute, Recorded, SessionRate, View, Leaves;
    EventView(s, Poll(e));
    SessionRateLeaves(s, (e.nowMs - s.startMs) % UINT32);
    assert Finished(s, Poll(e)) == [SessionRate(s, (e.nowMs - s.startMs) % UINT32)];
  }

  // ---------------------------------------------------------------- the service

  class DhwPredictService {
    const filter: KalmanFilter
    const rates: array<real>
    var active: bool
    var startTemp: real
    var startMs: nat
    var lastMs: nat
    var cycles: nat
    var idx: int
    var count: int
    var prevFlame: bool
    var prevDhw: bool
    var prediction: Prediction
    var saved: Option<History>

    ghost function Repr(): set<object> {
      {filter} + {rates}
    }

    ghost predicate Valid()
      reads this, Repr()
    {
      rates.Length == HIST_N && Ring(History(rates[..], idx, count)) && Good(filter.View())
    }

    ghost function State(): (s: Service)
      reads this, Repr()
    {
      Service(filter.View(), active, startTemp, startMs, lastMs, cycles,
              History(rates[..], idx, count), prevFlame, prevDhw, prediction, saved)
    }

    constructor ()
      ensures Valid() && fresh(Repr()) && State() == Boot(None)
    {
      filter := new KalmanFilter();
      rates := new real[HIST_N](_ => 0.0);
      active, startTemp, startMs, lastMs, cycles := false, 0.0, 0, 0, 0;
      idx, count, prevFlame, prevDhw, prediction, saved := 0, 0, false, false, HIDDEN, None;
      new;
      InitialIsGood();
      assert rates[..] == [0.0, 0.0, 0.0];
    }

    method GetPriorRate() returns (rate: real)
      requires Valid()
      ensures rate == PriorRate(State().history)
    {
      if count == 0 { return DEF_RATE_PRIOR; }
      var sum := 0.0;
      for i := 0 to count
        invariant sum == Sum(rates[..], i)
      {
        sum := sum + rates[i];
      }
      rate := sum / count as real;
    }

    method Start(e: Env)
      requires Valid()
      modifies this, filter
      ensures Valid() && State() == StartSession(old(State()), e)
    {
      var v0 := GetPriorRate();
      filter.ResetTo(e.temp, v0);
      startTemp := e.temp;
      startMs := e.nowMs;
      lastMs := startMs;
      active := true;
      cycles := 0;
      prediction := HIDDEN;
    }

    method UpdateWith(e: Env)
      requires Valid()
      modifies this, filter
      ensures Valid() && State() == UpdateSession(old(State()), e)
    {
      if !active { return; }
      hide Update, Reset, Predicted;
      var gapMs := (e.nowMs - lastMs) % UINT32;
      lastMs := e.nowMs;
      cycles := cycles + 1;
      if gapMs > 15000 {
        ResetIsGood(filter.View(), e.temp, filter.x1);
        filter.ResetTo(e.temp, filter.x1);
      }
      UpdateKeepsGood(filter.View(), e.temp, e.nowMs as real);
      var estimate := filter.Measure(e.temp, e.nowMs as real);
      Push(e);
    }

    method Push(e: Env)
      requires Valid()
      modifies this`prediction
      ensures State() == if cycles < 2 then old(State()) else old(State()).(prediction := Predicted(old(State()), e))
    {
      if cycles < 2 { return; }
      var rate := filter.x1;
      if rate < MIN_RATE { rate := MIN_RATE; }
      var delta := e.setpoint - filter.x0;
      if delta < 0.5 { delta := 0.5; }
      hide Deviation, Ratio, Round, Seconds;
      var elapsed := Seconds(startMs, e.nowMs);
      var remaining := Round(Ratio(delta, rate));
      if remaining < 0 { remaining := 0; }
      var uncertainty := Deviation(delta, rate, e.root);
      if uncertainty < MIN_UNCERT { uncertainty := MIN_UNCERT; }
      prediction := Prediction(true, remaining, uncertainty, rate, Round(elapsed));
    }

    method Finish(durationMs: nat)
      requires Valid()
      modifies this, rates
      ensures Valid() && State() == FinishSession(old(State()), durationMs)
    {
      if !active { return; }
      var dur := durationMs as real / 1000.0;
      var rate := DEF_RATE_PRIOR;
      if cycles > 2 && dur > 10.0 && filter.x0 > startTemp {
        rate := (filter.x0 - startTemp) / dur;
      }
      if rate < MIN_RATE { rate := DEF_RATE_PRIOR; }
      rates[idx] := rate;
      assert rates[..] == old(rates[..])[old(idx) := rate];
      idx := (idx + 1) % HIST_N;
      if count < HIST_N { count := count + 1; }
      saved := Some(History(rates[..], idx, count));
      active := false;
      prediction := HIDDEN;
    }

    method Run(e: Env)
      requires Valid()
      modifies this, filter, rates
      ensures Valid() && State() == Execute(old(State()), e)
    {
      hide StartSession, UpdateSession, FinishSession;
      var heating := e.flame && e.dhw;
      if heating && (!prevFlame || !prevDhw) {
        Start(e);
      }
      if active && heating {
        UpdateWith(e);
      }
      if active && !heating {
        Finish((e.nowMs - startMs) % UINT32);
      }
      prevFlame := e.flame;
      prevDhw := e.dhw;
    }
  }
}
