/** Meter corrections: the log and its migration from the older, longer layout, and the calibration
    factor learnt from them. */
module GasCorrection {
  import opened Common
  import Kalman1D
  import opened Reals

  const LOG_SIZE := 10
  const LEGACY_SIZE := 32

  datatype LogEntry = LogEntry(timestamp: nat, actual: real, estimated: real, difference: real, prevK: real, newK: real)

  const NO_ENTRY := LogEntry(0, 0.0, 0.0, 0.0, 0.0, 0.0)

  // ---------------------------------------------------------------- the log

  /** The corrections in the meter record: the slot for the next entry, and how many are filled. */
  datatype Log = Log(slots: seq<LogEntry>, head: int, count: int)

  predicate Shaped(g: Log, size: nat) {
    |g.slots| == size > 0 && 0 <= g.head < size && 0 <= g.count <= size
  }

  /** Entry i, counted from the oldest. */
  function Index(head: int, count: int, i: int, size: nat): (k: int)
    requires 0 <= head < size && 0 <= i < count <= size
    ensures k == if head - count + i >= 0 then head - count + i else head - count + i + size
    ensures 0 <= k < size
  {
    Wrapped(head - count + i + size, size);
    (head - count + i + size) % size
  }

  lemma {:induction false} Wrapped(x: nat, size: nat)
    requires 0 < size && x < 2 * size
    ensures x % size == if x < size then x else x - size
  {}

  /** The log as it is shown, oldest first. */
  function View(g: Log, size: nat): (v: seq<LogEntry>)
    requires Shaped(g, size)
    ensures |v| == g.count
    ensures forall i :: 0 <= i < g.count ==> v[i] == g.slots[Index(g.head, g.count, i, size)]
  {
    seq(g.count, i requires 0 <= i < g.count => g.slots[Index(g.head, g.count, i, size)])
  }

  function Advance(head: int): (h: int)
    requires 0 <= head < LOG_SIZE
    ensures h == if head == LOG_SIZE - 1 then 0 else head + 1
  {
    (head + 1) % LOG_SIZE
  }

  function Append(g: Log, e: LogEntry): (r: Log)
    requires Shaped(g, LOG_SIZE)
    ensures Shaped(r, LOG_SIZE)
  {
    Log(g.slots[g.head := e], Advance(g.head), if g.count < LOG_SIZE then g.count + 1 else g.count)
  }

  function Newest(old32: Log, keep: int): (slots: seq<LogEntry>)
    requires Shaped(old32, LEGACY_SIZE) && 0 <= keep <= LOG_SIZE
    ensures |slots| == LOG_SIZE
  {
    seq(LOG_SIZE, i requires 0 <= i < LOG_SIZE =>
      if i < keep then old32.slots[Index(old32.head, keep, i, LEGACY_SIZE)] else NO_ENTRY)
  }

  /** How many entries of a longer log are kept. */
  function Kept(count: int): int {
    if count < LOG_SIZE then count else LOG_SIZE
  }

  /** Takes the newest entries of the 32-slot log, as many as fit. */
  function Migrate(old32: Log): (g: Log)
    requires Shaped(old32, LEGACY_SIZE)
    ensures Shaped(g, LOG_SIZE)
  {
    var keep := Kept(old32.count);
    Log(Newest(old32, keep), keep % LOG_SIZE, keep)
  }

  function AppendAll(g: Log, es: seq<LogEntry>): (r: Log)
    requires Shaped(g, LOG_SIZE)
    ensures Shaped(r, LOG_SIZE)
    decreases |es|
  {
    if es == [] then g else AppendAll(Append(g, es[0]), es[1..])
  }

  lemma {:induction false} AppendShowsAt(g: Log, e: LogEntry, i: nat)
    requires Shaped(g, LOG_SIZE) && i < Append(g, e).count
    ensures View(Append(g, e), LOG_SIZE)[i] ==
            if i == Append(g, e).count - 1 then e
            else View(g, LOG_SIZE)[if g.count < LOG_SIZE then i else i + 1]
  {}

  lemma {:induction false} AppendShows(g: Log, e: LogEntry)
    requires Shaped(g, LOG_SIZE)
    ensures View(Append(g, e), LOG_SIZE) == Last(View(g, LOG_SIZE) + [e], LOG_SIZE)
  {
    var v, r := View(g, LOG_SIZE), Append(g, e);
    var n := r.count;
    assert n == if g.count < LOG_SIZE then g.count + 1 else LOG_SIZE;
    var a := View(r, LOG_SIZE);
    assert |v| == g.count && |a| == n;
    forall i | 0 <= i < n
      ensures a[i] == if i == n - 1 then e else v[if g.count < LOG_SIZE then i else i + 1]
    {
      AppendShowsAt(g, e, i);
    }
    hide Append, View;
    if g.count < LOG_SIZE {
      assert a == v + [e];
    } else {
      assert a == (v + [e])[1..];
    }
  }

  lemma {:induction false} MigratedSlot(old32: Log, i: nat)
    requires Shaped(old32, LEGACY_SIZE) && i < Migrate(old32).count
    ensures var r := Migrate(old32);
            r.slots[Index(r.head, r.count, i, LOG_SIZE)]
            == old32.slots[Index(old32.head, old32.count, old32.count - r.count + i, LEGACY_SIZE)]
  {}

  lemma {:induction false} MigratedAt(old32: Log, i: nat)
    requires Shaped(old32, LEGACY_SIZE) && i < Kept(old32.count)
    ensures Migrate(old32).count == Kept(old32.count)
    ensures View(Migrate(old32), LOG_SIZE)[i] == View(old32, LEGACY_SIZE)[old32.count - Kept(old32.count) + i]
  {
    assert Migrate(old32).count == Kept(old32.count);
    hide Index, Migrate, View;
    MigratedSlot(old32, i);
  }

  lemma {:induction false} MigrateShows(old32: Log)
    requires Shaped(old32, LEGACY_SIZE)
    ensures View(Migrate(old32), LOG_SIZE) == Last(View(old32, LEGACY_SIZE), LOG_SIZE)
  {
    assert Migrate(old32).count == Kept(old32.count);
    hide Index, Migrate, View, Last;
    var a, b := View(Migrate(old32), LOG_SIZE), Last(View(old32, LEGACY_SIZE), LOG_SIZE);
    assert |a| == |b| == Kept(old32.count);
    forall i | 0 <= i < |a| ensures a[i] == b[i] {
      MigratedAt(old32, i);
    }
  }

  lemma {:induction false} AppendAllShows(g: Log, es: seq<LogEntry>)
    requires Shaped(g, LOG_SIZE)
    ensures View(AppendAll(g, es), LOG_SIZE) == Last(View(g, LOG_SIZE) + es, LOG_SIZE)
    decreases |es|
  {
    var v := View(g, LOG_SIZE);
    if es == [] {
      assert v + [] == v;
      hide View;
    } else {
      AppendShows(g, es[0]);
      AppendAllShows(Append(g, es[0]), es[1..]);
      LastRegroups(v, [es[0]], es[1..], LOG_SIZE);
      assert [es[0]] + es[1..] == es;
      hide View, Append, Last;
    }
  }

  /** Main result: a legacy log with any head and count, migrated and then used, shows the last ten of
      its old entries followed by the new ones: as if it had never been migrated. */
  lemma {:induction false} MigrationCommutesWithUse(old32: Log, es: seq<LogEntry>)
    requires Shaped(old32, LEGACY_SIZE)
    ensures View(AppendAll(Migrate(old32), es), 10) == Last(View(old32, 32) + es, 10)
  {
    AppendAllShows(Migrate(old32), es);
    MigrateShows(old32);
    LastOfLast(View(old32, LEGACY_SIZE), es, LOG_SIZE);
    hide View, AppendAll, Migrate, Last;
  }

  // ---------------------------------------------------------------- the calibration

  const Q := 0.02
  const R := 1.0

  datatype Meter = Meter(base: real, lastActual: real, integralAtLast: real, log: Log)

  /** The shared state's meter base and factor, the gas service's integral and factor, the filter, and
      the meter record. */
  datatype World = World(base: real, k: real, integral: real, gasK: real, filter: Kalman1D.Filter, meter: Meter)

  predicate Sound(w: World) {
    Shaped(w.meter.log, LOG_SIZE) && w.filter.p > 0.0
  }

  function Clamp(x: real, lo: real, hi: real): real {
    if x < lo then lo else if x > hi then hi else x
  }

  /** The consumption since the last correction, read and estimated; the factor between them, or 1
      when the data do not suffice. */
  function KFactor(actual: real, estimated: real): real {
    if estimated < 0.001 || actual <= 0.0 then 1.0 else actual / estimated
  }

  predicate Accepted(w: World, reading: real) {
    !(reading - w.base < 0.01) && !(w.integral < (reading - w.base) * 0.1)
  }

  /** The factor that would have made the estimate right. */
  function Factor(w: World, reading: real): real {
    KFactor(reading - w.base, (w.base + w.integral) - w.base)
  }

  function Scale(k: real, factor: real): real {
    Clamp(k * factor, 0.5, 2.0)
  }

  function RawK(w: World, reading: real): real {
    Scale(w.k, Factor(w, reading))
  }

  function Correct(w: World, reading: real, now: nat): (r: World)
    requires Sound(w)
  {
    if !Accepted(w, reading) then w.(meter := w.meter.(base := w.base))
    else
      var filter := Kalman1D.Update(w.filter, Q, R, RawK(w, reading));
      var k := Clamp(filter.x, 0.1, 10.0);
      var entry := LogEntry(now, reading, w.base + w.integral, reading - (w.base + w.integral), w.k, k);
      World(reading, k, 0.0, k, filter, Meter(reading, reading, w.integral, Append(w.meter.log, entry)))
  }

  function EmptyLog(): Log {
    Log(seq(LOG_SIZE, _ => NO_ENTRY), 0, 0)
  }

  function ResetCorrections(w: World): World {
    World(w.base, 1.0, w.integral, 1.0, Kalman1D.Reset(1.0), Meter(w.base, 0.0, 0.0, EmptyLog()))
  }

  /** Sets the factor by hand; the filter is left as it was. */
  function SetK(w: World, v: real): World {
    w.(k := Clamp(v, 0.1, 10.0), gasK := Clamp(v, 0.1, 10.0))
  }

  function SetBase(w: World, v: real): World {
    var b := if v < 0.0 then 0.0 else v;
    w.(base := b, meter := w.meter.(base := b))
  }

  /** Start-up from the stored factor. */
  function Init(w: World): World {
    w.(filter := Kalman1D.Reset(w.k), gasK := w.k)
  }

  /** The events of a gateway; a restart finds the integral last saved, which may be any. */
  datatype Event =
    | Correction(reading: real, now: nat)
    | Burn(volume: real)
    | Reset
    | ManualK(v: real)
    | ManualBase(v: real)
    | Restart(integral: real)

  function After(w: World, e: Event): World
    requires Sound(w)
  {
    match e
    case Correction(reading, now) => Correct(w, reading, now)
    case Burn(volume) => w.(integral := w.integral + volume)
    case Reset => ResetCorrections(w)
    case ManualK(v) => SetK(w, v)
    case ManualBase(v) => SetBase(w, v)
    case Restart(integral) => Init(w).(integral := integral)
  }

  /** An accepted correction reconciles the estimate with the meter; a rejected one changes nothing but the
      base in the meter's record, to the current one. */
  lemma {:induction false} CorrectionReconciles(w: World, reading: real, now: nat)
    requires Sound(w)
    ensures var r := Correct(w, reading, now);
            && Sound(r)
            && (Accepted(w, reading) ==>
                  && r.base + r.integral == reading == r.meter.base && r.k == r.gasK
                  && r.meter.lastActual == reading && r.meter.integralAtLast == w.integral
                  && View(r.meter.log, LOG_SIZE) ==
                     Last(View(w.meter.log, LOG_SIZE)
                          + [LogEntry(now, reading, w.base + w.integral, reading - (w.base + w.integral), w.k, r.k)], LOG_SIZE))
            && (!Accepted(w, reading) ==> r == w.(meter := r.meter) && r.meter == w.meter.(base := w.base))
  {
    Kalman1D.UpdateStaysInHull(w.filter, Q, R, RawK(w, reading));
    var k := Clamp(Kalman1D.Update(w.filter, Q, R, RawK(w, reading)).x, 0.1, 10.0);
    AppendShows(w.meter.log, LogEntry(now, reading, w.base + w.integral, reading - (w.base + w.integral), w.k, k));
    hide View, Last, RawK;
  }

  /** The factor that a correction sets is the filter's estimate, kept between a tenth and ten. */
  lemma {:induction false} FactorIsClamped(w: World, reading: real, now: nat)
    requires Sound(w) && Accepted(w, reading)
    ensures var r := Correct(w, reading, now);
            0.1 <= r.k <= 10.0 && (r.k < r.filter.x ==> r.k == 10.0) && (r.k > r.filter.x ==> r.k == 0.1)
  {
    hide Kalman1D.Update, RawK, Append;
  }

  /** When a correction is accepted the data suffice: the factor is the true ratio, at most ten. */
  lemma {:induction false} FactorOnAcceptance(w: World, reading: real)
    requires Accepted(w, reading)
    ensures var actual := reading - w.base;
            var f := Factor(w, reading);
            f == actual / w.integral && 0.0 < f <= 10.0 && f * w.integral == actual
  {}

  /** A reset forgets the log and the factor and keeps the base and the gas counted since; and the first
      correction accepted after it is the only entry, with the factor that weighs the ratio it finds against
      a factor of one as 1.02 against 1. */
  lemma {:induction false} ResetStartsOver(w: World, reading: real, now: nat)
    ensures var z := ResetCorrections(w);
            && Sound(z) && View(z.meter.log, LOG_SIZE) == [] && z.meter.log.head == 0
            && z.base == w.base == z.meter.base && z.integral == w.integral && z.k == z.gasK == z.filter.x == 1.0
            && z.meter.lastActual == 0.0 && z.meter.integralAtLast == 0.0
            && (Accepted(z, reading) ==>
                  var r := Correct(z, reading, now);
                  && |View(r.meter.log, LOG_SIZE)| == 1
                  && 2.02 * r.k == 1.0 + 1.02 * Clamp((reading - w.base) / w.integral, 0.5, 2.0))
  {
    var z := ResetCorrections(w);
    if Accepted(z, reading) {
      FactorOnAcceptance(z, reading);
      Kalman1D.FirstUpdate(1.0, Q, R, RawK(z, reading));
      Kalman1D.UpdateStaysInHull(z.filter, Q, R, RawK(z, reading));
      CorrectionReconciles(z, reading, now);
      hide Kalman1D.Update, View, Factor;
    }
  }

  // ---------------------------------------------------------------- the factor stays in bounds

  ghost predicate Bounded(w: World, lo: real, hi: real) {
    && Sound(w)
    && lo <= w.k <= hi && lo <= w.gasK <= hi && lo <= w.filter.x <= hi
  }

  lemma {:induction false} StepBounded(w: World, e: Event, lo: real, hi: real)
    requires Bounded(w, lo, hi) && lo <= 0.5 && 2.0 <= hi
    requires e.ManualK? ==> lo <= Clamp(e.v, 0.1, 10.0) <= hi
    ensures Bounded(After(w, e), lo, hi)
  {
    if e.Correction? {
      CorrectionReconciles(w, e.reading, e.now);
      Kalman1D.UpdateStaysInHull(w.filter, Q, R, RawK(w, e.reading));
      hide RawK, View;
      assert 0.5 <= RawK(w, e.reading) <= 2.0 by { RawInRange(w, e.reading); }
      hide Kalman1D.Update;
    }
  }

  lemma {:induction false} RawInRange(w: World, reading: real)
    ensures 0.5 <= RawK(w, reading) <= 2.0
  {}

  function Run(w: World, events: seq<Event>): World
    requires Sound(w)
    decreases |events|
  {
    if events == [] then w else StepSound(w, events[0]); Run(After(w, events[0]), events[1..])
  }

  lemma {:induction false} StepSound(w: World, e: Event)
    requires Sound(w)
    ensures Sound(After(w, e))
  {}

  /** Over any run from a start with factor k0, without manual factors, the calibration factor stays
      between min(k0, 0.5) and max(k0, 2); manual ones widen the range by themselves only. */
  lemma {:induction false} FactorStaysBounded(w: World, events: seq<Event>, lo: real, hi: real)
    requires Bounded(w, lo, hi) && lo <= 0.5 && 2.0 <= hi
    requires forall e :: e in events && e.ManualK? ==> lo <= Clamp(e.v, 0.1, 10.0) <= hi
    ensures Bounded(Run(w, events), lo, hi)
    decreases |events|
  {
    if events != [] {
      assert events[0] in events;
      StepBounded(w, events[0], lo, hi);
      hide Bounded, After;
      FactorStaysBounded(After(w, events[0]), events[1..], lo, hi);
    }
  }

  lemma {:induction false} FactorBoundFromStart(w: World, events: seq<Event>)
    requires Sound(w) && forall e :: e in events ==> !e.ManualK?
    ensures var k := Run(Init(w), events).k;
            (if w.k < 0.5 then w.k else 0.5) <= k <= (if w.k > 2.0 then w.k else 2.0)
  {
    FactorStaysBounded(Init(w), events, if w.k < 0.5 then w.k else 0.5, if w.k > 2.0 then w.k else 2.0);
  }

  // ---------------------------------------------------------------- the factor is learnt

  /** The raw factor of an accepted correction, when the integral counts u cubic metres of the uncalibrated
      model and the meter has moved by `actual`: their ratio, whatever the current factor was. */
  lemma {:induction false} RawIsRatio(w: World, reading: real, u: real)
    requires Accepted(w, reading) && u > 0.0 && w.integral == w.k * u
    ensures RawK(w, reading) == Clamp((reading - w.base) / u, 0.5, 2.0)
  {
    FactorOnAcceptance(w, reading);
    hide Factor, Accepted, Scale;
    ScaleToRatio(w.k, Factor(w, reading), u, w.integral, reading - w.base);
  }

  lemma {:induction false} ScaleToRatio(k: real, f: real, u: real, integral: real, actual: real)
    requires u > 0.0 && f * integral == actual && integral == k * u
    ensures Scale(k, f) == Clamp(actual / u, 0.5, 2.0)
  {
    CrossOut(k, f, u, integral, actual);
    var ratio := Divided(actual, u);
    var raw := k * f;
    Cancel(raw, ratio, u);
  }

  /** If the boiler really burns c times what the uncalibrated model says (u cubic metres since the last
      correction), the raw factor of an accepted correction is c, whatever the current factor was. */
  lemma {:induction false} TrueFactorRecovered(w: World, reading: real, c: real, u: real)
    requires Accepted(w, reading) && u > 0.0
    requires w.integral == w.k * u && reading - w.base == c * u
    ensures RawK(w, reading) == Clamp(c, 0.5, 2.0)
  {
    RawIsRatio(w, reading, u);
    hide RawK, Accepted, Clamp;
    var ratio := Divided(reading - w.base, u);
    Cancel(ratio, c, u);
  }

  lemma {:induction false} Cancel(x: real, y: real, u: real)
    requires u > 0.0 && x * u == y * u
    ensures x == y
  {}

  lemma {:induction false} CrossOut(k: real, f: real, u: real, integral: real, actual: real)
    requires f * integral == actual && integral == k * u
    ensures (k * f) * u == actual
  {}

  function Power(b: real, n: nat): real {
    if n == 0 then 1.0 else b * Power(b, n - 1)
  }

  function UpdateAll(f: Kalman1D.Filter, c: real, n: nat): Kalman1D.Filter
    requires f.p > 0.0
    decreases n
  {
    if n == 0 then f
    else
      Kalman1D.UpdateStaysInHull(f, Q, R, c);
      UpdateAll(Kalman1D.Update(f, Q, R, c), c, n - 1)
  }

  /** What n corrections leave of an initial error d, at most: (1/1.02)^n of it. */
  function Remaining(n: nat, d: real): real {
    Power(R / (Q + R), n) * d
  }

  /** The factor is learnt at a geometric rate by corrections with the same raw factor c. */
  lemma {:induction false} FactorIsLearnt(f: Kalman1D.Filter, c: real, n: nat)
    requires f.p > 0.0
    ensures Kalman1D.Abs(UpdateAll(f, c, n).x - c) <= Remaining(n, Kalman1D.Abs(f.x - c))
    decreases n
  {
    hide Kalman1D.Abs, Kalman1D.Update;
    if n > 0 {
      var g := UpdateAllStep(f, c, n);
      hide UpdateAll, Remaining;
      FactorIsLearnt(g, c, n - 1);
      OneFactorMore(Kalman1D.Abs(g.x - c), Kalman1D.Abs(f.x - c), n);
    }
  }

  lemma {:induction false} UpdateAllStep(f: Kalman1D.Filter, c: real, n: nat) returns (g: Kalman1D.Filter)
    requires f.p > 0.0 && n > 0
    ensures g.p > 0.0 && UpdateAll(f, c, n) == UpdateAll(g, c, n - 1)
    ensures Kalman1D.Abs(g.x - c) <= R / (Q + R) * Kalman1D.Abs(f.x - c)
  {
    Kalman1D.UpdateStaysInHull(f, Q, R, c);
    Kalman1D.UpdateApproaches(f, Q, R, c);
    hide Kalman1D.Update, Kalman1D.Abs;
    g := Kalman1D.Update(f, Q, R, c);
  }

  lemma {:induction false} OneFactorMore(y: real, z: real, n: nat)
    requires n > 0 && y <= R / (Q + R) * z
    ensures Remaining(n - 1, y) <= Remaining(n, z)
  {
    var share := R / (Q + R);
    PowerPositive(share, n - 1);
    Chain(Power(share, n - 1), y, share, z);
  }

  lemma {:induction false} PowerPositive(b: real, n: nat)
    requires b > 0.0
    ensures Power(b, n) > 0.0
  {
    if n > 0 {
      PowerPositive(b, n - 1);
      ProductPositive(b, Power(b, n - 1));
    }
  }

  lemma {:induction false} Chain(p: real, x: real, share: real, y: real)
    requires p > 0.0 && x <= share * y
    ensures p * x <= (share * p) * y
  {}

  // ---------------------------------------------------------------- the factor is learnt over a life

  /** What happens to a boiler and its gateway: it burns what the uncalibrated model takes for v cubic metres,
      seen by the gateway or not; the meter is read and entered; the integral is saved; the gateway restarts,
      from the integral last saved. */
  datatype Use = Fire(v: real) | Unseen(v: real) | Read(now: nat) | Save | Reboot

  /** The gateway's state and the integral in flash; and, in cubic metres of the uncalibrated model since the
      meter base, what the integral and the one in flash count, and what was burnt. */
  datatype Life = Life(w: World, flash: real, seen: real, saved: real, burnt: real)

  /** Both integrals are the factor times what they count, which is not more than was burnt. */
  ghost predicate InStep(s: Life) {
    && Sound(s.w) && 0.1 <= s.w.k <= 10.0 && s.w.gasK == s.w.k && s.w.filter.x == s.w.k
    && s.w.integral == s.w.k * s.seen && s.flash == s.w.k * s.saved
    && 0.0 <= s.saved <= s.seen <= s.burnt
  }

  /** The meter of a boiler that really burns c times the uncalibrated model. */
  function MeterReading(s: Life, c: real): real {
    s.w.base + c * s.burnt
  }

  predicate IsAccepted(s: Life, u: Use, c: real) {
    u.Read? && Accepted(s.w, MeterReading(s, c))
  }

  function Live(s: Life, u: Use, c: real): Life
    requires Sound(s.w)
  {
    match u
    case Fire(v) => s.(w := After(s.w, Burn(s.w.gasK * v)), seen := s.seen + v, burnt := s.burnt + v)
    case Unseen(v) => s.(burnt := s.burnt + v)
    case Read(now) =>
      var w := After(s.w, Correction(MeterReading(s, c), now));
      if IsAccepted(s, u, c) then Life(w, 0.0, 0.0, 0.0, 0.0) else s.(w := w)
    case Save => s.(flash := s.w.integral, saved := s.seen)
    case Reboot => s.(w := After(s.w, Restart(s.flash)), seen := s.saved)
  }

  predicate Happens(u: Use) {
    u.Fire? || u.Unseen? ==> u.v >= 0.0
  }

  function LiveAll(s: Life, uses: seq<Use>, c: real): Life
    requires Sound(s.w)
    decreases |uses|
  {
    if uses == [] then s else LiveSound(s, uses[0], c); LiveAll(Live(s, uses[0], c), uses[1..], c)
  }

  lemma {:induction false} LiveSound(s: Life, u: Use, c: real)
    requires Sound(s.w)
    ensures Sound(Live(s, u, c).w)
  {}

  /** Which readings are accepted: those after at least a hundredth of a cubic metre of which the integral
      counts at least a tenth; if no gas is lost, unless the factor is less than a tenth of the true one. */
  lemma {:induction false} AcceptedIff(s: Life, c: real)
    requires InStep(s) && c > 0.0
    ensures Accepted(s.w, MeterReading(s, c)) <==> c * s.burnt >= 0.01 && s.w.k * s.seen >= 0.1 * (c * s.burnt)
    ensures s.seen == s.burnt ==>
              (Accepted(s.w, MeterReading(s, c)) <==> c * s.burnt >= 0.01 && s.w.k >= 0.1 * c)
  {
    if c * s.burnt >= 0.01 && s.seen == s.burnt {
      SignOfFactor(c, s.burnt, c * s.burnt);
      Compare(s.w.k, 0.1 * c, s.burnt);
    }
  }

  lemma {:induction false} Compare(x: real, y: real, u: real)
    requires u > 0.0
    ensures x * u < y * u <==> x < y
  {}

  /** A reading shows the true factor: the integral counts all the gas, or so much of it that both ratios are
      cut at the same end of [0.5, 2]. */
  predicate Recovers(s: Life, c: real) {
    s.seen == s.burnt || c >= 2.0 || c * s.burnt <= 0.5 * s.seen
  }

  /** What an accepted reading takes for the factor: the true one times the gas burnt over the gas counted,
      within [0.5, 2]. Lost gas can only raise it, and it is the true one exactly if the reading recovers. */
  lemma {:induction false} RawWithLoss(s: Life, c: real)
    requires InStep(s) && c > 0.0 && Accepted(s.w, MeterReading(s, c))
    ensures var raw := RawK(s.w, MeterReading(s, c));
            && s.seen > 0.0
            && raw == Clamp(c * s.burnt / s.seen, 0.5, 2.0)
            && raw >= Clamp(c, 0.5, 2.0)
            && (raw == Clamp(c, 0.5, 2.0) <==> Recovers(s, c))
  {
    SeenIsPositive(s, c);
    RawIsRatio(s.w, MeterReading(s, c), s.seen);
    hide RawK, Accepted, InStep;
    var ratio := Divided(c * s.burnt, s.seen);
    RatioToTrue(ratio, c, s.seen, s.burnt);
  }

  lemma {:induction false} SeenIsPositive(s: Life, c: real)
    requires InStep(s) && c > 0.0 && Accepted(s.w, MeterReading(s, c))
    ensures s.seen > 0.0
  {
    assert s.w.integral > 0.0;
    SignOfFactor(s.w.k, s.seen, s.w.integral);
  }

  lemma {:induction false} RatioToTrue(ratio: real, c: real, seen: real, burnt: real)
    requires c > 0.0 && 0.0 < seen <= burnt && ratio * seen == c * burnt
    ensures ratio >= c
    ensures ratio == c <==> seen == burnt
    ensures ratio <= 0.5 <==> c * burnt <= 0.5 * seen
  {
    Scales(c, seen, burnt);
    Compare(ratio, c, seen);
    if ratio == c { Cancel(seen, burnt, c); }
    Compare(0.5, ratio, seen);
    if seen == burnt { Cancel(ratio, c, seen); }
  }

  lemma {:induction false} Scales(c: real, a: real, b: real)
    requires c > 0.0 && a <= b
    ensures c * a <= c * b
  {}

  /** What one event does to the factor: an accepted reading moves it towards what it takes for the factor and
      not past that, at least by the filter's share; nothing else moves it. */
  lemma {:induction false} LiveStep(s: Life, u: Use, c: real)
    requires InStep(s) && c > 0.0 && Happens(u)
    ensures var r := Live(s, u, c);
            && InStep(r)
            && (IsAccepted(s, u, c) ==>
                  var raw := RawK(s.w, MeterReading(s, c));
                  && 0.5 <= raw <= 2.0
                  && (s.w.k <= raw ==> s.w.k <= r.w.k <= raw) && (s.w.k >= raw ==> raw <= r.w.k <= s.w.k)
                  && Kalman1D.Abs(r.w.k - raw) <= R / (Q + R) * Kalman1D.Abs(s.w.k - raw)
                  && (s.w.k < raw ==> s.w.k < r.w.k))
            && (!IsAccepted(s, u, c) ==> r.w.k == s.w.k)
  {
    hide Accepted, RawK, Kalman1D.Abs, Kalman1D.Update;
    match u
    case Fire(v) =>
      Distributes(s.w.k, s.seen, v);
    case Unseen(v) =>
    case Read(now) =>
      if Accepted(s.w, MeterReading(s, c)) {
        ReadStep(s.w, MeterReading(s, c), now);
      }
    case Save =>
    case Reboot =>
  }

  lemma {:induction false} Distributes(k: real, a: real, b: real)
    ensures k * (a + b) == k * a + k * b
  {}

  lemma {:induction false} ReadStep(w: World, reading: real, now: nat)
    requires Sound(w) && Accepted(w, reading) && 0.1 <= w.k <= 10.0 && w.filter.x == w.k
    ensures var r, raw := Correct(w, reading, now), RawK(w, reading);
            && Sound(r) && r.integral == 0.0 && 0.1 <= r.k <= 10.0 && r.gasK == r.k && r.filter.x == r.k
            && 0.5 <= raw <= 2.0
            && (w.k <= raw ==> w.k <= r.k <= raw) && (w.k >= raw ==> raw <= r.k <= w.k)
            && Kalman1D.Abs(r.k - raw) <= R / (Q + R) * Kalman1D.Abs(w.k - raw)
            && (w.k < raw ==> w.k < r.k)
  {
    var raw := RawK(w, reading);
    CorrectionReconciles(w, reading, now);
    RawInRange(w, reading);
    hide RawK, View, Last;
    Kalman1D.UpdateStaysInHull(w.filter, Q, R, raw);
    Kalman1D.UpdateApproaches(w.filter, Q, R, raw);
    if w.k < raw {
      ProductPositive(Kalman1D.Gain(w.filter.p, Q, R), raw - w.k);
    }
    hide Kalman1D.Gain, Kalman1D.Abs;
  }

  /** The loss test lets through most of what it is there to stop. With the factor right and inside its range,
      a reading raises it above the true one if and only if some gas was lost and the integral still counts a
      tenth of what was burnt; otherwise the factor stays right. (A restart loses what was burnt since the last
      save.) */
  lemma {:induction false} LossRaisesFactorIff(s: Life, c: real, now: nat)
    requires InStep(s) && 0.5 <= c < 2.0 && s.w.k == c
    ensures var k := Live(s, Read(now), c).w.k;
            && (k > c <==> c * s.burnt >= 0.01 && 0.1 * s.burnt <= s.seen < s.burnt)
            && k >= c
  {
    hide RawK, Accepted, Live, Kalman1D.Abs, Recovers;
    AcceptedIff(s, c);
    TenthCounted(s, c);
    var accepted := Accepted(s.w, MeterReading(s, c));
    assert accepted <==> c * s.burnt >= 0.01 && 0.1 * s.burnt <= s.seen;
    assert IsAccepted(s, Read(now), c) == accepted;
    LiveStep(s, Read(now), c);
    if accepted {
      RawWithLoss(s, c);
      RecoversIff(s, c);
    }
  }

  lemma {:induction false} TenthCounted(s: Life, c: real)
    requires c > 0.0
    ensures c * s.seen >= 0.1 * (c * s.burnt) <==> 0.1 * s.burnt <= s.seen
  {
    Compare(s.seen, 0.1 * s.burnt, c);
    assert 0.1 * s.burnt * c == 0.1 * (c * s.burnt);
  }

  lemma {:induction false} RecoversIff(s: Life, c: real)
    requires 0.5 <= c < 2.0 && 0.0 < s.seen <= s.burnt
    ensures Recovers(s, c) <==> s.seen == s.burnt
  {
    Compare(s.seen, s.burnt, c);
    Scales(s.seen, 0.5, c);
  }

  /** How many accepted readings there have been, after n, since the last one that did not recover. */
  function Streak(s: Life, uses: seq<Use>, c: real, n: nat): nat
    requires Sound(s.w)
    decreases |uses|
  {
    if uses == [] then n
    else
      LiveSound(s, uses[0], c);
      Streak(Live(s, uses[0], c), uses[1..], c,
             if !IsAccepted(s, uses[0], c) then n else if Recovers(s, c) then n + 1 else 0)
  }

  /** How many accepted readings there are in all. */
  function Corrections(s: Life, uses: seq<Use>, c: real): nat
    requires Sound(s.w)
    decreases |uses|
  {
    if uses == [] then 0
    else
      LiveSound(s, uses[0], c);
      (if IsAccepted(s, uses[0], c) then 1 else 0) + Corrections(Live(s, uses[0], c), uses[1..], c)
  }

  /** Every accepted reading recovers. */
  predicate AllRecover(s: Life, uses: seq<Use>, c: real)
    requires Sound(s.w)
    decreases |uses|
  {
    uses == [] ||
    (LiveSound(s, uses[0], c);
     (IsAccepted(s, uses[0], c) ==> Recovers(s, c)) && AllRecover(Live(s, uses[0], c), uses[1..], c))
  }

  function Distance(s: Life, c: real): real {
    Kalman1D.Abs(s.w.k - Clamp(c, 0.5, 2.0))
  }

  /** A reading that recovers leaves the filter's share of the distance; another one leaves no more than there
      was, or the width of [0.5, 2]. */
  lemma {:induction false} DistanceStep(s: Life, u: Use, c: real)
    requires InStep(s) && c > 0.0 && Happens(u)
    ensures var r := Live(s, u, c);
            && InStep(r)
            && (!IsAccepted(s, u, c) ==> Distance(r, c) == Distance(s, c))
            && (IsAccepted(s, u, c) && Recovers(s, c) ==> Distance(r, c) <= R / (Q + R) * Distance(s, c))
            && (Distance(r, c) <= Distance(s, c) || Distance(r, c) <= 1.5)
  {
    LiveStep(s, u, c);
    if IsAccepted(s, u, c) {
      RawWithLoss(s, c);
    }
    hide Live, InStep, RawK, Recovers, Accepted;
  }

  lemma {:induction false} RemainingBound(n: nat, d: real)
    requires d >= 0.0
    ensures Remaining(0, d) == d && 0.0 <= Remaining(n, d) <= d
  {
    if n > 0 {
      RemainingBound(n - 1, d);
      SmallerByShare(Power(R / (Q + R), n - 1), d);
    }
  }

  lemma {:induction false} SmallerByShare(p: real, d: real)
    requires 0.0 <= p * d <= d
    ensures 0.0 <= (R / (Q + R) * p) * d <= d
  {
    var share := R / (Q + R);
    assert (share * p) * d == share * (p * d);
    assert 0.0 < share < 1.0;
  }

  lemma {:induction false} LifeBound(s: Life, uses: seq<Use>, c: real, n: nat, m: real)
    requires InStep(s) && c > 0.0 && (forall u :: u in uses ==> Happens(u)) && m >= 0.0
    requires Distance(s, c) <= Remaining(n, m) && (m >= 1.5 || AllRecover(s, uses, c))
    ensures InStep(LiveAll(s, uses, c)) && Distance(LiveAll(s, uses, c), c) <= Remaining(Streak(s, uses, c, n), m)
    decreases |uses|
  {
    if uses != [] {
      var u := uses[0];
      assert u in uses && forall x :: x in uses[1..] ==> x in uses;
      DistanceStep(s, u, c);
      RemainingBound(n, m);
      hide InStep, Live, IsAccepted, Recovers, Remaining, Distance, Happens;
      var next := if !IsAccepted(s, u, c) then n else if Recovers(s, c) then n + 1 else 0;
      if IsAccepted(s, u, c) && Recovers(s, c) {
        RemainingStep(Distance(Live(s, u, c), c), Distance(s, c), n, m);
      }
      LifeBound(Live(s, u, c), uses[1..], c, next, m);
    }
  }

  lemma {:induction false} RemainingStep(y: real, x: real, n: nat, m: real)
    requires y <= R / (Q + R) * x && x <= Remaining(n, m)
    ensures y <= Remaining(n + 1, m)
  {
    var share, p := R / (Q + R), Power(R / (Q + R), n);
    assert (share * p) * m == share * (p * m);
  }

  lemma {:induction false} StreakIsAll(s: Life, uses: seq<Use>, c: real, n: nat)
    requires Sound(s.w) && AllRecover(s, uses, c)
    ensures Streak(s, uses, c, n) == n + Corrections(s, uses, c)
    decreases |uses|
  {
    if uses != [] {
      LiveSound(s, uses[0], c);
      hide Live, IsAccepted, Recovers;
      StreakIsAll(Live(s, uses[0], c), uses[1..], c, if IsAccepted(s, uses[0], c) then n + 1 else n);
    }
  }

  /** Main result: over any life of burns, seen or not, readings, saves and restarts of a boiler that really
      burns c times the uncalibrated model, n accepted readings leave at most (1/1.02)^n of the factor's
      initial distance to c (or to the end of [0.5, 2] nearest to c), if each of them recovers. */
  lemma {:induction false} LifeLearnsTheFactor(s: Life, uses: seq<Use>, c: real)
    requires InStep(s) && c > 0.0 && (forall u :: u in uses ==> Happens(u)) && AllRecover(s, uses, c)
    ensures InStep(LiveAll(s, uses, c))
    ensures Distance(LiveAll(s, uses, c), c) <= Remaining(Corrections(s, uses, c), Distance(s, c))
  {
    var d := Distance(s, c);
    RemainingBound(0, d);
    hide InStep, Distance, Remaining, LiveAll, AllRecover;
    LifeBound(s, uses, c, 0, d);
    StreakIsAll(s, uses, c, 0);
  }

  /** And over any life at all, whatever restarts have lost: after n accepted readings that recover in a row,
      at most (1/1.02)^n is left of the initial distance or of 1.5, the width of the range. */
  lemma {:induction false} LossesAreForgotten(s: Life, uses: seq<Use>, c: real)
    requires InStep(s) && c > 0.0 && forall u :: u in uses ==> Happens(u)
    ensures var worst := if Distance(s, c) > 1.5 then Distance(s, c) else 1.5;
            && InStep(LiveAll(s, uses, c))
            && Distance(LiveAll(s, uses, c), c) <= Remaining(Streak(s, uses, c, 0), worst)
  {
    var worst := if Distance(s, c) > 1.5 then Distance(s, c) else 1.5;
    RemainingBound(0, worst);
    hide InStep, Distance, Remaining, LiveAll;
    LifeBound(s, uses, c, 0, worst);
  }

  // ---------------------------------------------------------------- the interactor

  /** The legacy record as the loop reads it: a head beyond the slots is taken modulo their number, a
      count below or above the possible as none or all. */
  function Legacy(slots: seq<LogEntry>, head: int, count: int): (g: Log)
    requires |slots| == LEGACY_SIZE
    ensures Shaped(g, LEGACY_SIZE)
  {
    Log(slots, head % LEGACY_SIZE, if count < 0 then 0 else if count > LEGACY_SIZE then LEGACY_SIZE else count)
  }

  lemma {:induction false} LegacyIndex(head: int, keep: int, i: int)
    requires 0 <= i < keep <= LOG_SIZE
    ensures (head - keep + i + LEGACY_SIZE) % LEGACY_SIZE == Index(head % LEGACY_SIZE, keep, i, LEGACY_SIZE)
  {}

  /** Loads a legacy record: the loop of the store, for every count and for every head at which its
      index neither overflows nor falls below zero. */
  method LoadLegacy(slots: seq<LogEntry>, head: int, count: int)
    returns (log: seq<LogEntry>, newHead: int, newCount: int)
    requires |slots| == LEGACY_SIZE
    requires count > 0 ==> Kept(count) - LEGACY_SIZE <= head <= UINT32 / 2 - LEGACY_SIZE
    ensures newCount == Kept(count)
    ensures Log(log, newHead, if newCount < 0 then 0 else newCount) == Migrate(Legacy(slots, head, count))
    ensures View(Migrate(Legacy(slots, head, count)), LOG_SIZE)
         == Last(View(Legacy(slots, head, count), LEGACY_SIZE), LOG_SIZE)
  {
    var keep := if count < LOG_SIZE then count else LOG_SIZE;
    var target := new LogEntry[LOG_SIZE](_ => NO_ENTRY);
    newHead, newCount := 0, keep;
    if keep > 0 {
      for i := 0 to keep
        invariant forall j :: 0 <= j < LOG_SIZE ==>
                    target[j] == if j < i then slots[Index(head % LEGACY_SIZE, keep, j, LEGACY_SIZE)] else NO_ENTRY
      {
        LegacyIndex(head, keep, i);
        target[i] := slots[(head - keep + i + LEGACY_SIZE) % LEGACY_SIZE];
      }
      newHead := keep % LOG_SIZE;
    }
    log := target[..];
    hide Index;
    assert log == Migrate(Legacy(slots, head, count)).slots;
    MigrateShows(Legacy(slots, head, count));
  }

  class GasCorrectionInteractor {
    const log: array<LogEntry>
    var head: int
    var count: int
    var meterBase: real
    var lastActual: real
    var integralAtLast: real
    var base: real
    var k: real
    var integral: real
    var gasK: real
    const filter: Kalman1D.KalmanFilter

    ghost predicate Valid()
      reads this, filter
    {
      log.Length == LOG_SIZE && 0 <= head < LOG_SIZE && 0 <= count <= LOG_SIZE
      && filter.q == Q && filter.r == R && filter.p > 0.0
    }

    ghost function State(): (w: World)
      requires Valid()
      ensures Sound(w)
      reads this, log, filter
    {
      World(base, k, integral, gasK, filter.View(), Meter(meterBase, lastActual, integralAtLast, Log(log[..], head, count)))
    }

    constructor ()
      ensures Valid() && fresh(log) && fresh(filter)
      ensures State() == World(0.0, 1.0, 0.0, 1.0, Kalman1D.Reset(1.0), Meter(0.0, 0.0, 0.0, EmptyLog()))
    {
      log := new LogEntry[LOG_SIZE](_ => NO_ENTRY);
      head, count, meterBase, lastActual, integralAtLast := 0, 0, 0.0, 0.0, 0.0;
      base, k, integral, gasK := 0.0, 1.0, 0.0, 1.0;
      filter := new Kalman1D.KalmanFilter(1.0, Q, R);
      new;
      assert log[..] == EmptyLog().slots;
    }

    method AddMeterCorrection(reading: real, now: nat) returns (accepted: bool)
      requires Valid()
      modifies this, log, filter
      ensures Valid() && accepted == Accepted(old(State()), reading)
      ensures State() == Correct(old(State()), reading, now)
    {
      var estimated := base + integral;
      meterBase := base;
      var diff := reading - estimated;
      var actual := reading - base;
      if actual < 0.01 { return false; }
      if integral < actual * 0.1 { return false; }
      var prevK := k;
      var factor := KFactor(actual, estimated - base);
      assert factor == Factor(old(State()), reading);
      hide Scale, KFactor, Factor;
      var raw := Scale(prevK, factor);
      assert raw == RawK(old(State()), reading);
      hide RawK;
      var newK := filter.Measure(raw);
      if newK < 0.1 { newK := 0.1; }
      if newK > 10.0 { newK := 10.0; }
      k := newK;
      gasK := newK;
      log[head] := LogEntry(now, reading, estimated, diff, prevK, newK);
      head := Advance(head);
      if count < LOG_SIZE { count := count + 1; }
      lastActual := reading;
      integralAtLast := integral;
      integral := 0.0;
      base := reading;
      meterBase := reading;
      accepted := true;
    }

    method ResetAll()
      requires Valid()
      modifies this, log, filter
      ensures Valid() && State() == ResetCorrections(old(State()))
    {
      for i := 0 to LOG_SIZE
        invariant forall j :: 0 <= j < i ==> log[j] == NO_ENTRY
        modifies log
      {
        log[i] := NO_ENTRY;
      }
      assert log[..] == EmptyLog().slots;
      head, count, lastActual, integralAtLast := 0, 0, 0.0, 0.0;
      meterBase := base;
      k := 1.0;
      filter.ResetTo(1.0);
      gasK := 1.0;
    }
  }
}
