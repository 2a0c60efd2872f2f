/** The modulation histogram: recording, ageing, percentiles and persistence. */
module ModulationStats {

  const BINS := 100
  const DECAY_THRESHOLD := 50000

  datatype Stats = Stats(hist: seq<nat>, samples: nat)

  /** Conversion to int: towards zero. */
  function Truncate(x: real): int {
    if x >= 0.0 then x.Floor else -((-x).Floor)
  }

  /** One percent per bin; values outside the scale go to the end bins. */
  function Bin(modulation: real): (b: nat)
    ensures b < BINS
  {
    var b := Truncate(modulation);
    if b < 0 then 0 else if b >= BINS then BINS - 1 else b
  }

  lemma {:induction false} BinBelow(modulation: real, i: nat)
    requires 1 <= i < BINS
    ensures Bin(modulation) < i <==> modulation < i as real
  {}

  /** The number of samples in the first n bins. */
  function Cum(hist: seq<nat>, n: nat): nat
    requires n <= |hist|
  {
    if n == 0 then 0 else Cum(hist, n - 1) + hist[n - 1]
  }

  /** The invariant: the counter is the sum of the bins, and below the ageing threshold. */
  predicate Consistent(s: Stats) {
    |s.hist| == BINS && s.samples == Cum(s.hist, BINS) && s.samples < DECAY_THRESHOLD
  }

  function Halved(hist: seq<nat>): (h: seq<nat>)
    ensures |h| == |hist| && forall i :: 0 <= i < |hist| ==> h[i] == hist[i] / 2
  {
    seq(|hist|, i requires 0 <= i < |hist| => hist[i] / 2)
  }

  function Aged(s: Stats): Stats
    requires |s.hist| == BINS
  {
    Stats(Halved(s.hist), Cum(Halved(s.hist), BINS))
  }

  function Recorded(s: Stats, flame: bool, modulation: real): (r: Stats)
    requires |s.hist| == BINS
    ensures |r.hist| == BINS
  {
    if !flame then s
    else
      var bin := Bin(modulation);
      var r := Stats(s.hist[bin := s.hist[bin] + 1], s.samples + 1);
      if r.samples >= DECAY_THRESHOLD then Aged(r) else r
  }

  function Empty(): (s: Stats)
    ensures |s.hist| == BINS
  {
    Stats(seq(BINS, _ => 0), 0)
  }

  // ---------------------------------------------------------------- sums

  lemma {:induction false} CumUpdate(hist: seq<nat>, bin: nat, n: nat)
    requires bin < |hist| && n <= |hist|
    ensures Cum(hist[bin := hist[bin] + 1], n) == Cum(hist, n) + if bin < n then 1 else 0
    decreases n
  {
    if n > 0 {
      CumUpdate(hist, bin, n - 1);
    }
  }

  lemma {:induction false} CumOfZeros(n: nat)
    requires n <= BINS
    ensures Cum(Empty().hist, n) == 0
    decreases n
  {
    if n > 0 {
      CumOfZeros(n - 1);
    }
  }

  /** Ageing halves every cumulative count, up to one lost half sample per bin. */
  lemma {:induction false} DecayHalvesEveryCount(hist: seq<nat>, n: nat)
    requires n <= |hist|
    ensures Cum(hist, n) - n <= 2 * Cum(Halved(hist), n) <= Cum(hist, n)
    decreases n
  {
    if n > 0 {
      DecayHalvesEveryCount(hist, n - 1);
    }
  }

  lemma {:induction false} EmptyIsConsistent()
    ensures Consistent(Empty())
  {
    CumOfZeros(BINS);
  }

  /** Every execution keeps the counter exact and bounded. */
  lemma {:induction false} ExecuteKeepsConsistent(s: Stats, flame: bool, modulation: real)
    requires Consistent(s)
    ensures Consistent(Recorded(s, flame, modulation))
  {
    if flame {
      var bin := Bin(modulation);
      var hist := s.hist[bin := s.hist[bin] + 1];
      CumUpdate(s.hist, bin, BINS);
      DecayHalvesEveryCount(hist, BINS);
    }
  }

  /** The 50000th sample ages the histogram, and about half of the samples stay. */
  lemma {:induction false} DecayLeavesHalf(s: Stats, modulation: real)
    requires Consistent(s) && s.samples == 49999
    ensures 24950 <= Recorded(s, true, modulation).samples <= 25000
    ensures var hist := s.hist[Bin(modulation) := s.hist[Bin(modulation)] + 1];
            forall n :: 0 <= n <= BINS ==>
              -BINS <= 2 * Cum(Recorded(s, true, modulation).hist, n) - Cum(hist, n) <= BINS
  {
    var bin := Bin(modulation);
    var hist := s.hist[bin := s.hist[bin] + 1];
    CumUpdate(s.hist, bin, BINS);
    DecayHalvesEveryCount(hist, BINS);
    forall n | 0 <= n <= BINS
      ensures -BINS <= 2 * Cum(Halved(hist), n) - Cum(hist, n) <= BINS
    {
      DecayHalvesEveryCount(hist, n);
    }
  }

  // ---------------------------------------------------------------- the sorted list

  function Repeat(x: nat, n: nat): (s: seq<nat>)
    ensures |s| == n && forall i :: 0 <= i < n ==> s[i] == x
  {
    seq(n, _ => x)
  }

  /** The recorded bins as a sorted list. */
  function Spread(hist: seq<nat>, n: nat): (s: seq<nat>)
    requires n <= |hist|
    ensures |s| == Cum(hist, n)
  {
    if n == 0 then [] else Spread(hist, n - 1) + Repeat(n - 1, hist[n - 1])
  }

  /** Rank k falls into bin i exactly when the counts up to i enclose it. */
  lemma {:induction false} RankInBin(hist: seq<nat>, n: nat, k: nat, i: nat)
    requires i < n <= |hist| && k < Cum(hist, n)
    ensures Spread(hist, n)[k] == i <==> Cum(hist, i) <= k < Cum(hist, i + 1)
    decreases n
  {
    if k < Cum(hist, n - 1) {
      if i < n - 1 {
        RankInBin(hist, n - 1, k, i);
      } else {
        SpreadBelow(hist, n - 1, k);
      }
    } else if i < n - 1 {
      CumMonotone(hist, i + 1, n - 1);
    }
  }

  lemma {:induction false} SpreadBelow(hist: seq<nat>, n: nat, k: nat)
    requires n <= |hist| && k < Cum(hist, n)
    ensures Spread(hist, n)[k] < n
    decreases n
  {
    if k < Cum(hist, n - 1) {
      SpreadBelow(hist, n - 1, k);
    }
  }

  lemma {:induction false} CumMonotone(hist: seq<nat>, m: nat, n: nat)
    requires m <= n <= |hist|
    ensures Cum(hist, m) <= Cum(hist, n)
    decreases n
  {
    if m < n {
      CumMonotone(hist, m, n - 1);
    }
  }

  lemma {:induction false} SpreadIsSorted(hist: seq<nat>, n: nat, j: nat, k: nat)
    requires n <= |hist| && j <= k < Cum(hist, n)
    ensures Spread(hist, n)[j] <= Spread(hist, n)[k]
    decreases n
  {
    if k < Cum(hist, n - 1) {
      SpreadIsSorted(hist, n - 1, j, k);
    } else if j < Cum(hist, n - 1) {
      SpreadBelow(hist, n - 1, j);
    }
  }

  // ---------------------------------------------------------------- percentiles

  /** The rank that a percentile asks for. */
  function Target(p: real, samples: nat): (k: nat)
    requires 0.0 <= p <= 1.0 && samples > 0
    ensures k < samples
  {
    TargetInRange(p, samples);
    (p * (samples - 1) as real).Floor
  }

  lemma {:induction false} TargetInRange(p: real, samples: nat)
    requires 0.0 <= p <= 1.0 && samples > 0
    ensures 0 <= (p * (samples - 1) as real).Floor < samples
  {
    var n := (samples - 1) as real;
    Fraction(p, n);
    FloorMonotone(0.0, p * n);
    FloorMonotone(p * n, n);
  }

  lemma {:induction false} Fraction(p: real, n: real)
    requires 0.0 <= p <= 1.0 && n >= 0.0
    ensures 0.0 <= p * n <= n
  {}

  lemma {:induction false} TargetMonotone(p: real, q: real, samples: nat)
    requires 0.0 <= p <= q <= 1.0 && samples > 0
    ensures Target(p, samples) <= Target(q, samples)
  {
    var n := (samples - 1) as real;
    assert p * n <= q * n;
    FloorMonotone(p * n, q * n);
  }

  lemma {:induction false} FloorMonotone(x: real, y: real)
    requires x <= y
    ensures x.Floor <= y.Floor
  {}

  /** The order statistic of the recorded bins; 0 when there are none. */
  function Percentile(s: Stats, p: real): real
    requires Consistent(s) && 0.0 <= p <= 1.0
  {
    if s.samples == 0 then 0.0 else Spread(s.hist, BINS)[Target(p, s.samples)] as real
  }

  lemma {:induction false} PercentileMonotone(s: Stats, p: real, q: real)
    requires Consistent(s) && 0.0 <= p <= q <= 1.0
    ensures 0.0 <= Percentile(s, p) <= Percentile(s, q) <= 99.0
  {
    if s.samples > 0 {
      TargetMonotone(p, q, s.samples);
      hide Target;
      SpreadIsSorted(s.hist, BINS, Target(p, s.samples), Target(q, s.samples));
      SpreadBelow(s.hist, BINS, Target(q, s.samples));
    }
  }

  // ---------------------------------------------------------------- what was sampled

  /** A poll: whether the flame was on, and the modulation reported. */
  datatype Poll = Poll(flame: bool, modulation: real)

  function Run(s: Stats, polls: seq<Poll>): (r: Stats)
    requires |s.hist| == BINS
    ensures |r.hist| == BINS
    decreases |polls|
  {
    if polls == [] then s
    else Recorded(Run(s, polls[..|polls| - 1]), polls[|polls| - 1].flame, polls[|polls| - 1].modulation)
  }

  lemma {:induction false} RunKeepsConsistent(s: Stats, polls: seq<Poll>)
    requires Consistent(s)
    ensures Consistent(Run(s, polls))
    decreases |polls|
  {
    if polls != [] {
      RunKeepsConsistent(s, polls[..|polls| - 1]);
      ExecuteKeepsConsistent(Run(s, polls[..|polls| - 1]), polls[|polls| - 1].flame, polls[|polls| - 1].modulation);
    }
  }

  /** How many polls saw the flame. */
  function Fired(polls: seq<Poll>): nat {
    if polls == [] then 0
    else Fired(polls[..|polls| - 1]) + if polls[|polls| - 1].flame then 1 else 0
  }

  /** How many of those reported less than x. */
  function FiredBelow(polls: seq<Poll>, x: real): nat {
    if polls == [] then 0
    else FiredBelow(polls[..|polls| - 1], x)
         + if polls[|polls| - 1].flame && polls[|polls| - 1].modulation < x then 1 else 0
  }

  lemma {:induction false} HistogramCounts(polls: seq<Poll>)
    requires Fired(polls) < DECAY_THRESHOLD
    ensures var s := Run(Empty(), polls);
            && |s.hist| == BINS && s.samples == Fired(polls)
            && forall i :: 1 <= i < BINS ==> Cum(s.hist, i) == FiredBelow(polls, i as real)
    decreases |polls|
  {
    if polls == [] {
      forall i | 1 <= i < BINS ensures Cum(Empty().hist, i) == 0 { CumOfZeros(i); }
    } else {
      var front, last := polls[..|polls| - 1], polls[|polls| - 1];
      HistogramCounts(front);
      if last.flame {
        var s := Run(Empty(), front);
        forall i | 1 <= i < BINS
          ensures Cum(Run(Empty(), polls).hist, i) == FiredBelow(polls, i as real)
        {
          CumUpdate(s.hist, Bin(last.modulation), i);
          BinBelow(last.modulation, i);
        }
      }
    }
  }

  /** Main result: after any polls from a reset, before the first ageing, the percentile is the whole
      percent r of the order statistic of the modulations seen with the flame on: at most k of them
      lie below r and more than k below r + 1, for the rank k asked. (Bin 0 also takes what lies
      below the scale and bin 99 what lies above it.) */
  lemma {:induction false} PercentileIsOrderStatistic(polls: seq<Poll>, p: real) returns (r: nat)
    requires 0 < Fired(polls) < DECAY_THRESHOLD && 0.0 <= p <= 1.0
    ensures Consistent(Run(Empty(), polls))
    ensures r < BINS && Percentile(Run(Empty(), polls), p) == r as real
    ensures var k := Target(p, Fired(polls));
            && (r > 0 ==> FiredBelow(polls, r as real) <= k)
            && (r < BINS - 1 ==> k < FiredBelow(polls, (r + 1) as real))
  {
    EmptyIsConsistent();
    RunKeepsConsistent(Empty(), polls);
    HistogramCounts(polls);
    var s := Run(Empty(), polls);
    var k := Target(p, s.samples);
    r := Spread(s.hist, BINS)[k];
    SpreadBelow(s.hist, BINS, k);
    RankInBin(s.hist, BINS, k, r);
  }

  // ---------------------------------------------------------------- persistence

  /** Loading takes over the stored histogram, unless it dates from before ageing existed. */
  function Load(s: Stats, blob: Stats): Stats {
    if blob.samples >= DECAY_THRESHOLD then s else blob
  }

  /** What is stored always loads back unchanged, into any object. */
  lemma {:induction false} StoreRoundTrip(s: Stats, polls: seq<Poll>)
    ensures var blob := Run(Empty(), polls); Load(s, blob) == blob && Consistent(blob)
  {
    EmptyIsConsistent();
    RunKeepsConsistent(Empty(), polls);
  }

  /** A stored histogram is safe to load exactly when its counter is the sum of its bins. */
  lemma {:induction false} LoadConsistentIff(s: Stats, blob: Stats)
    requires Consistent(s) && |blob.hist| == BINS
    ensures Consistent(Load(s, blob)) <==>
            blob.samples >= DECAY_THRESHOLD || blob.samples == Cum(blob.hist, BINS)
  {}

  // ---------------------------------------------------------------- the service

  class ModulationStatsService {
    const hist: array<nat>
    var samples: nat

    ghost function View(): Stats
      reads this, hist
    {
      Stats(hist[..], samples)
    }

    constructor ()
      ensures fresh(hist) && View() == Empty()
    {
      hist := new nat[BINS](_ => 0);
      samples := 0;
      new;
      assert hist[..] == Empty().hist;
    }

    method Execute(flame: bool, modulation: real)
      requires Consistent(View())
      modifies this, hist
      ensures View() == Recorded(old(View()), flame, modulation)
      ensures Consistent(View())
    {
      ExecuteKeepsConsistent(View(), flame, modulation);
      if !flame { return; }
      var bin := Truncate(modulation);
      if bin < 0 { bin := 0; }
      if bin >= BINS { bin := BINS - 1; }
      hist[bin] := hist[bin] + 1;
      samples := samples + 1;
      if samples >= DECAY_THRESHOLD { Decay(); }
    }

    method Decay()
      requires hist.Length == BINS
      modifies this, hist
      ensures View() == Aged(old(View()))
    {
      ghost var before := hist[..];
      var remaining := 0;
      for i := 0 to BINS
        invariant forall j :: 0 <= j < BINS ==> hist[j] == if j < i then before[j] / 2 else before[j]
        invariant remaining == Cum(Halved(before), i)
      {
        hist[i] := hist[i] / 2;
        remaining := remaining + hist[i];
      }
      samples := remaining;
      assert hist[..] == Halved(before);
    }

    method Reset()
      requires hist.Length == BINS
      modifies this, hist
      ensures View() == Empty()
    {
      for i := 0 to BINS
        invariant forall j :: 0 <= j < i ==> hist[j] == 0
      {
        hist[i] := 0;
      }
      samples := 0;
      assert hist[..] == Empty().hist;
    }

    /** The single-sample case and the loop find the same order statistic, and the loop never runs
        off the end. */
    method GetPercentile(p: real) returns (r: real)
      requires Consistent(View()) && 0.0 <= p <= 1.0
      ensures r == Percentile(View(), p) && (samples == 0 ==> r == 0.0)
    {
      hide Spread, Target;
      if samples == 0 { return 0.0; }
      ghost var h := hist[..];
      ghost var k := Target(p, samples);
      if samples == 1 {
        for i := 0 to BINS
          invariant Cum(h, i) == 0
        {
          if hist[i] > 0 {
            CumMonotone(h, i + 1, BINS);
            RankInBin(h, BINS, k, i);
            return i as real;
          }
        }
        assert false;
      }
      var target := Target(p, samples);
      var cum := 0;
      for i := 0 to BINS
        invariant cum == Cum(h, i) <= target
      {
        cum := cum + hist[i];
        if cum > target {
          RankInBin(h, BINS, k, i);
          return i as real;
        }
      }
      assert false;
    }

    method LoadFromStore(blob: Stats)
      requires hist.Length == |blob.hist| == BINS
      modifies this, hist
      ensures View() == Load(old(View()), blob)
    {
      if blob.samples >= DECAY_THRESHOLD { return; }
      samples := blob.samples;
      for i := 0 to BINS
        invariant forall j :: 0 <= j < i ==> hist[j] == blob.hist[j]
        modifies hist
      {
        hist[i] := blob.hist[i];
      }
      assert hist[..] == blob.hist;
    }
  }
}
