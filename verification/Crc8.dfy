/** The 1-Wire CRC-8 (x^8 + x^5 + x^4 + 1, least significant bit first) and the sensor reading that it
    guards: what the bitwise loop computes, and which corruptions it rejects. */
module Crc8 {
  import opened Bits

  const POLYNOMIAL: bv8 := 0x8C

  // ---------------------------------------------------------------- bytes on the wire

  predicate LowBit(b: bv8) {
    b & 1 == 1
  }

  function Half(b: bv8): bv8 {
    b >> 1
  }

  function Bit(on: bool, value: bv8): bv8 {
    if on then value else 0
  }

  /** The n lowest bits of b, lowest first: the order in which they are sent. */
  function BitsOf(b: bv8, n: nat): (w: Word)
    ensures |w| == n
  {
    if n == 0 then [] else [LowBit(b)] + BitsOf(Half(b), n - 1)
  }

  function Stream(bytes: seq<bv8>): (w: Word)
    ensures |w| == 8 * |bytes|
  {
    if bytes == [] then [] else BitsOf(bytes[0], 8) + Stream(bytes[1..])
  }

  /** 2 to the power n. */
  function Limit(n: nat): bv8
    requires n <= 7
  {
    if n == 0 then 1 else if n == 1 then 2 else if n == 2 then 4 else if n == 3 then 8
    else if n == 4 then 16 else if n == 5 then 32 else if n == 6 then 64 else 128
  }

  lemma {:induction false} HalfUnderLimit(c: bv8, on: bool, n: nat)
    requires 1 <= n <= 7 && c < Limit(n)
    ensures Half(c) < Limit(n - 1)
    ensures LowBit(c | Bit(on, Limit(n))) == LowBit(c)
    ensures Half(c | Bit(on, Limit(n))) == Half(c) | Bit(on, Limit(n - 1))
  {}

  lemma {:induction false} LowestBits(c: bv8, on: bool)
    ensures LowBit(Bit(on, 1)) == on && Half(Bit(on, 1)) == 0 && Half(c) < 128
    ensures c < 1 ==> c == 0
    ensures 0 | Bit(on, 1) == Bit(on, 1)
  {}

  lemma {:induction false} TopBitStep(c: bv8, d: bv8, on: bool, n: nat)
    requires n > 0 && LowBit(d) == LowBit(c) && BitsOf(Half(d), n) == BitsOf(Half(c), n - 1) + [on]
    ensures BitsOf(d, n + 1) == BitsOf(c, n) + [on]
  {}

  /** A bit set just above a small number comes last on the wire. */
  lemma {:induction false} TopBitComesLast(c: bv8, on: bool, n: nat)
    requires n <= 7 && c < Limit(n)
    ensures BitsOf(c | Bit(on, Limit(n)), n + 1) == BitsOf(c, n) + [on]
    decreases n
  {
    LowestBits(c, on);
    if n > 0 {
      HalfUnderLimit(c, on, n);
      TopBitComesLast(Half(c), on, n - 1);
      TopBitStep(c, c | Bit(on, Limit(n)), on, n);
    } else {
      assert c | Bit(on, Limit(n)) == Bit(on, 1);
      hide LowBit, Half, Bit;
    }
  }

  lemma {:induction false} BitsOfZero(n: nat)
    ensures BitsOf(0, n) == Zeros(n)
    decreases n
  {
    if n > 0 {
      BitsOfZero(n - 1);
      assert Zeros(n) == [false] + Zeros(n - 1);
    }
  }

  lemma {:induction false} NextSlot(b: bv8, on: bool)
    ensures BitsOf(if on then (b >> 1) | 0x80 else b >> 1, 8) == BitsOf(b, 8)[1..] + [on]
  {
    LowestBits(b, on);
    TopBitComesLast(Half(b), on, 7);
    assert (if on then (b >> 1) | 0x80 else b >> 1) == Half(b) | Bit(on, Limit(7));
    hide Half, Bit, LowBit, Limit;
  }

  lemma {:induction false} SlotsShift(slots: Word, i: nat)
    requires i < |slots| == 8
    ensures (Zeros(8 - i) + slots[..i])[1..] + [slots[i]] == Zeros(7 - i) + slots[..i + 1]
  {
    assert Zeros(8 - i)[1..] == Zeros(7 - i) && slots[..i + 1] == slots[..i] + [slots[i]];
    var a, b, c := Zeros(7 - i), slots[..i], [slots[i]];
    assert (Zeros(8 - i) + b)[1..] == a + b;
    assert a + b + c == a + (b + c);
  }

  /** Assembles a byte from eight read slots. */
  method ReadByte(slots: Word) returns (b: bv8)
    requires |slots| == 8
    ensures BitsOf(b, 8) == slots
  {
    hide BitsOf;
    b := 0;
    BitsOfZero(8);
    for i := 0 to 8
      invariant BitsOf(b, 8) == Zeros(8 - i) + slots[..i]
    {
      NextSlot(b, slots[i]);
      SlotsShift(slots, i);
      b := b >> 1;
      if slots[i] {
        b := b | 0x80;
      }
    }
  }

  // ---------------------------------------------------------------- the register

  /** One bit into the register. */
  function Feed(crc: bv8, bit: bool): bv8 {
    if (crc & 1 == 1) != bit then (crc >> 1) ^ POLYNOMIAL else crc >> 1
  }

  function FeedAll(crc: bv8, w: Word): bv8
    decreases |w|
  {
    if w == [] then crc else FeedAll(Feed(crc, w[0]), w[1..])
  }

  function Crc(bytes: seq<bv8>): bv8 {
    FeedAll(0, Stream(bytes))
  }

  lemma {:induction false} FeedAllConcat(crc: bv8, v: Word, w: Word)
    ensures FeedAll(crc, v + w) == FeedAll(FeedAll(crc, v), w)
    decreases |v|
  {
    if v == [] {
      assert v + w == w;
    } else {
      assert (v + w)[1..] == v[1..] + w;
      FeedAllConcat(Feed(crc, v[0]), v[1..], w);
    }
  }

  lemma {:induction false} StreamConcat(a: seq<bv8>, b: seq<bv8>)
    ensures Stream(a + b) == Stream(a) + Stream(b)
  {
    if a == [] {
      assert a + b == b;
    } else {
      assert (a + b)[1..] == a[1..] + b;
      StreamConcat(a[1..], b);
    }
  }

  lemma {:induction false} FeedAsCoded(crc: bv8, b: bv8)
    ensures Feed(crc, LowBit(b)) == if (crc ^ b) & 1 != 0 then (crc >> 1) ^ 0x8C else crc >> 1
    ensures Half(b) == b >> 1
  {}

  lemma {:induction false} OneByteMore(bytes: seq<bv8>, i: nat)
    requires i < |bytes|
    ensures Crc(bytes[..i + 1]) == FeedAll(Crc(bytes[..i]), BitsOf(bytes[i], 8))
  {
    assert bytes[..i + 1] == bytes[..i] + [bytes[i]];
    StreamConcat(bytes[..i], [bytes[i]]);
    assert Stream([bytes[i]]) == BitsOf(bytes[i], 8);
    FeedAllConcat(0, Stream(bytes[..i]), BitsOf(bytes[i], 8));
  }

  /** The nested loop of the reader. */
  method ComputeCrc(bytes: seq<bv8>) returns (crc: bv8)
    ensures crc == Crc(bytes)
  {
    hide Crc, Feed, LowBit, Half;
    crc := 0;
    EmptyCrc(bytes[..0]);
    for i := 0 to |bytes|
      invariant crc == Crc(bytes[..i])
    {
      var b := bytes[i];
      ghost var start := crc;
      for j := 0 to 8
        invariant FeedAll(start, BitsOf(bytes[i], 8)) == FeedAll(crc, BitsOf(b, 8 - j))
      {
        var mix := (crc ^ b) & 1;
        FeedAsCoded(crc, b);
        crc := crc >> 1;
        if mix != 0 { crc := crc ^ 0x8C; }
        b := b >> 1;
      }
      OneByteMore(bytes, i);
    }
    assert bytes[..|bytes|] == bytes;
  }

  lemma {:induction false} EmptyCrc(bytes: seq<bv8>)
    requires bytes == []
    ensures Crc(bytes) == 0
  {}

  // ---------------------------------------------------------------- linearity and bijectivity

  /** Addition of residues. */
  function Plus(c: bv8, d: bv8): bv8 {
    c ^ d
  }

  lemma {:induction false} FeedByXor(c: bv8, b: bool)
    ensures Feed(c, b) == Feed(Plus(c, Bit(b, 1)), false)
  {}

  lemma {:induction false} ClockIsLinear(c: bv8, d: bv8)
    ensures Feed(Plus(c, d), false) == Plus(Feed(c, false), Feed(d, false))
  {}

  lemma {:induction false} BitOfDifference(b: bool, e: bool)
    ensures Bit(b != e, 1) == Plus(Bit(b, 1), Bit(e, 1))
  {}

  lemma {:induction false} PlusAssociates(c: bv8, d: bv8, e: bv8)
    ensures Plus(Plus(c, d), e) == Plus(c, Plus(d, e))
  {}

  lemma {:induction false} PlusCommutes(c: bv8, d: bv8)
    ensures Plus(c, d) == Plus(d, c)
  {}

  lemma {:induction false} PlusRegroups(c: bv8, d: bv8, x: bv8, y: bv8)
    ensures Plus(Plus(c, d), Plus(x, y)) == Plus(Plus(c, x), Plus(d, y))
  {
    hide Plus;
    PlusAssociates(c, d, Plus(x, y));
    PlusAssociates(d, x, y);
    PlusCommutes(d, x);
    PlusAssociates(x, d, y);
    PlusAssociates(c, x, Plus(d, y));
  }

  lemma {:induction false} Regroup(c: bv8, d: bv8, b: bool, e: bool)
    ensures Plus(Plus(c, d), Bit(b != e, 1)) == Plus(Plus(c, Bit(b, 1)), Plus(d, Bit(e, 1)))
  {
    hide Plus, Bit;
    BitOfDifference(b, e);
    PlusRegroups(c, d, Bit(b, 1), Bit(e, 1));
  }

  lemma {:induction false} FeedIsLinear(c: bv8, d: bv8, b: bool, e: bool)
    ensures Feed(Plus(c, d), b != e) == Plus(Feed(c, b), Feed(d, e))
  {
    hide Feed, Bit, Plus;
    FeedByXor(c, b);
    FeedByXor(d, e);
    FeedByXor(Plus(c, d), b != e);
    Regroup(c, d, b, e);
    ClockIsLinear(Plus(c, Bit(b, 1)), Plus(d, Bit(e, 1)));
  }

  lemma {:induction false} FeedAllIsLinear(c: bv8, d: bv8, v: Word, w: Word)
    requires |v| == |w|
    ensures FeedAll(Plus(c, d), Xor(v, w)) == Plus(FeedAll(c, v), FeedAll(d, w))
    decreases |v|
  {
    hide Feed, Plus;
    if v != [] {
      FeedIsLinear(c, d, v[0], w[0]);
      assert Xor(v, w)[1..] == Xor(v[1..], w[1..]);
      FeedAllIsLinear(Feed(c, v[0]), Feed(d, w[0]), v[1..], w[1..]);
    }
  }

  /** Undoes one step: the polynomial's top bit tells whether it was mixed in. */
  function Unfeed(crc: bv8, bit: bool): bv8 {
    var mixed := crc & 0x80 == 0x80;
    ((if mixed then crc ^ POLYNOMIAL else crc) << 1) | Bit(mixed != bit, 1)
  }

  /** For a given input bit the step is a bijection of the register. */
  lemma {:induction false} FeedIsBijective(c: bv8, bit: bool)
    ensures Unfeed(Feed(c, bit), bit) == c && Feed(Unfeed(c, bit), bit) == c
  {}

  function UnfeedAll(crc: bv8, w: Word): bv8
    decreases |w|
  {
    if w == [] then crc else Unfeed(UnfeedAll(crc, w[1..]), w[0])
  }

  /** For a given message so is the whole register. */
  lemma {:induction false} FeedAllIsBijective(c: bv8, r: bv8, w: Word)
    ensures FeedAll(c, w) == r <==> c == UnfeedAll(r, w)
    decreases |w|
  {
    hide Feed, Unfeed;
    if w != [] {
      FeedAllIsBijective(Feed(c, w[0]), r, w[1..]);
      FeedIsBijective(c, w[0]);
      FeedIsBijective(UnfeedAll(r, w[1..]), w[0]);
    }
  }

  function Shifted(b: bv8, n: nat): bv8
    decreases n
  {
    if n == 0 then b else Shifted(Half(b), n - 1)
  }

  lemma {:induction false} AbsorbBit(c: bv8, b: bv8)
    ensures Feed(Plus(c, b), false) == Plus(Feed(c, LowBit(b)), Half(b))
  {}

  lemma {:induction false} Absorb(c: bv8, b: bv8, n: nat)
    ensures Plus(FeedAll(c, BitsOf(b, n)), Shifted(b, n)) == FeedAll(Plus(c, b), Zeros(n))
    decreases n
  {
    hide Feed, LowBit, Half, Plus;
    if n > 0 {
      AbsorbBit(c, b);
      assert Zeros(n)[1..] == Zeros(n - 1);
      assert BitsOf(b, n)[1..] == BitsOf(Half(b), n - 1);
      Absorb(Feed(c, LowBit(b)), Half(b), n - 1);
    }
  }

  lemma {:induction false} ShiftedOut(b: bv8, n: nat)
    requires n <= 7 && b < Limit(n)
    ensures Shifted(b, n) == 0
    decreases n
  {}

  /** Feeding a byte is xoring it in and clocking eight zeros. */
  lemma {:induction false} FeedByte(c: bv8, b: bv8)
    ensures FeedAll(c, BitsOf(b, 8)) == FeedAll(Plus(c, b), Zeros(8))
  {
    Absorb(c, b, 8);
    LowestBits(b, false);
    ShiftedOut(Half(b), 7);
  }

  lemma {:induction false} PlusCancels(c: bv8, b: bv8)
    ensures Plus(c, Plus(c, b)) == b
  {}

  lemma {:induction false} PlusUndone(c: bv8, b: bv8, x: bv8)
    ensures Plus(c, b) == x <==> b == Plus(c, x)
    ensures Plus(c, b) == x <==> c == Plus(b, x)
  {
    hide Plus;
    PlusCancels(c, b);
    PlusCancels(c, x);
    PlusCancels(b, c);
    PlusCancels(b, x);
    PlusCommutes(c, b);
  }

  /** Feeding a byte is a bijection of the byte as much as of the register: from every register exactly
      one byte, and with every byte exactly one register, leads to r. */
  lemma {:induction false} FeedByteIsBijective(c: bv8, b: bv8, r: bv8)
    ensures FeedAll(c, BitsOf(b, 8)) == r <==> b == Plus(c, UnfeedAll(r, Zeros(8)))
    ensures FeedAll(c, BitsOf(b, 8)) == r <==> c == Plus(b, UnfeedAll(r, Zeros(8)))
  {
    hide Plus;
    FeedByte(c, b);
    FeedAllIsBijective(Plus(c, b), r, Zeros(8));
    PlusUndone(c, b, UnfeedAll(r, Zeros(8)));
  }

  lemma {:induction false} ZerosKeepZero(n: nat)
    ensures FeedAll(0, Zeros(n)) == 0
  {
    if n > 0 {
      assert Zeros(n)[1..] == Zeros(n - 1);
      ZerosKeepZero(n - 1);
    }
  }

  lemma {:induction false} ZeroAfterZeros(c: bv8, n: nat)
    ensures FeedAll(c, Zeros(n)) == 0 <==> c == 0
  {
    ZerosKeepZero(n);
    FeedAllIsBijective(c, 0, Zeros(n));
    FeedAllIsBijective(0, 0, Zeros(n));
  }

  // ---------------------------------------------------------------- acceptance

  /** The reader's test: the last byte is the CRC of the others. */
  predicate Accepts(bytes: seq<bv8>)
    requires |bytes| > 0
  {
    Crc(bytes[..|bytes| - 1]) == bytes[|bytes| - 1]
  }

  /** A message passes exactly when the residue over data and CRC byte together is zero. */
  lemma {:induction false} AcceptsIffResidueZero(bytes: seq<bv8>)
    requires |bytes| > 0
    ensures Accepts(bytes) <==> Crc(bytes) == 0
  {
    var data, last := bytes[..|bytes| - 1], bytes[|bytes| - 1];
    assert bytes == data + [last];
    StreamConcat(data, [last]);
    assert Stream([last]) == BitsOf(last, 8);
    FeedAllConcat(0, Stream(data), BitsOf(last, 8));
    FeedByte(Crc(data), last);
    ZeroAfterZeros(Plus(Crc(data), last), 8);
    assert Plus(Crc(data), last) == 0 <==> Crc(data) == last;
  }

  /** Whether flipping the bits of e in an accepted message gives an accepted message depends on e only. */
  lemma {:induction false} UndetectedIff(sent: seq<bv8>, received: seq<bv8>, e: Word)
    requires |sent| == |received| > 0 && Accepts(sent)
    requires |e| == 8 * |sent| && Stream(received) == Xor(Stream(sent), e)
    ensures Accepts(received) <==> FeedAll(0, e) == 0
  {
    AcceptsIffResidueZero(sent);
    AcceptsIffResidueZero(received);
    FeedAllIsLinear(0, 0, Stream(sent), e);
    assert Crc(received) == FeedAll(0, e);
  }

  predicate IsZero(w: Word) {
    forall k :: 0 <= k < |w| ==> !w[k]
  }

  lemma {:induction false} BackOneBit(c: bv8, bit: bool, n: nat)
    requires n <= 6 && Feed(c, bit) < Limit(n)
    ensures c < Limit(n + 1)
  {}

  /** Seven bits can only bring the register to zero from a state whose top bit is clear: mixing the
      polynomial in sets that bit, and it has no time to leave. */
  lemma {:induction false} BackFromZero(c: bv8, w: Word)
    requires |w| <= 7 && FeedAll(c, w) == 0
    ensures c < Limit(|w|)
    decreases |w|
  {
    if w != [] {
      BackFromZero(Feed(c, w[0]), w[1..]);
      BackOneBit(c, w[0], |w| - 1);
      hide Feed, Limit;
    }
  }

  lemma {:induction false} FirstFlip()
    ensures Feed(0, true) == 0x8C >= 128 && Feed(0, false) == 0
  {}

  lemma {:induction false} ShortBurst(w: Word)
    requires |w| <= 8 && !IsZero(w)
    ensures FeedAll(0, w) != 0
    decreases |w|
  {
    FirstFlip();
    if w[0] {
      if FeedAll(0, w) == 0 {
        BackFromZero(Feed(0, true), w[1..]);
        LimitAtMost128(|w| - 1);
        hide Feed, Limit;
        assert false;
      }
    } else {
      assert forall k :: 0 <= k < |w[1..]| ==> w[1..][k] == w[k + 1];
      ShortBurst(w[1..]);
      hide Feed;
    }
  }

  lemma {:induction false} LimitAtMost128(n: nat)
    requires n <= 7
    ensures Limit(n) <= 128
  {}

  /** An error confined to at most eight consecutive bits leaves a non-zero residue. */
  lemma {:induction false} BurstLeavesResidue(before: nat, burst: Word, after: nat)
    requires |burst| <= 8 && !IsZero(burst)
    ensures FeedAll(0, Zeros(before) + burst + Zeros(after)) != 0
  {
    ZerosKeepZero(before);
    FeedAllConcat(0, Zeros(before), burst);
    FeedAllConcat(0, Zeros(before) + burst, Zeros(after));
    ShortBurst(burst);
    ZeroAfterZeros(FeedAll(0, burst), after);
  }

  // ---------------------------------------------------------------- odd errors

  predicate OddByte(b: bv8) {
    var x := b ^ (b >> 4);
    var y := x ^ (x >> 2);
    (y ^ (y >> 1)) & 1 == 1
  }

  lemma {:induction false} FeedParity(c: bv8, bit: bool)
    ensures OddByte(Feed(c, bit)) == (OddByte(c) != bit)
  {}

  /** The polynomial has an even number of terms, so the register's parity counts the ones fed. */
  lemma {:induction false} ParityFollows(c: bv8, w: Word)
    ensures OddByte(FeedAll(c, w)) == (OddByte(c) != Odd(w))
    decreases |w|
  {
    hide Feed, OddByte;
    if w != [] {
      FeedParity(c, w[0]);
      ParityFollows(Feed(c, w[0]), w[1..]);
    }
  }

  // ---------------------------------------------------------------- double errors

  function Clock(c: bv8, n: nat): bv8
    decreases n
  {
    if n == 0 then c else Clock(Feed(c, false), n - 1)
  }

  lemma {:induction false} ClockIsZeros(c: bv8, n: nat)
    ensures FeedAll(c, Zeros(n)) == Clock(c, n)
    decreases n
  {
    if n > 0 {
      assert Zeros(n)[1..] == Zeros(n - 1);
      ClockIsZeros(Feed(c, false), n - 1);
    }
  }

  lemma {:induction false} ClockAdds(c: bv8, m: nat, n: nat)
    ensures Clock(c, m + n) == Clock(Clock(c, m), n)
    decreases m
  {
    if m > 0 {
      ClockAdds(Feed(c, false), m - 1, n);
    }
  }

  const PERIOD := 127

  /** The register gets from c to 1 in n steps, and not earlier. */
  predicate Reaches1(c: bv8, n: nat)
    decreases n
  {
    if n == 0 then c == 1 else c != 1 && Reaches1(Feed(c, false), n - 1)
  }

  lemma {:induction false} Reaches1Means(c: bv8, n: nat, j: nat)
    requires Reaches1(c, n) && j <= n
    ensures Clock(c, j) == 1 <==> j == n
    decreases n
  {
    hide Feed;
    if j > 0 {
      Reaches1Means(Feed(c, false), n - 1, j - 1);
    }
  }

  function TwoSteps(c: bv8): bv8 {
    Feed(Feed(c, false), false)
  }

  lemma {:induction false} TwoMore(c: bv8, n: nat)
    requires c != 1 && Feed(c, false) != 1 && Reaches1(TwoSteps(c), n)
    ensures Reaches1(c, n + 2)
  {}

  function EightSteps(c: bv8): bv8 {
    TwoSteps(TwoSteps(TwoSteps(TwoSteps(c))))
  }

  predicate FarFrom1(c: bv8) {
    c != 1 && Feed(c, false) != 1
  }

  lemma {:induction false} EightMore(c: bv8, n: nat)
    requires FarFrom1(c) && FarFrom1(TwoSteps(c)) && FarFrom1(TwoSteps(TwoSteps(c)))
    requires FarFrom1(TwoSteps(TwoSteps(TwoSteps(c)))) && Reaches1(EightSteps(c), n)
    ensures Reaches1(c, n + 8)
  {
    hide Feed, TwoSteps, Reaches1;
    TwoMore(TwoSteps(TwoSteps(TwoSteps(c))), n);
    TwoMore(TwoSteps(TwoSteps(c)), n + 2);
    TwoMore(TwoSteps(c), n + 4);
    TwoMore(c, n + 6);
  }

  lemma {:induction false} Orbit()
    ensures Reaches1(0x8C, 126)
  {
    TwoMore(0x04, 0);
    TwoMore(0x10, 2);
    TwoMore(0x40, 4);
    EightMore(0x16, 6);
    EightMore(0xDF, 14);
    EightMore(0x34, 22);
    EightMore(0xE6, 30);
    EightMore(0x67, 38);
    EightMore(0x52, 46);
    EightMore(0xAD, 54);
    EightMore(0x92, 62);
    EightMore(0x97, 70);
    EightMore(0xEA, 78);
    EightMore(0xCB, 86);
    EightMore(0xD9, 94);
    EightMore(0x62, 102);
    EightMore(0x2F, 110);
    EightMore(0x8C, 118);
  }

  /** From state 1 the register runs through 127 states before it returns. */
  lemma {:induction false} PeriodIs127(n: nat)
    ensures Clock(1, n) == 1 <==> n % PERIOD == 0
    decreases n
  {
    Orbit();
    assert Feed(1, false) == 0x8C;
    if n >= PERIOD {
      Reaches1Means(0x8C, 126, 126);
      assert Clock(1, PERIOD) == Clock(0x8C, 126) == 1;
      ClockAdds(1, PERIOD, n - PERIOD);
      PeriodIs127(n - PERIOD);
      assert n % PERIOD == (n - PERIOD) % PERIOD;
    } else if n > 0 {
      assert Clock(1, n) == Clock(0x8C, n - 1);
      Reaches1Means(0x8C, 126, n - 1);
    }
  }

  function TwoFlips(before: nat, gap: nat, after: nat): Word {
    Zeros(before) + [true] + Zeros(gap) + [true] + Zeros(after)
  }

  /** Two flipped bits go unnoticed exactly when they lie a multiple of 127 bits apart. */
  lemma {:induction false} TwoFlipsResidue(before: nat, gap: nat, after: nat)
    ensures FeedAll(0, TwoFlips(before, gap, after)) == 0 <==> (gap + 1) % PERIOD == 0
  {
    var a := Zeros(before);
    var b := a + [true];
    var c := b + Zeros(gap);
    var d := c + [true];
    ZerosKeepZero(before);
    FeedAllConcat(0, a, [true]);
    assert FeedAll(0, b) == Feed(0, true) == Feed(1, false);
    FeedAllConcat(0, b, Zeros(gap));
    ClockIsZeros(Feed(1, false), gap);
    assert FeedAll(0, c) == Clock(1, gap + 1);
    FeedAllConcat(0, c, [true]);
    LastFlip(Clock(1, gap + 1));
    FeedAllConcat(0, d, Zeros(after));
    ZeroAfterZeros(FeedAll(0, d), after);
    PeriodIs127(gap + 1);
  }

  lemma {:induction false} LastFlip(c: bv8)
    ensures Feed(c, true) == 0 <==> c == 1
  {}

  // ---------------------------------------------------------------- few errors in a scratchpad

  lemma {:induction false} OnesZeroIsZero(w: Word)
    requires Ones(w) == 0
    ensures w == Zeros(|w|)
  {
    if w != [] {
      OnesZeroIsZero(w[1..]);
    }
  }

  /** Where the first one is. */
  lemma {:induction false} SplitFirst(w: Word) returns (k: nat, rest: Word)
    requires Ones(w) > 0
    ensures w == Zeros(k) + [true] + rest && Ones(rest) == Ones(w) - 1
  {
    if w[0] {
      k, rest := 0, w[1..];
      assert w == [true] + rest;
    } else {
      var j, r := SplitFirst(w[1..]);
      k, rest := j + 1, r;
      assert Zeros(k) == [false] + Zeros(j);
      assert w == [false] + w[1..];
    }
  }

  /** Every pattern of one, two or three flipped bits within 127 bits leaves a residue. */
  lemma {:induction false} FewFlipsLeaveResidue(e: Word)
    requires 1 <= Ones(e) <= 3 && |e| <= PERIOD
    ensures FeedAll(0, e) != 0
  {
    ParityFollows(0, e);
    assert !OddByte(0);
    if Ones(e) == 2 {
      var k, rest := SplitFirst(e);
      var g, tail := SplitFirst(rest);
      OnesZeroIsZero(tail);
      assert e == TwoFlips(k, g, |tail|);
      TwoFlipsResidue(k, g, |tail|);
      assert (g + 1) % PERIOD == g + 1;
    }
  }

  /** Main result. A message of any length is rejected when it differs from an accepted one by a burst
      of at most eight bits, or in an odd number of bits; and up to fifteen bytes long, as the nine of a
      scratchpad are, also when it differs in any one, two or three bits. */
  lemma {:induction false} CorruptionIsRejected(sent: seq<bv8>, received: seq<bv8>, e: Word)
    requires |sent| == |received| > 0 && Accepts(sent)
    requires |e| == 8 * |sent| && Stream(received) == Xor(Stream(sent), e)
    requires || (exists p: nat, burst: Word, q: nat | |burst| <= 8 && !IsZero(burst) :: e == Zeros(p) + burst + Zeros(q))
             || Odd(e)
             || (|sent| <= 15 && 1 <= Ones(e) <= 3)
    ensures !Accepts(received)
  {
    UndetectedIff(sent, received, e);
    if Odd(e) {
      ParityFollows(0, e);
    } else if |sent| <= 15 && 1 <= Ones(e) <= 3 {
      FewFlipsLeaveResidue(e);
    } else {
      var p: nat, burst: Word, q: nat :| |burst| <= 8 && !IsZero(burst) && e == Zeros(p) + burst + Zeros(q);
      BurstLeavesResidue(p, burst, q);
    }
  }

  lemma {:induction false} StreamOfZeros(n: nat)
    ensures Stream(seq(n, _ => 0 as bv8)) == Zeros(8 * n)
  {
    if n > 0 {
      var z := seq(n, _ => 0 as bv8);
      assert z[1..] == seq(n - 1, _ => 0 as bv8);
      StreamOfZeros(n - 1);
      BitsOfZero(8);
    }
  }

  /** A message of zeros only is accepted: a line held low reads as a valid scratchpad of 0 degrees. */
  lemma {:induction false} AllZerosAccepted(n: nat)
    requires n > 0
    ensures Accepts(seq(n, _ => 0 as bv8))
  {
    var z := seq(n, _ => 0 as bv8);
    StreamOfZeros(n);
    ZerosKeepZero(8 * n);
    AcceptsIffResidueZero(z);
  }

  // ---------------------------------------------------------------- the reading

  const RETRIES := 3
  const SCRATCHPAD := 9

  /** One attempt on the bus: whether a sensor answered the reset, and the nine bytes then read. */
  datatype Attempt = Attempt(present: bool, pad: seq<bv8>)

  predicate Good(a: Attempt) {
    a.present && |a.pad| == SCRATCHPAD && Accepts(a.pad)
  }

  function Value(b: bv8): (v: int)
    ensures 0 <= v < 256
  {
    b as int
  }

  /** Up to three attempts; the first good scratchpad decides, and its bytes 1 and 0 are the temperature in
      sixteenths of a degree. */
  method ReadTemp(bus: seq<Attempt>) returns (ok: bool, out: real)
    requires |bus| == 3 && forall k :: 0 <= k < 3 ==> |bus[k].pad| == SCRATCHPAD
    ensures ok <==> exists k :: 0 <= k < 3 && bus[k].present && Accepts(bus[k].pad)
    ensures !ok ==> out == -127.0
    ensures ok ==> exists k :: 0 <= k < 3 && Good(bus[k]) && (forall j :: 0 <= j < k ==> !Good(bus[j]))
                               && var low, high := Value(bus[k].pad[0]), Value(bus[k].pad[1]);
                                  out * 16.0 == (256 * (if high < 128 then high else high - 256) + low) as real
    ensures ok ==> -2048.0 <= out < 2048.0
  {
    hide Value, Crc;
    out := -127.0;
    for attempt := 0 to RETRIES
      invariant forall j :: 0 <= j < attempt ==> !Good(bus[j])
      invariant out == -127.0
    {
      if !bus[attempt].present { continue; }
      var sp := bus[attempt].pad;
      var crc := ComputeCrc(sp[..8]);
      if crc != sp[8] { continue; }
      var raw := Value(sp[1]) * 256 + Value(sp[0]);
      if raw >= 0x8000 { raw := raw - 0x1_0000; }
      out := raw as real * 0.0625;
      return true, out;
    }
    return false, out;
  }
}
