/** The OpenTherm frame codec: parity by XOR folding, the 34-bit frame with start and
    stop bits, and the unpacking of a received frame. */
module OpenThermFrame {
  import opened Bits

  /** OT_Frame: two uint8_t fields and one uint16_t field. */
  datatype Frame = Frame(msgType: Word, dataId: Word, dataValue: Word)

  predicate IsFrame(f: Frame) {
    |f.msgType| == 8 && |f.dataId| == 8 && |f.dataValue| == 16
  }

  const FRAME_BITS := 34

  /** One step `w ^= w >> n`. */
  function Fold(w: Word, n: nat): (r: Word)
    requires n <= |w|
    ensures |r| == |w|
  {
    Xor(w, Shr(w, n))
  }

  predicate FrameParity(w: Word)
    requires |w| == 32
  {
    Fold(Fold(Fold(Fold(Fold(w, 16), 8), 4), 2), 1)[0]
  }

  function BareWord(f: Frame): (w: Word)
    requires IsFrame(f)
    ensures |w| == 32
  {
    Or(Or(Shl(Extend(And(f.msgType, LowMask(3, 8)), 32), 28),
          Shl(Extend(f.dataId, 32), 16)),
       Extend(f.dataValue, 32))
  }

  function FrameWord(f: Frame): (w: Word)
    requires IsFrame(f)
    ensures |w| == 32
  {
    var word := BareWord(f);
    if FrameParity(word) then Or(word, OneBit(31, 32)) else word
  }

  /** Adds the start and stop bits. */
  function Wrap(word: Word): (raw: Word)
    requires |word| == 32
    ensures |raw| == 64
  {
    Or(Or(OneBit(33, 64), Shl(Extend(word, 64), 1)), OneBit(0, 64))
  }

  /** The 64-bit transmit word; bit 33 is the start bit, bit 0 the stop bit. */
  function BuildFrame(f: Frame): (raw: Word)
    requires IsFrame(f)
    ensures |raw| == 64
  {
    Wrap(FrameWord(f))
  }

  function ParseFrame(raw: Word): (f: Frame)
    requires |raw| == 64
    ensures IsFrame(f)
  {
    var word := And(Shr(raw, 1), LowMask(32, 64))[..32];
    Frame(And(Shr(word, 28), LowMask(3, 32))[..8],
          And(Shr(word, 16), LowMask(8, 32))[..8],
          And(word, LowMask(16, 32))[..16])
  }

  /** What a frame becomes when only the low three bits of its type are sent. */
  function Normalized(f: Frame): (r: Frame)
    requires IsFrame(f)
    ensures IsFrame(r)
  {
    f.(msgType := And(f.msgType, LowMask(3, 8)))
  }

  /** Folding by n keeps the parity of the low 2n bits in the low n bits. */
  lemma {:induction false} FoldHalves(w: Word, n: nat)
    requires n + n <= |w|
    ensures Odd(Fold(w, n)[..n]) <==> Odd(w[..n + n])
  {
    assert Fold(w, n)[..n] == Xor(w[..n], w[n..n + n]);
    OddXor(w[..n], w[n..n + n]);
    assert w[..n + n] == w[..n] + w[n..n + n];
    OnesConcat(w[..n], w[n..n + n]);
  }

  /** XOR folding computes the number of ones modulo 2. */
  lemma {:induction false} FrameParityCountsOnes(w: Word)
    requires |w| == 32
    ensures FrameParity(w) <==> Odd(w)
  {
    var w1 := Fold(w, 16);
    var w2 := Fold(w1, 8);
    var w3 := Fold(w2, 4);
    var w4 := Fold(w3, 2);
    var w5 := Fold(w4, 1);
    FoldHalves(w, 16);
    FoldHalves(w1, 8);
    FoldHalves(w2, 4);
    FoldHalves(w3, 2);
    FoldHalves(w4, 1);
    assert w[..32] == w;
    OddOfOneBit(w5);
  }

  lemma {:induction false} OddOfOneBit(w: Word)
    requires w != []
    ensures Odd(w[..1]) <==> w[0]
  {
    assert w[..1] == [w[0]];
    assert [w[0]][1..] == [];
    assert Ones(w[..1]) == if w[0] then 1 else 0;
  }

  lemma {:induction false} BareWordLayout(f: Frame)
    requires IsFrame(f)
    ensures BareWord(f) == f.dataValue + f.dataId + Zeros(4) + f.msgType[..3] + [false]
  {}

  /** The message word in the order of section 4.2 of the OpenTherm Protocol Specification
      v2.2, low bits first: value, id, four spare bits, type, parity. */
  lemma {:induction false} FrameWordLayout(f: Frame)
    requires IsFrame(f)
    ensures FrameWord(f) == f.dataValue + f.dataId + Zeros(4) + f.msgType[..3] + [Odd(BareWord(f))]
  {
    FrameParityCountsOnes(BareWord(f));
    BareWordLayout(f);
    ParityBit(BareWord(f));
    assert forall p :: BareWord(f)[..31] + [p] == f.dataValue + f.dataId + Zeros(4) + f.msgType[..3] + [p];
  }

  lemma {:induction false} ParityBit(bare: Word)
    requires |bare| == 32 && !bare[31]
    ensures Or(bare, OneBit(31, 32)) == bare[..31] + [true]
    ensures bare == bare[..31] + [false]
  {}

  lemma {:induction false} ParityBitEvens(bare: Word)
    requires |bare| == 32 && !bare[31]
    ensures !Odd(bare[..31] + [Odd(bare)])
  {
    ParityBit(bare);
    OnesConcat(bare[..31], [false]);
    OnesConcat(bare[..31], [true]);
    assert Ones([false]) == 0 && Ones([true]) == 1;
  }

  /** Every word that is sent has even parity. */
  lemma {:induction false} FrameWordIsEven(f: Frame)
    requires IsFrame(f)
    ensures !Odd(FrameWord(f))
  {
    var bare := BareWord(f);
    assert !bare[31] by { BareWordLayout(f); }
    FrameParityCountsOnes(bare);
    ParityBit(bare);
    ParityBitEvens(bare);
  }

  lemma {:induction false} BuildFrameLayout(f: Frame)
    requires IsFrame(f)
    ensures BuildFrame(f) == [true] + FrameWord(f) + [true] + Zeros(30)
  {
    hide FrameWord, Wrap;
    WrapLayout(FrameWord(f));
  }

  lemma {:induction false} WrapLayout(word: Word)
    requires |word| == 32
    ensures Wrap(word) == [true] + word + [true] + Zeros(30)
  {}

  lemma {:induction false} WrappedFields(value: Word, id: Word, kind: Word, p: bool)
    requires |value| == 16 && |id| == 8 && |kind| == 3
    ensures var raw := [true] + (value + id + Zeros(4) + kind + [p]) + [true] + Zeros(30);
            raw[1..17] == value && raw[17..25] == id && raw[29..32] == kind
  {}

  /** Unpacking undoes building, up to the five high bits of the type. */
  lemma {:induction false} ParseBuild(f: Frame)
    requires IsFrame(f)
    ensures ParseFrame(BuildFrame(f)) == Normalized(f)
  {
    var odd := Odd(BareWord(f));
    BuildFrameLayout(f);
    FrameWordLayout(f);
    ParseFields(BuildFrame(f));
    WrappedFields(f.dataValue, f.dataId, f.msgType[..3], odd);
    NormalizedType(f.msgType);
  }

  lemma {:induction false} NormalizedType(kind: Word)
    requires |kind| == 8
    ensures And(kind, LowMask(3, 8)) == kind[..3] + Zeros(5)
  {}

  /** Unpacking looks at the type, id and value fields and at nothing else; in particular
      the parity bit of a received frame is never checked. */
  lemma {:induction false} ParseReadsFieldsOnly(r: Word, s: Word)
    requires |r| == 64 && |s| == 64
    ensures ParseFrame(r) == ParseFrame(s) <==>
            r[1..25] == s[1..25] && r[29..32] == s[29..32]
  {
    ParseFields(r);
    ParseFields(s);
    assert r[1..25] == r[1..17] + r[17..25];
    assert s[1..25] == s[1..17] + s[17..25];
    if ParseFrame(r) == ParseFrame(s) {
      assert r[29..32] == ParseFrame(r).msgType[..3];
      assert s[29..32] == ParseFrame(s).msgType[..3];
    }
    if r[1..25] == s[1..25] {
      assert r[1..17] == r[1..25][..16] && r[17..25] == r[1..25][16..];
      assert s[1..17] == s[1..25][..16] && s[17..25] == s[1..25][16..];
    }
  }

  lemma {:induction false} ParseFields(r: Word)
    requires |r| == 64
    ensures ParseFrame(r) == Frame(r[29..32] + Zeros(5), r[17..25], r[1..17])
  {
    var word := And(Shr(r, 1), LowMask(32, 64))[..32];
    assert word == r[1..33];
  }
}
