/** Fixed-width machine words as bit sequences, least significant bit first, with the
    C operators the firmware uses on them. */
module Bits {

  type Word = seq<bool>

  function Zeros(n: nat): (w: Word)
    ensures |w| == n && forall k :: 0 <= k < n ==> !w[k]
  {
    seq(n, _ => false)
  }

  /** Conversion to a wider unsigned type. */
  function Extend(w: Word, width: nat): (r: Word)
    requires |w| <= width
  {
    w + Zeros(width - |w|)
  }

  function Shl(w: Word, n: nat): (r: Word)
    requires n <= |w|
  {
    Zeros(n) + w[..|w| - n]
  }

  function Shr(w: Word, n: nat): (r: Word)
    requires n <= |w|
  {
    w[n..] + Zeros(n)
  }

  function Or(v: Word, w: Word): (r: Word)
    requires |v| == |w|
    ensures |r| == |v| && forall k :: 0 <= k < |v| ==> r[k] == (v[k] || w[k])
  {
    seq(|v|, k requires 0 <= k < |v| => v[k] || w[k])
  }

  function And(v: Word, w: Word): (r: Word)
    requires |v| == |w|
    ensures |r| == |v| && forall k :: 0 <= k < |v| ==> r[k] == (v[k] && w[k])
  {
    seq(|v|, k requires 0 <= k < |v| => v[k] && w[k])
  }

  function Xor(v: Word, w: Word): (r: Word)
    requires |v| == |w|
    ensures |r| == |v| && forall k :: 0 <= k < |v| ==> r[k] == (v[k] != w[k])
  {
    seq(|v|, k requires 0 <= k < |v| => v[k] != w[k])
  }

  /** The mask with ones in the low n bits. */
  function LowMask(n: nat, width: nat): (w: Word)
    requires n <= width
    ensures |w| == width && forall k :: 0 <= k < width ==> w[k] == (k < n)
  {
    seq(width, k => k < n)
  }

  /** The word 1 << k. */
  function OneBit(k: nat, width: nat): (w: Word)
    requires k < width
    ensures |w| == width && forall j :: 0 <= j < width ==> w[j] == (j == k)
  {
    seq(width, j => j == k)
  }

  /** The number of ones in w. */
  function Ones(w: Word): nat {
    if w == [] then 0 else (if w[0] then 1 else 0) + Ones(w[1..])
  }

  predicate Odd(w: Word) {
    Ones(w) % 2 == 1
  }

  lemma {:induction false} OnesConcat(v: Word, w: Word)
    ensures Ones(v + w) == Ones(v) + Ones(w)
  {
    if v == [] {
      assert v + w == w;
    } else {
      assert (v + w)[1..] == v[1..] + w;
      OnesConcat(v[1..], w);
    }
  }

  lemma {:induction false} OddXor(v: Word, w: Word)
    requires |v| == |w|
    ensures Odd(Xor(v, w)) <==> Odd(v) != Odd(w)
  {
    if v != [] {
      assert Xor(v, w)[1..] == Xor(v[1..], w[1..]);
      OddXor(v[1..], w[1..]);
    }
  }
}
