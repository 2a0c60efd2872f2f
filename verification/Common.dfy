/** What several models share: optional values, C integer arithmetic, the newest part of a list. */
module Common {

  datatype Option<T> = None | Some(value: T)

  type Byte = x: int | 0 <= x < 256

  const UINT32 := 0x1_0000_0000

  const SECONDS_PER_DAY := 86400

  /** C++ division: truncated towards zero. */
  function Div(a: int, b: int): int
    requires b > 0
  {
    if a >= 0 then a / b else -((-a) / b)
  }

  /** C++ remainder: its sign is the dividend's. */
  function Rem(a: int, b: int): int
    requires b > 0
  {
    a - b * Div(a, b)
  }

  /** Conversion to a signed 32-bit integer; signed sums and products that overflow are taken to wrap. */
  function Signed(x: int): (s: int)
    ensures -UINT32 / 2 <= s < UINT32 / 2
  {
    var m := x % UINT32;
    if m < UINT32 / 2 then m else m - UINT32
  }

  /** The last n elements, or all of them when there are fewer. */
  function Last<T>(s: seq<T>, n: nat): (t: seq<T>)
    ensures |t| == if |s| < n then |s| else n
    ensures forall i :: 0 <= i < |t| ==> t[i] == s[|s| - |t| + i]
  {
    if |s| <= n then s else s[|s| - n..]
  }

  /** Appending to the last n and keeping the last n is appending and keeping the last n. */
  lemma {:induction false} LastOfLast<T>(s: seq<T>, es: seq<T>, n: nat)
    ensures Last(Last(s, n) + es, n) == Last(s + es, n)
  {
    var a, b := Last(Last(s, n) + es, n), Last(s + es, n);
    assert |a| == |b|;
    forall i | 0 <= i < |a| ensures a[i] == b[i] {}
  }

  lemma {:induction false} LastRegroups<T>(a: seq<T>, b: seq<T>, c: seq<T>, n: nat)
    ensures Last(Last(a + b, n) + c, n) == Last(a + (b + c), n)
  {
    hide Last;
    LastOfLast(a + b, c, n);
    assert a + b + c == a + (b + c);
  }
}
