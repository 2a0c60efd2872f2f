/** MQTT 3.1.1 packets as the socket adapter writes and reads them: the Remaining Length field (section
    2.2.3) and PUBLISH (section 3.3). */
module Mqtt {
  import opened Common

  const BUF_SIZE := 2048
  const TOPIC_MAX := 63
  const PAYLOAD_MAX := 511

  // ---------------------------------------------------------------- Remaining Length

  /** The top bit of a length byte: another one follows. */
  predicate Continues(b: Byte) {
    b >= 128
  }

  function EncodeLength(n: nat): (s: seq<Byte>)
    ensures |s| > 0
  {
    if n / 128 > 0 then [n % 128 + 128] + EncodeLength(n / 128) else [n % 128]
  }

  /** Reads length bytes from position p: where it stopped, and the value. */
  function DecodeFrom(buf: seq<Byte>, p: nat): (r: (nat, nat))
    requires p <= |buf|
    ensures p <= r.0 <= |buf|
    decreases |buf| - p
  {
    if p == |buf| then (p, 0)
    else if !Continues(buf[p]) then (p + 1, buf[p])
    else
      var (q, v) := DecodeFrom(buf, p + 1);
      (q, buf[p] % 128 + 128 * v)
  }

  /** Where the packet's body starts, for the dispatcher: after the first length byte without the top
      bit. */
  function SkipFrom(buf: seq<Byte>, p: nat): nat
    decreases |buf| - p
  {
    if p < |buf| && Continues(buf[p]) then SkipFrom(buf, p + 1) else p + 1
  }

  /** Both readers of the length field find the value that was written, and where it ends. */
  lemma {:induction false} DecodeEncode(before: seq<Byte>, n: nat, after: seq<Byte>)
    ensures var buf := before + EncodeLength(n) + after;
            && DecodeFrom(buf, |before|) == (|before| + |EncodeLength(n)|, n)
            && SkipFrom(buf, |before|) == |before| + |EncodeLength(n)|
    decreases n
  {
    var buf := before + EncodeLength(n) + after;
    if n / 128 > 0 {
      var b := n % 128 + 128;
      var longer := before + [b];
      assert buf == longer + EncodeLength(n / 128) + after;
      assert buf[|before|] == b;
      DecodeEncode(longer, n / 128, after);
      assert b % 128 == n % 128;
    } else {
      assert buf[|before|] == n % 128 == n;
    }
  }

  predicate WellFormedLength(s: seq<Byte>) {
    s != [] && !Continues(s[|s| - 1]) && forall i :: 0 <= i < |s| - 1 ==> Continues(s[i])
  }

  function Power128(k: nat): (r: nat)
    ensures r >= 1
  {
    if k == 0 then 1 else 128 * Power128(k - 1)
  }

  /** A well-formed length field of k bytes holds less than 128 to the power k. */
  lemma {:induction false} DecodedBound(s: seq<Byte>, p: nat)
    requires WellFormedLength(s) && p < |s|
    ensures DecodeFrom(s, p) == (|s|, DecodeFrom(s, p).1) && DecodeFrom(s, p).1 < Power128(|s| - p)
    decreases |s| - p
  {
    if p < |s| - 1 {
      DecodedBound(s, p + 1);
      assert Continues(s[p]);
    }
  }

  lemma {:induction false} EncodedSize(n: nat, k: nat)
    ensures |EncodeLength(n)| <= k + 1 <==> n < Power128(k + 1)
    decreases n
  {
    if n / 128 > 0 {
      if k > 0 {
        EncodedSize(n / 128, k - 1);
      }
    }
  }

  lemma {:induction false} EncodedWellFormed(n: nat)
    ensures WellFormedLength(EncodeLength(n))
    decreases n
  {
    if n / 128 > 0 {
      EncodedWellFormed(n / 128);
    }
  }

  /** The encoding is the shortest well-formed one of its value, and takes one to four bytes exactly up
      to 268435455. */
  lemma {:induction false} EncodingIsMinimal(n: nat, s: seq<Byte>)
    requires WellFormedLength(s) && DecodeFrom(s, 0).1 == n
    ensures |EncodeLength(n)| <= |s|
    ensures |EncodeLength(n)| <= 4 <==> n <= 268435455
    ensures WellFormedLength(EncodeLength(n)) && DecodeFrom(EncodeLength(n), 0).1 == n
  {
    DecodedBound(s, 0);
    EncodedSize(n, |s| - 1);
    EncodedSize(n, 3);
    assert Power128(4) == 268435456;
    EncodedWellFormed(n);
    DecodeEncode([], n, []);
    assert [] + EncodeLength(n) + [] == EncodeLength(n);
  }

  /** The encoding in numbers: byte k carries digit k of n to the base 128, the lowest first, and its top bit
      says that a byte follows. */
  lemma {:induction false} EncodedDigits(n: nat, k: nat)
    requires k < |EncodeLength(n)|
    ensures EncodeLength(n)[k] % 128 == n / Power128(k) % 128
    ensures EncodeLength(n)[k] >= 128 <==> k + 1 < |EncodeLength(n)|
    decreases k
  {
    if k > 0 {
      EncodedDigits(n / 128, k - 1);
      DivideTwice(n, Power128(k - 1));
    }
  }

  lemma {:induction false} DivideTwice(n: nat, b: nat)
    requires b > 0
    ensures n / 128 / b == n / (128 * b)
  {
    var q, r := n / 128, n % 128;
    var p, s := q / b, q % b;
    var bp := b * p;
    assert n == 128 * q + r && q == bp + s;
    assert 128 * b * p == 128 * bp;
    QuotientIs(n, 128 * b, p, 128 * s + r);
  }

  lemma {:induction false} NotMore(d: nat, x: nat, y: nat, q: nat, r: nat)
    requires d * x + y == d * q + r && r < d
    ensures x <= q
  {
    if x > q {
      Larger(d, q + 1, x);
    }
  }

  lemma {:induction false} Larger(d: nat, a: nat, b: nat)
    requires a <= b
    ensures d * a <= d * b
  {}

  lemma {:induction false} QuotientIs(n: nat, d: nat, q: nat, r: nat)
    requires n == d * q + r && r < d
    ensures n / d == q
  {
    NotMore(d, n / d, n % d, q, r);
    NotMore(d, q, r, n / d, n % d);
  }

  // ---------------------------------------------------------------- PUBLISH

  function U16(v: nat): (s: seq<Byte>)
    ensures |s| == 2
  {
    [v / 256 % 256, v % 256]
  }

  function Publish(topic: seq<Byte>, data: seq<Byte>, retain: bool): (s: seq<Byte>)
    ensures |s| > 3
  {
    [if retain then 0x31 else 0x30] + EncodeLength(2 + |topic| + |data|) + (U16(|topic|) + topic + data)
  }

  /** A PUBLISH in numbers: type 3 in the high half of the first byte, no duplicate flag, quality of service 0
      and the retain flag in the low half; then the length; then the topic's length, high byte first, the topic
      and the payload. */
  lemma {:induction false} PublishFields(topic: seq<Byte>, data: seq<Byte>, retain: bool, p: nat)
    requires |topic| < 0x1_0000 && p == 1 + |EncodeLength(2 + |topic| + |data|)|
    ensures var s := Publish(topic, data, retain);
            && |s| == p + 2 + |topic| + |data|
            && s[0] / 16 == 3 && s[0] / 2 % 8 == 0 && (s[0] % 2 == 1 <==> retain)
            && s[1..p] == EncodeLength(2 + |topic| + |data|)
            && (s[p] as int) * 256 + s[p + 1] as int == |topic|
            && s[p + 2..p + 2 + |topic|] == topic && s[p + 2 + |topic|..] == data
  {
    var s, n := Publish(topic, data, retain), 2 + |topic| + |data|;
    var first: seq<Byte> := [if retain then 0x31 else 0x30];
    var body := U16(|topic|) + topic + data;
    assert s == first + EncodeLength(n) + body;
    hide EncodeLength, Publish;
    assert s[p..] == body && s[1..p] == EncodeLength(n);
    BodyFields(s, p, U16(|topic|), topic, data);
  }

  datatype Message = Message(topic: seq<Byte>, payload: seq<Byte>)

  function Cut(s: seq<Byte>, n: nat): seq<Byte> {
    if |s| < n then s else s[..n]
  }

  function U16Of(high: Byte, low: Byte): nat {
    (high as int) * 256 + low as int
  }

  /** The dispatcher's PUBLISH case, on everything that was received. */
  function ParsePublish(got: seq<Byte>): Option<Message>
    requires |got| >= 2
  {
    var p := SkipFrom(got, 1);
    var plen := |got| - p;
    if plen < 2 then None
    else
      var tl := U16Of(got[p], got[p + 1]);
      if plen < 2 + tl then None
      else Some(Message(Cut(got[p + 2..p + 2 + tl], TOPIC_MAX), Cut(got[p + 2 + tl..], PAYLOAD_MAX)))
  }

  lemma {:induction false} CutSlice(s: seq<Byte>, start: nat, end: nat, n: nat)
    requires start <= end <= |s|
    ensures Cut(s[start..end], n) == s[start..start + (if end - start < n then end - start else n)]
  {}

  /** The message in terms of its place in the buffer. */
  lemma {:induction false} ParsedAt(got: seq<Byte>, p: nat)
    requires |got| >= 2 && p == SkipFrom(got, 1)
    ensures |got| - p < 2 ==> ParsePublish(got) == None
    ensures |got| - p >= 2 ==>
              var tl := U16Of(got[p], got[p + 1]);
              var d := |got| - p - 2 - tl;
              if d < 0 then ParsePublish(got) == None
              else
                var tlc, plc := if tl < TOPIC_MAX then tl else TOPIC_MAX, if d < PAYLOAD_MAX then d else PAYLOAD_MAX;
                ParsePublish(got) == Some(Message(got[p + 2..p + 2 + tlc], got[p + 2 + tl..p + 2 + tl + plc]))
  {
    hide Cut, SkipFrom;
    if |got| - p >= 2 {
      var tl := U16Of(got[p], got[p + 1]);
      if |got| - p >= 2 + tl {
        CutSlice(got, p + 2, p + 2 + tl, TOPIC_MAX);
        CutSlice(got, p + 2 + tl, |got|, PAYLOAD_MAX);
        assert got[p + 2 + tl..] == got[p + 2 + tl..|got|];
      }
    }
  }

  /** Reception in numbers: with the length field's last byte just before p, the body gives the topic's length,
      high byte first, the topic, cut to 63 bytes, and the payload, cut to 511; too short a body gives nothing. */
  lemma {:induction false} ParsedFields(got: seq<Byte>, p: nat, tl: nat)
    requires 2 <= p <= |got| && got[p - 1] < 128 && forall k :: 1 <= k < p - 1 ==> got[k] >= 128
    requires |got| >= p + 2 ==> tl == (got[p] as int) * 256 + got[p + 1] as int
    ensures ParsePublish(got).Some? <==> |got| >= p + 2 && |got| >= p + 2 + tl
    ensures ParsePublish(got).Some? ==>
              var t, d := p + 2 + tl, |got| - (p + 2 + tl);
              && ParsePublish(got).value.topic == got[p + 2..if tl < 63 then t else p + 65]
              && ParsePublish(got).value.payload == got[t..if d < 511 then t + d else t + 511]
  {
    SkipsTo(got, 1, p);
    hide SkipFrom;
  }

  lemma {:induction false} SkipsTo(got: seq<Byte>, k: nat, p: nat)
    requires 1 <= k < p <= |got| && got[p - 1] < 128 && forall j :: k <= j < p - 1 ==> got[j] >= 128
    ensures SkipFrom(got, k) == p
    decreases p - k
  {
    if k < p - 1 {
      SkipsTo(got, k + 1, p);
    }
  }

  /** A published message, received whole, is parsed to the same topic and payload, cut to the sizes
      of the receiving queue. */
  lemma {:induction false} ParsePublished(topic: seq<Byte>, data: seq<Byte>, retain: bool)
    requires |topic| < 0x1_0000
    ensures ParsePublish(Publish(topic, data, retain)) == Some(Message(Cut(topic, TOPIC_MAX), Cut(data, PAYLOAD_MAX)))
  {
    var got := Publish(topic, data, retain);
    var first: seq<Byte> := [if retain then 0x31 else 0x30];
    var body := U16(|topic|) + topic + data;
    DecodeEncode(first, 2 + |topic| + |data|, body);
    var p := SkipFrom(got, 1);
    assert |got| == p + |body| && got[p..] == body;
    hide Publish, SkipFrom, EncodeLength, DecodeFrom, Cut, U16, U16Of;
    BodyFields(got, p, U16(|topic|), topic, data);
    U16RoundTrip(|topic|);
  }

  lemma {:induction false} U16RoundTrip(v: nat)
    requires v < 0x1_0000
    ensures U16Of(U16(v)[0], U16(v)[1]) == v
  {}

  lemma {:induction false} BodyFields(got: seq<Byte>, p: nat, head: seq<Byte>, topic: seq<Byte>, data: seq<Byte>)
    requires p <= |got| && |head| == 2 && got[p..] == head + topic + data
    ensures |got| == p + 2 + |topic| + |data|
    ensures got[p] == head[0] && got[p + 1] == head[1]
    ensures got[p + 2..p + 2 + |topic|] == topic && got[p + 2 + |topic|..] == data
  {
    var body := head + topic + data;
    assert got[p] == body[0] && got[p + 1] == body[1];
    assert got[p + 2..p + 2 + |topic|] == body[2..2 + |topic|];
    assert got[p + 2 + |topic|..] == body[2 + |topic|..];
  }

  /** Where the payload starts in the packet. */
  function PayloadStart(topic: seq<Byte>, data: seq<Byte>): nat {
    1 + |EncodeLength(2 + |topic| + |data|)| + 2 + |topic|
  }

  lemma {:induction false} PacketParts(topic: seq<Byte>, data: seq<Byte>, retain: bool) returns (first: seq<Byte>)
    ensures |first| == 1
    ensures Publish(topic, data, retain)
         == first + EncodeLength(2 + |topic| + |data|) + (U16(|topic|) + topic + data)
  {
    first := [if retain then 0x31 else 0x30];
  }

  lemma {:induction false} SliceOfPrefix(got: seq<Byte>, a: seq<Byte>, b: seq<Byte>)
    requires got <= a + b
    ensures |got| < |a| ==> forall k :: 0 <= k < |got| ==> got[k] == a[k]
    ensures |got| >= |a| ==> got == a + got[|a|..] && got[|a|..] == b[..|got| - |a|]
  {}

  /** Within the fixed header there is no body yet. */
  lemma {:induction false} HeaderOnly(got: seq<Byte>, first: seq<Byte>, n: nat)
    requires |first| == 1 && 2 <= |got| < 1 + |EncodeLength(n)|
    requires forall k :: 0 <= k < |got| ==> got[k] == (first + EncodeLength(n))[k]
    ensures ParsePublish(got) == None
  {
    EncodedWellFormed(n);
    forall k | 1 <= k < |got| ensures Continues(got[k]) {
      assert got[k] == EncodeLength(n)[k - 1];
    }
    SkipsAll(got, 1);
  }

  lemma {:induction false} SkipsAll(buf: seq<Byte>, p: nat)
    requires p <= |buf| && forall k :: p <= k < |buf| ==> Continues(buf[k])
    ensures SkipFrom(buf, p) == |buf| + 1
    decreases |buf| - p
  {
    if p < |buf| {
      SkipsAll(buf, p + 1);
    }
  }

  lemma {:induction false} BodyPrefix(got: seq<Byte>, p: nat, head: seq<Byte>, topic: seq<Byte>, data: seq<Byte>)
    requires p <= |got| <= p + 2 + |topic| + |data| && |head| == 2
    requires got[p..] == (head + topic + data)[..|got| - p]
    ensures |got| >= p + 2 ==> got[p] == head[0] && got[p + 1] == head[1]
    ensures |got| >= p + 2 + |topic| ==>
              got[p + 2..p + 2 + |topic|] == topic && got[p + 2 + |topic|..] == data[..|got| - p - 2 - |topic|]
  {
    if |got| >= p + 2 {
      assert got[p] == got[p..][0] == head[0] && got[p + 1] == got[p..][1] == head[1];
    }
    if |got| >= p + 2 + |topic| {
      var rest := data[..|got| - p - 2 - |topic|];
      assert got[p..] == head + topic + rest;
      BodyFields(got, p, head, topic, rest);
    }
  }

  /** What the dispatcher makes of the first bytes of a packet: nothing before the payload starts, and from
      there on the message with as much of its payload as there is. */
  lemma {:induction false} PrefixParsed(topic: seq<Byte>, data: seq<Byte>, retain: bool, got: seq<Byte>)
    requires |topic| < 0x1_0000 && 2 <= |got| && got <= Publish(topic, data, retain)
    ensures var start := PayloadStart(topic, data);
            ParsePublish(got) ==
            if |got| < start then None
            else Some(Message(Cut(topic, TOPIC_MAX), Cut(data[..|got| - start], PAYLOAD_MAX)))
  {
    hide EncodeLength, DecodeFrom, SkipFrom, Publish, U16, U16Of, Cut;
    var n := 2 + |topic| + |data|;
    var first := PacketParts(topic, data, retain);
    var header, body := first + EncodeLength(n), U16(|topic|) + topic + data;
    SliceOfPrefix(got, header, body);
    if |got| < |header| {
      HeaderOnly(got, first, n);
    } else {
      DecodeEncode(first, n, got[|header|..]);
      U16RoundTrip(|topic|);
      BodyPrefix(got, |header|, U16(|topic|), topic, data);
    }
  }

  // ---------------------------------------------------------------- receiving in pieces

  function Concat(chunks: seq<seq<Byte>>): seq<Byte> {
    if chunks == [] then [] else chunks[0] + Concat(chunks[1..])
  }

  /** How many bytes the reader decides to wait for, from what it has when it first has two: 32-bit signed
      arithmetic, so a length field of five bytes or more wraps. */
  function ToRead(got: seq<Byte>): int
    requires |got| >= 2
  {
    var (p, rl) := DecodeFrom(got, 1);
    Signed(p + rl)
  }

  /** The reader waits for the length that was announced exactly as long as it fits 31 bits, which a field
      of up to four bytes always does; a longer field can make it wait for anything. */
  lemma {:induction false} WaitsAsAnnouncedIff(got: seq<Byte>)
    requires 2 <= |got| <= BUF_SIZE
    ensures var (p, n) := DecodeFrom(got, 1);
            && (ToRead(got) == p + n <==> p + n < UINT32 / 2)
            && (p <= 5 ==> ToRead(got) == p + n)
  {
    DecodedBelow(got, 1);
    assert Power128(4) == 268435456;
    var (p, n) := DecodeFrom(got, 1);
    if p <= 5 {
      PowerMonotone(p - 1, 4);
    }
    hide DecodeFrom, Power128;
  }

  lemma {:induction false} DecodedBelow(buf: seq<Byte>, p: nat)
    requires p <= |buf|
    ensures DecodeFrom(buf, p).1 < Power128(DecodeFrom(buf, p).0 - p)
    decreases |buf| - p
  {
    if p < |buf| && Continues(buf[p]) {
      DecodedBelow(buf, p + 1);
    } else {
      assert Power128(0) == 1 && Power128(1) == 128;
    }
  }

  lemma {:induction false} PowerMonotone(a: nat, b: nat)
    requires a <= b
    ensures Power128(a) <= Power128(b)
  {
    if a < b {
      PowerMonotone(a, b - 1);
    }
  }

  /** The read loop: takes chunks until it has the bytes it waits for, or none come. */
  function ReadLoop(got: seq<Byte>, toRead: int, chunks: seq<seq<Byte>>): (r: seq<Byte>)
    decreases |chunks|
  {
    if |got| >= toRead || |got| >= BUF_SIZE || chunks == [] then got
    else
      var g := got + chunks[0];
      ReadLoop(g, if |g| >= 2 && toRead == 2 then ToRead(g) else toRead, chunks[1..])
  }

  predicate NonEmpty(chunks: seq<seq<Byte>>) {
    forall i :: 0 <= i < |chunks| ==> chunks[i] != []
  }

  /** What the reader has when it first has two bytes. */
  function FirstTwo(got: seq<Byte>, chunks: seq<seq<Byte>>): (r: seq<Byte>)
    ensures |got + Concat(chunks)| >= 2 ==> |r| >= 2
    decreases |chunks|
  {
    if |got| >= 2 || chunks == [] then got else FirstTwo(got + chunks[0], chunks[1..])
  }

  lemma {:induction false} ConcatSplit(chunks: seq<seq<Byte>>)
    requires chunks != []
    ensures Concat(chunks) == Concat(chunks[..|chunks| - 1]) + chunks[|chunks| - 1]
  {
    var front, last := chunks[..|chunks| - 1], chunks[|chunks| - 1];
    if |chunks| == 1 {
      assert chunks[1..] == [] && front == [];
      assert last + [] == [] + last;
    } else {
      ConcatSplit(chunks[1..]);
      assert front[0] == chunks[0] && front[1..] == chunks[1..][..|chunks| - 2];
      var a, b := chunks[0], Concat(front[1..]);
      assert a + (b + last) == a + b + last;
    }
  }

  /** Once the reader knows how much to wait for, it takes everything exactly when all but the last
      chunk leave it short. */
  lemma {:induction false} ReadsAllIff(got: seq<Byte>, toRead: int, chunks: seq<seq<Byte>>)
    requires |got| >= 2 && NonEmpty(chunks) && |got + Concat(chunks)| <= BUF_SIZE
    ensures ReadLoop(got, toRead, chunks) == got + Concat(chunks)
            <==> chunks == [] || |got| + |Concat(chunks[..|chunks| - 1])| < toRead
    decreases |chunks|
  {
    if chunks == [] {
      assert got + Concat(chunks) == got;
    } else if |got| >= toRead || |got| >= BUF_SIZE {
      assert |chunks[0]| > 0;
      assert |Concat(chunks)| > 0;
    } else {
      var g := got + chunks[0];
      assert g + Concat(chunks[1..]) == got + Concat(chunks);
      if |chunks| == 1 {
        assert chunks[..0] == [] && Concat(chunks[..0]) == [];
        assert chunks[1..] == [];
      } else {
        assert chunks[..|chunks| - 1][0] == chunks[0];
        assert chunks[..|chunks| - 1][1..] == chunks[1..][..|chunks[1..]| - 1];
      }
      if toRead == 2 {
        assert false;
      }
      ReadsAllIff(g, toRead, chunks[1..]);
    }
  }

  /** A packet delivered alone is taken whole, exactly when it is completed by the chunk that completes
      its first two bytes, or when all chunks but the last are fewer bytes than the reader has decided
      to wait for. */
  lemma {:induction false} TakenWholeIff(chunks: seq<seq<Byte>>)
    requires NonEmpty(chunks) && 2 <= |Concat(chunks)| <= BUF_SIZE
    ensures |FirstTwo([], chunks)| >= 2
    ensures ReadLoop([], 2, chunks) == Concat(chunks) <==>
            || FirstTwo([], chunks) == Concat(chunks)
            || |Concat(chunks[..|chunks| - 1])| < ToRead(FirstTwo([], chunks))
  {
    var a := chunks[0];
    var rest := chunks[1..];
    assert [] + a == a && [] + Concat(chunks) == Concat(chunks);
    if |a| >= 2 {
      AfterFirst(chunks, a, rest);
    } else {
      assert Concat(chunks) == a + Concat(rest);
      var b := a + rest[0];
      assert chunks[1] != [];
      assert b + Concat(rest[1..]) == Concat(chunks);
      assert FirstTwo([], chunks) == FirstTwo(a, rest) == FirstTwo(b, rest[1..]) == b;
      AfterFirst(chunks, b, rest[1..]);
    }
  }

  lemma {:induction false} AfterFirst(chunks: seq<seq<Byte>>, got: seq<Byte>, rest: seq<seq<Byte>>)
    requires NonEmpty(chunks) && |got| >= 2 && |Concat(chunks)| <= BUF_SIZE
    requires |rest| < |chunks| && rest == chunks[|chunks| - |rest|..]
    requires got + Concat(rest) == Concat(chunks)
    ensures ReadLoop(got, ToRead(got), rest) == Concat(chunks) <==>
            got == Concat(chunks) || |Concat(chunks[..|chunks| - 1])| < ToRead(got)
  {
    ReadsAllIff(got, ToRead(got), rest);
    if rest != [] {
      ConcatSplit(chunks);
      ConcatSplit(rest);
      assert chunks[|chunks| - 1] == rest[|rest| - 1];
      assert |rest[|rest| - 1]| > 0;
      assert |got| + |Concat(rest[..|rest| - 1])| == |Concat(chunks[..|chunks| - 1])|;
    } else {
      assert Concat(rest) == [];
      assert got == Concat(chunks);
    }
  }

  /** A piece that covers the fixed header tells the reader the length of the whole packet. */
  lemma {:induction false} KnowsLength(first: seq<Byte>, topic: seq<Byte>, data: seq<Byte>, retain: bool)
    requires |Publish(topic, data, retain)| <= BUF_SIZE && first <= Publish(topic, data, retain)
    requires |first| >= 1 + |EncodeLength(2 + |topic| + |data|)|
    ensures ToRead(first) == |Publish(topic, data, retain)|
  {
    hide EncodeLength, DecodeFrom, Publish, U16;
    var n := 2 + |topic| + |data|;
    var head := PacketParts(topic, data, retain);
    SliceOfPrefix(first, head + EncodeLength(n), U16(|topic|) + topic + data);
    DecodeEncode(head, n, first[1 + |EncodeLength(n)|..]);
  }

  lemma {:induction false} FirstTwoIsPrefix(got: seq<Byte>, chunks: seq<seq<Byte>>)
    ensures FirstTwo(got, chunks) <= got + Concat(chunks)
    decreases |chunks|
  {
    if |got| < 2 && chunks != [] {
      FirstTwoIsPrefix(got + chunks[0], chunks[1..]);
      assert got + chunks[0] + Concat(chunks[1..]) == got + Concat(chunks);
    }
  }

  /** Where piece k begins: the number of bytes in the pieces before it. */
  function Boundary(chunks: seq<seq<Byte>>, k: nat): nat
    requires k <= |chunks|
  {
    |Concat(chunks[..k])|
  }

  /** No piece ends where the reader would be content with it, short of n bytes. */
  ghost predicate NoStopBefore(chunks: seq<seq<Byte>>, from: int, n: nat) {
    forall k: nat :: k <= |chunks| && Boundary(chunks, k) >= from ==> Boundary(chunks, k) >= n
  }

  lemma {:induction false} BoundaryCons(chunks: seq<seq<Byte>>, k: nat)
    requires 1 <= k <= |chunks|
    ensures Boundary(chunks, k) == |chunks[0]| + Boundary(chunks[1..], k - 1)
  {
    assert chunks[..k][0] == chunks[0] && chunks[..k][1..] == chunks[1..][..k - 1];
  }

  lemma {:induction false} BoundaryEnds(chunks: seq<seq<Byte>>)
    ensures Boundary(chunks, 0) == 0 && Boundary(chunks, |chunks|) == |Concat(chunks)|
  {
    assert chunks[..0] == [] && chunks[..|chunks|] == chunks;
  }

  lemma {:induction false} NoStopCons(chunks: seq<seq<Byte>>, from: int, n: nat)
    requires chunks != [] && from > 0 && n >= |chunks[0]|
    ensures NoStopBefore(chunks, from, n) <==> NoStopBefore(chunks[1..], from - |chunks[0]|, n - |chunks[0]|)
  {
    var rest := chunks[1..];
    BoundaryEnds(chunks);
    forall k: nat | 1 <= k <= |chunks| ensures Boundary(chunks, k) == |chunks[0]| + Boundary(rest, k - 1) {
      BoundaryCons(chunks, k);
    }
    if NoStopBefore(chunks, from, n) {
      forall k: nat | k <= |rest| && Boundary(rest, k) >= from - |chunks[0]|
        ensures Boundary(rest, k) >= n - |chunks[0]|
      {
        assert Boundary(chunks, k + 1) == |chunks[0]| + Boundary(rest, k);
      }
    }
    hide Boundary;
  }

  /** Once the reader waits for toRead bytes, it gets n of them or more if and only if no piece ends between. */
  lemma {:induction false} ReadsAtLeastIff(got: seq<Byte>, toRead: int, chunks: seq<seq<Byte>>, n: nat)
    requires |got| >= 2 && |got + Concat(chunks)| <= BUF_SIZE && |got| <= n <= |got + Concat(chunks)|
    ensures var r := ReadLoop(got, toRead, chunks);
            && |got| <= |r| && r <= got + Concat(chunks)
            && (|r| >= n <==> NoStopBefore(chunks, toRead - |got|, n - |got|))
    decreases |chunks|
  {
    BoundaryEnds(chunks);
    if chunks == [] {
      assert got + Concat(chunks) == got;
    } else if |got| >= toRead || |got| >= BUF_SIZE {
      assert Boundary(chunks, 0) == 0;
    } else {
      var g := got + chunks[0];
      assert g + Concat(chunks[1..]) == got + Concat(chunks);
      if |g| <= n {
        NoStopCons(chunks, toRead - |got|, n - |got|);
        ReadsAtLeastIff(g, toRead, chunks[1..], n);
      } else {
        ReadsAtLeastIff(g, toRead, chunks[1..], |g|);
        forall k: nat | 1 <= k <= |chunks| ensures Boundary(chunks, k) >= |chunks[0]| {
          BoundaryCons(chunks, k);
        }
      }
    }
  }

  /** The reader's first decision: it is taken with the bytes of FirstTwo in hand. */
  lemma {:induction false} ReadsFirstTwo(chunks: seq<seq<Byte>>, from: int, n: nat) returns (rest: seq<seq<Byte>>)
    requires NonEmpty(chunks) && 2 <= |Concat(chunks)| <= BUF_SIZE && from >= 2 && n >= |FirstTwo([], chunks)|
    ensures var first := FirstTwo([], chunks);
            && |first| >= 2 && first + Concat(rest) == Concat(chunks)
            && ReadLoop([], 2, chunks) == ReadLoop(first, ToRead(first), rest)
            && (NoStopBefore(chunks, from, n) <==> NoStopBefore(rest, from - |first|, n - |first|))
  {
    var a := chunks[0];
    assert [] + a == a && [] + Concat(chunks) == Concat(chunks);
    rest := chunks[1..];
    if |a| >= 2 {
      assert FirstTwo([], chunks) == FirstTwo(a, rest) == a;
      NoStopCons(chunks, from, n);
    } else {
      var b := a + rest[0];
      assert chunks[1] != [];
      assert FirstTwo([], chunks) == FirstTwo(a, rest) == FirstTwo(b, rest[1..]) == b;
      NoStopCons(chunks, from, n);
      NoStopCons(rest, from - |a|, n - |a|);
      rest := rest[1..];
      assert b + Concat(rest) == Concat(chunks);
    }
  }

  /** With a packet that fits, the reader waits for all of it, unless the piece with its second byte ends
      within the fixed header: then it takes the one length byte it has for the whole length. */
  lemma {:induction false} WaitsFor(first: seq<Byte>, topic: seq<Byte>, data: seq<Byte>, retain: bool)
    requires |Publish(topic, data, retain)| <= BUF_SIZE && |first| >= 2 && first <= Publish(topic, data, retain)
    ensures var n := 2 + |topic| + |data|;
            ToRead(first) == if |first| <= |EncodeLength(n)| then 2 + n % 128 else |Publish(topic, data, retain)|
  {
    var n := 2 + |topic| + |data|;
    if |first| > |EncodeLength(n)| {
      KnowsLength(first, topic, data, retain);
    } else {
      EncodedSize(n, 1);
      assert Power128(2) == 16384;
      assert first[1] == Publish(topic, data, retain)[1] == EncodeLength(n)[0] == n % 128 + 128;
      assert DecodeFrom(first, 2) == (2, 0);
      assert DecodeFrom(first, 1) == (2, n % 128);
    }
  }

  /** The piece with the second byte of the packet ends within the fixed header. */
  predicate HeaderSplit(chunks: seq<seq<Byte>>, n: nat) {
    |FirstTwo([], chunks)| <= |EncodeLength(n)|
  }

  /** The pieces bring n bytes, and none of them ends where the reader stops short of that. */
  ghost predicate Brings(chunks: seq<seq<Byte>>, length: nat, n: nat) {
    |Concat(chunks)| >= n && (!HeaderSplit(chunks, length) || NoStopBefore(chunks, 2 + length % 128, n))
  }

  lemma {:induction false} ReadsPacketIff(topic: seq<Byte>, data: seq<Byte>, retain: bool,
                                          chunks: seq<seq<Byte>>, n: nat)
    requires var packet := Publish(topic, data, retain);
             NonEmpty(chunks) && Concat(chunks) <= packet && 2 <= |Concat(chunks)| && n <= |packet| <= BUF_SIZE
    requires n > 2 + |EncodeLength(2 + |topic| + |data|)|
    ensures var got := ReadLoop([], 2, chunks);
            && |got| >= 2 && got <= Publish(topic, data, retain)
            && (|got| >= n <==> Brings(chunks, 2 + |topic| + |data|, n))
  {
    hide Publish, FirstTwo, ReadLoop, Concat, ToRead, EncodeLength, NonEmpty;
    var packet := Publish(topic, data, retain);
    var first := FirstTwo([], chunks);
    FirstTwoIsPrefix([], chunks);
    assert [] + Concat(chunks) == Concat(chunks);
    WaitsFor(first, topic, data, retain);
    var m := if n < |first| || n > |Concat(chunks)| then |first| else n;
    var rest := ReadsFirstTwo(chunks, if ToRead(first) < 2 then 2 else ToRead(first), m);
    ReadsAtLeastIff(first, ToRead(first), rest, m);
    BoundariesWithin(chunks);
  }

  lemma {:induction false} BoundariesWithin(chunks: seq<seq<Byte>>)
    ensures forall k: nat :: k <= |chunks| ==> Boundary(chunks, k) <= |Concat(chunks)|
  {
    if chunks != [] {
      BoundariesWithin(chunks[1..]);
      forall k: nat | 1 <= k <= |chunks| ensures Boundary(chunks, k) <= |Concat(chunks)| {
        BoundaryCons(chunks, k);
      }
    }
    BoundaryEnds(chunks);
  }

  lemma {:induction false} ReadsNoMore(got: seq<Byte>, toRead: int, chunks: seq<seq<Byte>>)
    ensures |ReadLoop(got, toRead, chunks)| <= |got| + |Concat(chunks)|
    decreases |chunks|
  {
    if !(|got| >= toRead || |got| >= BUF_SIZE || chunks == []) {
      var g := got + chunks[0];
      ReadsNoMore(g, if |g| >= 2 && toRead == 2 then ToRead(g) else toRead, chunks[1..]);
    }
  }

  /** Main result: what becomes of a PUBLISH that fits the buffer and comes alone, in any pieces, of which
      those come in time that bring its first bytes, or all. It is queued as the same topic and payload if
      and only if the pieces in time bring the last byte that the queue takes, and its fixed header is not
      split or no piece ends from the byte up to which the reader then waits to that one. Otherwise it is
      queued with its payload truncated, if that is so of the byte at which the payload starts, or else lost. */
  lemma {:induction false} PublishArrivesIff(topic: seq<Byte>, data: seq<Byte>, retain: bool, chunks: seq<seq<Byte>>)
    requires |Publish(topic, data, retain)| <= BUF_SIZE
    requires NonEmpty(chunks) && Concat(chunks) <= Publish(topic, data, retain)
    ensures var got := ReadLoop([], 2, chunks);
            var length, start := 2 + |topic| + |data|, PayloadStart(topic, data);
            && (|got| >= 2 <==> |Concat(chunks)| >= 2)
            && (|got| >= 2 ==>
                  && (ParsePublish(got) == Some(Message(Cut(topic, TOPIC_MAX), Cut(data, PAYLOAD_MAX))) <==>
                        Brings(chunks, length, start + |Cut(data, PAYLOAD_MAX)|))
                  && (ParsePublish(got).Some? <==> Brings(chunks, length, start))
                  && (ParsePublish(got).Some? ==>
                        && start <= |got| <= start + |data|
                        && ParsePublish(got).value ==
                           Message(Cut(topic, TOPIC_MAX), Cut(data[..|got| - start], PAYLOAD_MAX))))
  {
    var got := ReadLoop([], 2, chunks);
    var start := PayloadStart(topic, data);
    hide Publish, ReadLoop, Concat, Brings, ParsePublish, NonEmpty, EncodeLength;
    ReadsNoMore([], 2, chunks);
    if |Concat(chunks)| >= 2 {
      PublishSize(topic, data, retain);
      ReadsPacketIff(topic, data, retain, chunks, start);
      ReadsPacketIff(topic, data, retain, chunks, start + |Cut(data, PAYLOAD_MAX)|);
      PrefixParsed(topic, data, retain, got);
      if |got| >= start {
        CutPrefix(data, |got| - start, PAYLOAD_MAX);
      }
    }
  }

  lemma {:induction false} PublishSize(topic: seq<Byte>, data: seq<Byte>, retain: bool)
    ensures |Publish(topic, data, retain)| == PayloadStart(topic, data) + |data|
  {}

  lemma {:induction false} CutPrefix(data: seq<Byte>, m: nat, n: nat)
    requires m <= |data|
    ensures Cut(data[..m], n) == Cut(data, n) <==> m >= |Cut(data, n)|
  {
    if m < |Cut(data, n)| {
      assert |Cut(data[..m], n)| <= m;
    }
  }

  lemma {:induction false} ReadsPieces(a: seq<Byte>, b: seq<Byte>, c: seq<Byte>)
    requires |a| == 2 && |a + b| == ToRead(a) && b != []
    ensures ReadLoop([], 2, [a, b, c]) == a + b
  {
    assert [] + a == a && [a, b, c][1..] == [b, c] && [b, c][1..] == [c];
    hide ToRead;
    assert ReadLoop(a, ToRead(a), [b, c]) == ReadLoop(a + b, ToRead(a), [c]);
  }

  /** Both failures happen, with the fixed header split after its second byte. A message with 128 bytes of
      body is lost, whatever the rest: the reader is content with those two. */
  lemma {:induction false} SplitHeaderLosesMessage(topic: seq<Byte>, data: seq<Byte>, retain: bool)
    requires 2 + |topic| + |data| == 128
    ensures var packet := Publish(topic, data, retain);
            var got := ReadLoop([], 2, [packet[..2], packet[2..]]);
            |got| >= 2 && ParsePublish(got) == None
  {
    var packet := Publish(topic, data, retain);
    var got := packet[..2];
    EncodedSize(128, 0);
    WaitsFor(got, topic, data, retain);
    PublishSize(topic, data, retain);
    assert [] + got == got && [got, packet[2..]][1..] == [packet[2..]];
    hide Publish, ToRead, EncodeLength, ParsePublish;
    PrefixParsed(topic, data, retain, got);
    assert ReadLoop([], 2, [got, packet[2..]]) == ReadLoop(got, 2, [packet[2..]]);
  }

  /** One with 255 bytes of body is queued with its payload truncated if the next piece ends with byte 129. */
  lemma {:induction false} SplitHeaderTruncatesMessage(topic: seq<Byte>, data: seq<Byte>, retain: bool)
    requires 2 + |topic| + |data| == 255 && |topic| <= 124
    ensures var packet := Publish(topic, data, retain);
            && |packet| >= 129
            && var got := ReadLoop([], 2, [packet[..2], packet[2..129], packet[129..]]);
               |got| >= 2 && ParsePublish(got) == Some(Message(Cut(topic, TOPIC_MAX), data[..124 - |topic|]))
  {
    var packet := Publish(topic, data, retain);
    EncodedSize(255, 0);
    EncodedSize(255, 1);
    assert Power128(1) == 128 && Power128(2) == 16384;
    PublishSize(topic, data, retain);
    WaitsFor(packet[..2], topic, data, retain);
    hide Publish, ToRead, EncodeLength, ParsePublish, ReadLoop, Power128;
    assert packet[..2] + packet[2..129] == packet[..129];
    ReadsPieces(packet[..2], packet[2..129], packet[129..]);
    PrefixParsed(topic, data, retain, packet[..129]);
  }

  // ---------------------------------------------------------------- the adapter

  /** The do-while loop of the encoder, writing at position `at`. */
  method EncodeRemainingLength(buf: array<Byte>, at: nat, len: nat) returns (pos: nat)
    requires at + |EncodeLength(len)| <= buf.Length
    modifies buf
    ensures pos == |EncodeLength(len)|
    ensures buf[..at + pos] == old(buf[..at]) + EncodeLength(len)
  {
    var rest := len;
    pos := 0;
    ghost var written: seq<Byte> := [];
    while true
      invariant written + EncodeLength(rest) == EncodeLength(len) && pos == |written|
      invariant buf[..at + pos] == old(buf[..at]) + written
      decreases rest
    {
      var b := rest % 128;
      var next := rest / 128;
      if next > 0 { b := b + 128; }
      ghost var left := if next > 0 then EncodeLength(next) else [];
      assert EncodeLength(rest) == [b] + left;
      assert written + ([b] + left) == (written + [b]) + left;
      buf[at + pos] := b;
      pos := pos + 1;
      written := written + [b];
      rest := next;
      if rest == 0 {
        assert written + left == written;
        break;
      }
    }
  }

  method WriteBytes(buf: array<Byte>, at: nat, s: seq<Byte>)
    requires at + |s| <= buf.Length
    modifies buf
    ensures buf[..at + |s|] == old(buf[..at]) + s
  {
    forall i | 0 <= i < |s| {
      buf[at + i] := s[i];
    }
  }

  lemma {:induction false} U16Value(v: nat)
    ensures v / 256 % 256 * 256 + v % 256 == v % 0x1_0000
  {}

  method WriteString(buf: array<Byte>, at: nat, s: seq<Byte>) returns (pos: nat)
    requires at + 2 + |s| <= buf.Length
    modifies buf
    ensures pos == 2 + |s|
    ensures buf[..at + pos] == old(buf[..at]) + (U16(|s|) + s)
    ensures (buf[at] as int) * 256 + buf[at + 1] as int == |s| % 0x1_0000 && buf[at + 2..at + pos] == s
  {
    buf[at] := |s| / 256 % 256;
    buf[at + 1] := |s| % 256;
    assert buf[..at + 2] == old(buf[..at]) + U16(|s|);
    U16Value(|s|);
    hide U16;
    ghost var high, low := buf[at], buf[at + 1];
    WriteBytes(buf, at + 2, s);
    pos := 2 + |s|;
    assert buf[at] == buf[..at + pos][at] == high && buf[at + 1] == buf[..at + pos][at + 1] == low;
    assert buf[at + 2..at + pos] == buf[..at + pos][at + 2..];
  }

  /** Builds a PUBLISH packet; the caller keeps it within the buffer. */
  method BuildPublish(buf: array<Byte>, topic: seq<Byte>, data: seq<Byte>, retain: bool) returns (pos: nat)
    requires buf.Length == 2048 && |Publish(topic, data, retain)| <= 2048
    modifies buf
    ensures pos <= BUF_SIZE && buf[..pos] == Publish(topic, data, retain)
  {
    hide EncodeLength, U16;
    var remaining := 2 + |topic| + |data|;
    buf[0] := if retain then 0x31 else 0x30;
    ghost var first := buf[..1];
    var n := EncodeRemainingLength(buf, 1, remaining);
    var m := WriteString(buf, 1 + n, topic);
    WriteBytes(buf, 1 + n + m, data);
    pos := 1 + n + m + |data|;
    assert first + EncodeLength(remaining) + (U16(|topic|) + topic) + data
        == first + EncodeLength(remaining) + (U16(|topic|) + topic + data);
  }

  /** The connection state that incoming packets change, and the queue they fill. */
  class Receiver {
    var connected: bool
    var subscribed: bool
    var pingPending: bool
    var sink: seq<Message>

    /** The reader's loop over the length bytes it has so far. */
    method LengthOf(got: seq<Byte>) returns (toRead: int)
      requires |got| >= 2
      ensures toRead == ToRead(got)
    {
      var rl, m, p: nat := 0, 1, 1;
      while p < |got|
        invariant 1 <= p <= |got|
        invariant DecodeFrom(got, 1).0 == DecodeFrom(got, p).0
        invariant Congruent(DecodeFrom(got, 1).1, Sum(rl, m, DecodeFrom(got, p).1))
      {
        hide DecodeFrom, Sum, Congruent, Signed;
        var low := got[p] % 128;
        DecodeStep(got, p);
        ghost var high := if Continues(got[p]) then DecodeFrom(got, p + 1).1 else 0;
        LengthStep(DecodeFrom(got, 1).1, rl, m, low, high);
        rl := Signed(rl + Signed(low * m));
        m := Signed(m * 128);
        p := p + 1;
        if !Continues(got[p - 1]) {
          SumEnds(DecodeFrom(got, 1).1, p, rl, m);
          return Signed(p + rl);
        }
      }
      SumEnds(DecodeFrom(got, 1).1, p, rl, m);
      toRead := Signed(p + rl);
    }

    /** The chunk loop of the receiver. */
    method ReadPacket(chunks: seq<seq<Byte>>) returns (got: seq<Byte>)
      ensures got == ReadLoop([], 2, chunks)
    {
      got := [];
      var toRead := 2;
      var i := 0;
      while |got| < toRead && |got| < BUF_SIZE && i < |chunks|
        invariant 0 <= i <= |chunks|
        invariant ReadLoop(got, toRead, chunks[i..]) == ReadLoop([], 2, chunks)
        decreases |chunks| - i
      {
        assert chunks[i..][1..] == chunks[i + 1..];
        got := got + chunks[i];
        i := i + 1;
        if |got| >= 2 && toRead == 2 {
          toRead := LengthOf(got);
        }
      }
    }

    /** The PUBLISH case, with the body starting at p. */
    method Deliver(got: seq<Byte>, p: nat)
      requires |got| >= 2 && p == SkipFrom(got, 1)
      modifies this`sink
      ensures sink == old(sink) + (match ParsePublish(got) case None => [] case Some(msg) => [msg])
    {
      ParsedAt(got, p);
      hide ParsePublish, SkipFrom;
      var plen := |got| - p;
      if plen >= 2 {
        var tl := U16Of(got[p], got[p + 1]);
        if plen >= 2 + tl {
          var tlc := if tl < TOPIC_MAX then tl else TOPIC_MAX;
          var plc := if plen - 2 - tl < PAYLOAD_MAX then plen - 2 - tl else PAYLOAD_MAX;
          var msg := Message(got[p + 2..p + 2 + tlc], got[p + 2 + tl..p + 2 + tl + plc]);
          sink := sink + [msg];
        }
      }
    }

    /** Handles what one round of reading has produced. */
    method Dispatch(got: seq<Byte>)
      requires |got| >= 2
      modifies this
      ensures got[0] / 16 == 3 ==>
                sink == old(sink) + (match ParsePublish(got) case None => [] case Some(msg) => [msg])
      ensures got[0] / 16 != 3 ==> sink == old(sink)
      ensures connected == (old(connected)
                || (got[0] / 16 == 2 && |got| - SkipFrom(got, 1) >= 2 && got[SkipFrom(got, 1) + 1] == 0))
      ensures pingPending == (old(pingPending) && got[0] / 16 != 13 &&
                !(got[0] / 16 == 2 && |got| - SkipFrom(got, 1) >= 2 && got[SkipFrom(got, 1) + 1] == 0))
      ensures subscribed == (old(subscribed) || (got[0] / 16 == 9 && |got| - SkipFrom(got, 1) >= 1))
    {
      var p := 1;
      while p < |got| && Continues(got[p])
        invariant 1 <= p <= |got| && SkipFrom(got, p) == SkipFrom(got, 1)
      {
        p := p + 1;
      }
      p := p + 1;
      var plen := |got| - p;
      var kind := got[0] / 16;
      if kind == 2 {
        if plen >= 2 && got[p + 1] == 0 {
          connected := true;
          pingPending := false;
        }
      } else if kind == 13 {
        pingPending := false;
      } else if kind == 3 {
        Deliver(got, p);
      } else if kind == 9 {
        if plen >= 1 { subscribed := true; }
      }
    }
  }

  function Sum(rl: int, m: int, rest: int): int {
    rl + m * rest
  }

  /** Equal in 32 bits. */
  predicate Congruent(x: int, y: int) {
    (x - y) % UINT32 == 0
  }

  lemma {:induction false} CongruentChain(x: int, y: int, z: int)
    requires Congruent(x, y) && Congruent(y, z)
    ensures Congruent(x, z)
  {}

  lemma {:induction false} SignedCongruent(x: int)
    ensures Congruent(x, Signed(x))
  {}

  lemma {:induction false} CongruentSigned(x: int, y: int)
    requires Congruent(x, y)
    ensures Signed(x) == Signed(y)
  {}

  lemma {:induction false} CongruentPlus(a: int, x: int, y: int)
    requires Congruent(x, y)
    ensures Congruent(a + x, a + y)
  {}

  lemma {:induction false} CongruentTimes(x: int, y: int, k: int)
    requires Congruent(x, y)
    ensures Congruent(x * k, y * k)
  {
    var q := (x - y) / UINT32;
    assert x - y == UINT32 * q;
    assert x * k - y * k == UINT32 * (q * k);
    MultipleOf(x * k - y * k, q * k);
  }

  lemma {:induction false} MultipleOf(x: int, q: int)
    requires x == UINT32 * q
    ensures x % UINT32 == 0
  {}

  /** One step of the loop, with every sum and product wrapped to 32 bits. */
  lemma {:induction false} Digit(rl: int, m: int, low: int, high: int)
    ensures Congruent(Sum(rl, m, low + 128 * high), Sum(Signed(rl + Signed(low * m)), Signed(m * 128), high))
  {
    var a, b := rl + Signed(low * m), m * 128;
    SignedCongruent(low * m);
    CongruentPlus(rl, low * m, Signed(low * m));
    SignedCongruent(a);
    SignedCongruent(b);
    CongruentTimes(b, Signed(b), high);
    hide Signed;
    assert Sum(rl, m, low + 128 * high) == (rl + low * m) + b * high by { Distribute(rl, m, low, high); }
    CongruentChain(rl + low * m, a, Signed(a));
    hide Congruent, Sum;
    CongruentSum(rl + low * m, Signed(a), b * high, Signed(b) * high);
    assert Sum(Signed(a), Signed(b), high) == Signed(a) + Signed(b) * high by { SumIs(Signed(a), Signed(b), high); }
  }

  lemma {:induction false} LengthStep(value: int, rl: int, m: int, low: int, high: int)
    requires Congruent(value, Sum(rl, m, low + 128 * high))
    ensures Congruent(value, Sum(Signed(rl + Signed(low * m)), Signed(m * 128), high))
  {
    hide Congruent, Sum, Signed;
    Digit(rl, m, low, high);
    CongruentChain(value, Sum(rl, m, low + 128 * high), Sum(Signed(rl + Signed(low * m)), Signed(m * 128), high));
  }

  lemma {:induction false} SumIs(rl: int, m: int, rest: int)
    ensures Sum(rl, m, rest) == rl + m * rest
  {}

  lemma {:induction false} CongruentSum(a: int, b: int, x: int, y: int)
    requires Congruent(a, b) && Congruent(x, y)
    ensures Congruent(a + x, b + y)
  {}

  lemma {:induction false} Distribute(rl: int, m: int, low: int, high: int)
    ensures Sum(rl, m, low + 128 * high) == (rl + low * m) + (m * 128) * high
  {}

  lemma {:induction false} SumEnds(value: int, p: nat, rl: int, m: int)
    requires Congruent(value, Sum(rl, m, 0))
    ensures Signed(p + value) == Signed(p + rl)
  {
    CongruentPlus(p, value, rl);
    CongruentSigned(p + value, p + rl);
  }

  lemma {:induction false} DecodeStep(got: seq<Byte>, p: nat)
    requires p < |got|
    ensures DecodeFrom(got, p) ==
            if Continues(got[p]) then (DecodeFrom(got, p + 1).0, got[p] % 128 + 128 * DecodeFrom(got, p + 1).1)
            else (p + 1, got[p] % 128)
  {}
}
