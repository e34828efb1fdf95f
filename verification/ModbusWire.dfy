/**
 How typed values travel as 16-bit registers
 (instro/lib/transports/modbus.py): big-endian bytes with optional swaps.
 */
module ModbusWire {
  datatype DataType = UInt16 | Int16 | UInt32 | Int32 | UInt64 | Int64 | Float32 | Float64 | Bool

  datatype Swaps = Swaps(byteSwap: bool, wordSwap: bool, longSwap: bool)

  datatype Value = IntValue(i: int) | FloatValue(r: real) | BoolValue(b: bool)

  // IEEE 754 interchange is a parameter: how bytes read as a number and back.
  datatype FloatFormat = FloatFormat(decode: seq<int> -> real, encode: (nat, real) -> seq<int>)

  predicate Bytes(s: seq<int>) {
    forall i :: 0 <= i < |s| ==> 0 <= s[i] < 256
  }

  predicate Words(s: seq<int>) {
    forall i :: 0 <= i < |s| ==> 0 <= s[i] < 0x1_0000
  }

  ghost predicate FormatOk(f: FloatFormat) {
    forall n: nat, r: real {:trigger f.encode(n, r)} :: |f.encode(n, r)| == n && Bytes(f.encode(n, r))
  }

  function RegisterCount(t: DataType): (n: nat)
    ensures 1 <= n <= 4
  {
    match t
    case UInt16 | Int16 | Bool => 1
    case UInt32 | Int32 | Float32 => 2
    case UInt64 | Int64 | Float64 => 4
  }

  predicate IsInteger(t: DataType) {
    t.UInt16? || t.Int16? || t.UInt32? || t.Int32? || t.UInt64? || t.Int64?
  }

  predicate IsSigned(t: DataType) {
    t.Int16? || t.Int32? || t.Int64?
  }

  // Number of values `n` bytes can hold.
  function Span(n: nat): (p: int)
    ensures p > 0
  {
    if n == 0 then 1 else 256 * Span(n - 1)
  }

  function RangeMin(t: DataType): int {
    if IsSigned(t) then -(Span(2 * RegisterCount(t)) / 2) else 0
  }

  function RangeMax(t: DataType): int {
    (if IsSigned(t) then Span(2 * RegisterCount(t)) / 2 else Span(2 * RegisterCount(t))) - 1
  }

  /** The ranges of the six integer types, as the configuration tabulates them. */
  lemma IntegerRanges()
    ensures RangeMin(UInt16) == 0 && RangeMax(UInt16) == 65535
    ensures RangeMin(Int16) == -32768 && RangeMax(Int16) == 32767
    ensures RangeMin(UInt32) == 0 && RangeMax(UInt32) == 4294967295
    ensures RangeMin(Int32) == -2147483648 && RangeMax(Int32) == 2147483647
    ensures RangeMin(UInt64) == 0 && RangeMax(UInt64) == 18446744073709551615
    ensures RangeMin(Int64) == -9223372036854775808 && RangeMax(Int64) == 9223372036854775807
  {
    assert Span(1) == 256;
    assert Span(2) == 0x1_0000;
    assert Span(3) == 0x100_0000;
    assert Span(4) == 0x1_0000_0000;
    assert Span(5) == 0x100_0000_0000;
    assert Span(6) == 0x1_0000_0000_0000;
    assert Span(7) == 0x100_0000_0000_0000;
    assert Span(8) == 0x1_0000_0000_0000_0000;
  }

  // ---------------------------------------------------------------- bytes and words

  function ToBytes(words: seq<int>): (b: seq<int>)
    ensures |b| == 2 * |words|
    ensures Words(words) ==> Bytes(b)
  {
    if words == [] then [] else [words[0] / 256, words[0] % 256] + ToBytes(words[1..])
  }

  function ToWords(b: seq<int>): (words: seq<int>)
    requires |b| % 2 == 0
    ensures |words| == |b| / 2
    ensures Bytes(b) ==> Words(words)
  {
    if b == [] then [] else [b[0] * 256 + b[1]] + ToWords(b[2..])
  }

  lemma {:induction false} WordsRoundTrip(b: seq<int>)
    requires |b| % 2 == 0 && Bytes(b)
    ensures ToBytes(ToWords(b)) == b
  {
    if b != [] {
      WordsRoundTrip(b[2..]);
      var w := ToWords(b);
      assert w[1..] == ToWords(b[2..]);
      assert 0 <= b[1] < 256;
      assert w[0] / 256 == b[0] && w[0] % 256 == b[1];
      assert b == [b[0], b[1]] + b[2..];
    }
  }

  // Big-endian encoding of a number in exactly `n` bytes.
  function Pack(v: int, n: nat): (b: seq<int>)
    requires 0 <= v < Span(n)
    ensures |b| == n && Bytes(b)
  {
    if n == 0 then [] else Pack(v / 256, n - 1) + [v % 256]
  }

  function Unpack(b: seq<int>): int {
    if b == [] then 0 else 256 * Unpack(b[..|b| - 1]) + b[|b| - 1]
  }

  lemma {:induction false} PackRoundTrip(v: int, n: nat)
    requires 0 <= v < Span(n)
    ensures Unpack(Pack(v, n)) == v
  {
    if n > 0 {
      PackRoundTrip(v / 256, n - 1);
      assert Pack(v, n)[..n - 1] == Pack(v / 256, n - 1);
    }
  }

  // ---------------------------------------------------------------- swaps

  function SwapBytes(b: seq<int>): (s: seq<int>)
    ensures |s| == |b|
    ensures Bytes(b) ==> Bytes(s)
  {
    if |b| < 2 then b else [b[1], b[0]] + SwapBytes(b[2..])
  }

  // Whole groups of four bytes only; a shorter last group stays.
  function SwapWords(b: seq<int>): (s: seq<int>)
    ensures |s| == |b|
    ensures Bytes(b) ==> Bytes(s)
  {
    if |b| < 4 then b else [b[2], b[3], b[0], b[1]] + SwapWords(b[4..])
  }

  function SwapLongs(b: seq<int>): (s: seq<int>)
    ensures |s| == |b|
    ensures Bytes(b) ==> Bytes(s)
  {
    if |b| == 8 then b[4..8] + b[0..4] else b
  }

  function OnReceive(b: seq<int>, swaps: Swaps): (s: seq<int>)
    ensures |s| == |b|
    ensures Bytes(b) ==> Bytes(s)
  {
    var b1 := if swaps.byteSwap then SwapBytes(b) else b;
    var b2 := if swaps.wordSwap then SwapWords(b1) else b1;
    if swaps.longSwap then SwapLongs(b2) else b2
  }

  function OnSend(b: seq<int>, swaps: Swaps): (s: seq<int>)
    ensures |s| == |b|
    ensures Bytes(b) ==> Bytes(s)
  {
    var b1 := if swaps.longSwap then SwapLongs(b) else b;
    var b2 := if swaps.wordSwap then SwapWords(b1) else b1;
    if swaps.byteSwap then SwapBytes(b2) else b2
  }

  lemma {:induction false} SwapBytesTwice(b: seq<int>)
    ensures SwapBytes(SwapBytes(b)) == b
  {
    if |b| >= 2 {
      SwapBytesTwice(b[2..]);
      assert SwapBytes(b)[2..] == SwapBytes(b[2..]);
      assert b == [b[0], b[1]] + b[2..];
    }
  }

  lemma {:induction false} SwapWordsTwice(b: seq<int>)
    ensures SwapWords(SwapWords(b)) == b
  {
    if |b| >= 4 {
      SwapWordsTwice(b[4..]);
      assert SwapWords(b)[4..] == SwapWords(b[4..]);
      assert b == [b[0], b[1], b[2], b[3]] + b[4..];
    }
  }

  lemma SwapLongsTwice(b: seq<int>)
    ensures SwapLongs(SwapLongs(b)) == b
  {}

  /** The receiver undoes the sender's swaps, whichever are configured. */
  lemma SwapsCancel(b: seq<int>, swaps: Swaps)
    ensures OnReceive(OnSend(b, swaps), swaps) == b
  {
    var b1 := if swaps.longSwap then SwapLongs(b) else b;
    var b2 := if swaps.wordSwap then SwapWords(b1) else b1;
    SwapBytesTwice(b2);
    SwapWordsTwice(b1);
    SwapLongsTwice(b);
  }

  // ---------------------------------------------------------------- values

  function Signed(v: int, n: nat): int {
    if v >= Span(n) / 2 then v - Span(n) else v
  }

  function Unsigned(v: int, n: nat): int {
    if v < 0 then v + Span(n) else v
  }

  // Bytes as a number, in two's complement if signed.
  function ReadInt(b: seq<int>, signed: bool): int {
    if signed then Signed(Unpack(b), |b|) else Unpack(b)
  }

  function WriteInt(v: int, n: nat): (b: seq<int>)
    requires n > 0 && -(Span(n) / 2) <= v < Span(n)
    ensures |b| == n && Bytes(b)
  {
    SpanIsEven(n);
    Pack(Unsigned(v, n), n)
  }

  lemma SpanIsEven(n: nat)
    requires n > 0
    ensures Span(n) % 2 == 0
  {
    assert Span(n) == 2 * (128 * Span(n - 1));
  }

  lemma IntRoundTrip(v: int, n: nat, signed: bool)
    requires n > 0
    requires if signed then -(Span(n) / 2) <= v < Span(n) / 2 else 0 <= v < Span(n)
    ensures ReadInt(WriteInt(v, n), signed) == v
  {
    SpanIsEven(n);
    PackRoundTrip(Unsigned(v, n), n);
  }

  function DecodeRegisters(words: seq<int>, t: DataType, swaps: Swaps, f: FloatFormat): Value
    requires |words| == RegisterCount(t)
  {
    if t.Bool? then IntValue(if words[0] != 0 then 1 else 0)
    else
      var b := OnReceive(ToBytes(words), swaps);
      if IsInteger(t) then IntValue(ReadInt(b, IsSigned(t))) else FloatValue(f.decode(b))
  }

  // Python's round: to the nearest integer, ties to even.
  function Round(x: real): int {
    var below := x.Floor;
    var rest := x - below as real;
    if rest < 0.5 || (rest == 0.5 && below % 2 == 0) then below else below + 1
  }

  // Python's int(): toward zero.
  function Trunc(x: real): int {
    if x >= 0.0 then x.Floor else -((-x).Floor)
  }

  function Num(v: Value): real {
    match v
    case IntValue(i) => i as real
    case FloatValue(r) => r
    case BoolValue(b) => if b then 1.0 else 0.0
  }

  // The integer a value is encoded as, rounding a float.
  function WireInt(v: Value): int {
    if v.FloatValue? then Round(v.r) else if v.IntValue? then v.i else if v.b then 1 else 0
  }

  predicate Encodable(v: Value, t: DataType) {
    IsInteger(t) ==> RangeMin(t) <= WireInt(v) <= RangeMax(t)
  }

  function Send(b: seq<int>, swaps: Swaps): (words: seq<int>)
    requires |b| % 2 == 0 && Bytes(b)
    ensures |words| == |b| / 2 && Words(words)
  {
    ToWords(OnSend(b, swaps))
  }

  lemma SendRoundTrip(b: seq<int>, swaps: Swaps)
    requires |b| % 2 == 0 && Bytes(b)
    ensures OnReceive(ToBytes(Send(b, swaps)), swaps) == b
  {
    WordsRoundTrip(OnSend(b, swaps));
    SwapsCancel(b, swaps);
  }

  function EncodeValue(v: Value, t: DataType, swaps: Swaps, f: FloatFormat): (words: seq<int>)
    requires Encodable(v, t) && FormatOk(f)
    ensures |words| == RegisterCount(t) && Words(words)
  {
    var n: nat := 2 * RegisterCount(t);
    if t.Bool? then [if Num(v) != 0.0 then 1 else 0]
    else if IsInteger(t) then
      SpanIsEven(n);
      Send(WriteInt(WireInt(v), n), swaps)
    else
      assert |f.encode(n, Num(v))| == n;
      Send(f.encode(n, Num(v)), swaps)
  }

  /** An integer in range reads back as itself, for every integer type and every combination of swaps. */
  lemma WireRoundTrip(v: Value, t: DataType, swaps: Swaps, f: FloatFormat)
    requires IsInteger(t) && Encodable(v, t) && FormatOk(f)
    ensures DecodeRegisters(EncodeValue(v, t, swaps, f), t, swaps, f) == IntValue(WireInt(v))
  {
    var n: nat := 2 * RegisterCount(t);
    SpanIsEven(n);
    SendRoundTrip(WriteInt(WireInt(v), n), swaps);
    IntRoundTrip(WireInt(v), n, IsSigned(t));
  }

  /** Neither rounding nor truncating leaves integer bounds. */
  lemma RoundWithin(x: real, lo: int, hi: int)
    requires lo as real <= x <= hi as real
    ensures lo <= Round(x) <= hi && lo <= Trunc(x) <= hi
  {}

  // The byte that a swap, if on, puts at position `k` of a value of `n` bytes.
  function BytePartner(k: nat, on: bool): nat {
    if !on then k else if k % 2 == 0 then k + 1 else k - 1
  }

  function WordPartner(k: nat, n: nat, on: bool): nat {
    if !on || n < 4 then k else if k % 4 < 2 then k + 2 else k - 2
  }

  function LongPartner(k: nat, n: nat, on: bool): nat {
    if !on || n != 8 then k else if k < 4 then k + 4 else k - 4
  }

  /** What each swap moves, alone and together: bytes within words, words within longs, longs. */
  lemma ReceivedBytes(b: seq<int>, swaps: Swaps, k: nat)
    requires (|b| == 2 || |b| == 4 || |b| == 8) && k < |b|
    ensures var k' := BytePartner(WordPartner(LongPartner(k, |b|, swaps.longSwap), |b|, swaps.wordSwap), swaps.byteSwap);
            k' < |b| && OnReceive(b, swaps)[k] == b[k']
  {
    var b1 := if swaps.byteSwap then SwapBytes(b) else b;
    var b2 := if swaps.wordSwap then SwapWords(b1) else b1;
    var k1 := LongPartner(k, |b|, swaps.longSwap);
    var k2 := WordPartner(k1, |b|, swaps.wordSwap);
    LongAt(b2, swaps.longSwap, k);
    WordAt(b1, swaps.wordSwap, k1);
    ByteAt(b, swaps.byteSwap, k2);
  }

  lemma LongAt(b: seq<int>, on: bool, k: nat)
    requires k < |b|
    ensures LongPartner(k, |b|, on) < |b| && (if on then SwapLongs(b) else b)[k] == b[LongPartner(k, |b|, on)]
  {}

  lemma WordAt(b: seq<int>, on: bool, k: nat)
    requires (|b| < 4 || |b| % 4 == 0) && k < |b|
    ensures WordPartner(k, |b|, on) < |b| && (if on then SwapWords(b) else b)[k] == b[WordPartner(k, |b|, on)]
  {
    if on && |b| >= 4 {
      SwapWordsAt(b, k);
    }
  }

  lemma ByteAt(b: seq<int>, on: bool, k: nat)
    requires |b| % 2 == 0 && k < |b|
    ensures BytePartner(k, on) < |b| && (if on then SwapBytes(b) else b)[k] == b[BytePartner(k, on)]
  {
    if on {
      SwapBytesAt(b, k);
    }
  }

  lemma {:induction false} SwapBytesAt(b: seq<int>, k: nat)
    requires |b| % 2 == 0 && k < |b|
    ensures BytePartner(k, true) < |b| && SwapBytes(b)[k] == b[BytePartner(k, true)]
  {
    if k >= 2 {
      SwapBytesAt(b[2..], k - 2);
    }
  }

  lemma {:induction false} SwapWordsAt(b: seq<int>, k: nat)
    requires |b| % 4 == 0 && k < |b|
    ensures WordPartner(k, |b|, true) < |b| && SwapWords(b)[k] == b[WordPartner(k, |b|, true)]
  {
    if k >= 4 {
      var tail := b[4..];
      SwapWordsAt(tail, k - 4);
      assert (k - 4) % 4 == k % 4;
      assert SwapWords(b) == [b[2], b[3], b[0], b[1]] + SwapWords(tail);
    }
  }

  const UNSWAPPED := Swaps(false, false, false)

  /** Without swaps registers and their bytes are big-endian, signed types in two's complement. */
  lemma WireOrder(a: int, b: int, c: int, d: int, f: FloatFormat)
    requires 0 <= a < 0x1_0000 && 0 <= b < 0x1_0000 && 0 <= c < 0x1_0000 && 0 <= d < 0x1_0000
    ensures DecodeRegisters([a], UInt16, UNSWAPPED, f) == IntValue(a)
    ensures DecodeRegisters([a], Int16, UNSWAPPED, f) == IntValue(if a >= 0x8000 then a - 0x1_0000 else a)
    ensures var v := 0x1_0000 * a + b;
            && DecodeRegisters([a, b], UInt32, UNSWAPPED, f) == IntValue(v)
            && DecodeRegisters([a, b], Int32, UNSWAPPED, f) == IntValue(if v >= 0x8000_0000 then v - 0x1_0000_0000 else v)
    ensures var v := 0x1_0000_0000_0000 * a + 0x1_0000_0000 * b + 0x1_0000 * c + d;
            && DecodeRegisters([a, b, c, d], UInt64, UNSWAPPED, f) == IntValue(v)
            && DecodeRegisters([a, b, c, d], Int64, UNSWAPPED, f)
               == IntValue(if v >= 0x8000_0000_0000_0000 then v - 0x1_0000_0000_0000_0000 else v)
    ensures DecodeRegisters([a], Bool, UNSWAPPED, f) == IntValue(if a != 0 then 1 else 0)
  {
    Spans();
    OneWord(a);
    TwoWords(a, b);
    FourWords(a, b, c, d);
  }

  lemma Spans()
    ensures Span(2) == 0x1_0000 && Span(4) == 0x1_0000_0000 && Span(8) == 0x1_0000_0000_0000_0000
  {
    assert Span(1) == 256;
    assert Span(3) == 256 * Span(2);
    assert Span(5) == 256 * Span(4);
    assert Span(6) == 256 * Span(5);
    assert Span(7) == 256 * Span(6);
  }

  lemma OneWord(a: int)
    ensures Unpack(ToBytes([a])) == a
  {
    Combine([], a);
    assert [] + [a] == [a];
  }

  lemma TwoWords(a: int, b: int)
    ensures Unpack(ToBytes([a, b])) == 0x1_0000 * a + b
  {
    OneWord(a);
    Combine([a], b);
    assert [a] + [b] == [a, b];
  }

  lemma FourWords(a: int, b: int, c: int, d: int)
    ensures Unpack(ToBytes([a, b, c, d])) == 0x1_0000_0000_0000 * a + 0x1_0000_0000 * b + 0x1_0000 * c + d
  {
    TwoWords(a, b);
    Combine([a, b], c);
    Combine([a, b, c], d);
    assert [a, b] + [c] == [a, b, c] && [a, b, c] + [d] == [a, b, c, d];
  }

  // One more word on the right.
  lemma Combine(words: seq<int>, w: int)
    ensures Unpack(ToBytes(words + [w])) == 0x1_0000 * Unpack(ToBytes(words)) + w
  {
    var b := ToBytes(words);
    AppendBytes(words, w);
    var longer := b + [w / 256, w % 256];
    assert longer[..|longer| - 1] == b + [w / 256];
    assert (b + [w / 256])[..|b|] == b;
  }

  lemma {:induction false} AppendBytes(words: seq<int>, w: int)
    ensures ToBytes(words + [w]) == ToBytes(words) + [w / 256, w % 256]
  {
    if words == [] {
      assert [w][1..] == [] && [] + [w] == [w];
    } else {
      AppendBytes(words[1..], w);
      assert (words + [w])[1..] == words[1..] + [w];
    }
  }

  /** Python's rounding goes to the nearest integer, and to the even one of two. */
  lemma RoundIsNearest(x: real)
    ensures -0.5 <= x - Round(x) as real <= 0.5
    ensures x - Round(x) as real == 0.5 || x - Round(x) as real == -0.5 ==> Round(x) % 2 == 0
  {}

  /** So a value goes on the wire as the integer nearest to it. */
  lemma WireIntIsNearest(v: Value)
    ensures -0.5 <= Num(v) - WireInt(v) as real <= 0.5
    ensures Num(v) - WireInt(v) as real == 0.5 || Num(v) - WireInt(v) as real == -0.5 ==> WireInt(v) % 2 == 0
  {
    if v.FloatValue? {
      RoundIsNearest(v.r);
    }
  }

  /** Its int() goes to the integer part, toward zero. */
  lemma TruncDropsFraction(x: real)
    ensures x >= 0.0 ==> Trunc(x) as real <= x < Trunc(x) as real + 1.0
    ensures x <= 0.0 ==> Trunc(x) as real - 1.0 < x <= Trunc(x) as real
  {}
}
