/**
 * The `u7` type of `src/uint7.rs`: a `u32` that is written on the wire in the
 * 7-bit ("base-128", unsigned LEB128) variable-length encoding, at most five
 * bytes long.
 *
 * - the value type `U7` with construction, conversions, equality and the
 *   arithmetic and bitwise operators, all delegating to `u32`;
 * - `U7Cell`, a mutable place holding a `u7`, for the compound-assignment
 *   operators (`+=`, `-=`, ...) that update `self.0` in place;
 * - the codec: `ToEncodedBytes` and `FromEncodedBytes`, the loops of the
 *   source, proved against the specification functions `Encode` and `Decode`,
 *   and the lemmas that relate the two.
 *
 * `+`, `-` and `*` wrap around modulo 2^32 (the behaviour of a release build;
 * a debug build panics on overflow instead, and each operator's contract says
 * what the result is when no overflow happens).
 */
module Uint7 {
  import opened Bits

  // =====================================================================
  // The wrapper value type

  /** `u7(u32)`; `inner` is the tuple field `.0`. */
  datatype U7 = U7(inner: U32)

  /** `u7::new`: wraps any `u32`, no validation. */
  function New(value: U32): (r: U7)
    ensures IntoU32(r) == value
  {
    U7(value)
  }

  /** `From<u32> for u7`: wraps any `u32`, no validation. */
  function FromU32(value: U32): (r: U7)
    ensures IntoU32(r) == value
  {
    U7(value)
  }

  /** `From<u7> for u32`: the wrapped value `.0`. */
  function IntoU32(u: U7): (r: U32)
    ensures U7(r) == u
  {
    u.inner
  }

  /** The two conversions are mutually inverse, and `new` is `From<u32>`. */
  lemma Conversions(x: U32, u: U7)
    ensures IntoU32(FromU32(x)) == x
    ensures FromU32(IntoU32(u)) == u
    ensures New(x) == FromU32(x)
  {
  }

  /** `PartialEq::eq`: compares the inner values. */
  function Eq(a: U7, b: U7): (r: bool)
    ensures r <==> a == b
    ensures r <==> IntoU32(a) == IntoU32(b)
  {
    a.inner == b.inner
  }

  /** `Add`: `u32` addition, wrapping modulo 2^32. */
  function Add(a: U7, b: U7): (r: U7)
    ensures a.inner + b.inner < U32Modulus ==> r.inner == a.inner + b.inner
    ensures a.inner + b.inner >= U32Modulus ==> r.inner == a.inner + b.inner - U32Modulus
  {
    U7((a.inner + b.inner) % U32Modulus)
  }

  /** `Sub`: `u32` subtraction, wrapping modulo 2^32. */
  function Sub(a: U7, b: U7): (r: U7)
    ensures a.inner >= b.inner ==> r.inner == a.inner - b.inner
    ensures a.inner < b.inner ==> r.inner == a.inner - b.inner + U32Modulus
  {
    U7((a.inner - b.inner) % U32Modulus)
  }

  /** `Mul`: `u32` multiplication, wrapping modulo 2^32. */
  function Mul(a: U7, b: U7): (r: U7)
    ensures a.inner * b.inner < U32Modulus ==> r.inner == a.inner * b.inner
    ensures (a.inner * b.inner - r.inner) % U32Modulus == 0
  {
    var p := a.inner * b.inner;
    Wrap(p);
    U7(p % U32Modulus)
  }

  /** Reducing modulo 2^32 leaves an in-range value alone and otherwise subtracts a multiple of 2^32. */
  lemma Wrap(p: nat)
    ensures p < U32Modulus ==> p % U32Modulus == p
    ensures (p - p % U32Modulus) % U32Modulus == 0
  {
    DivModUnique(p - p % U32Modulus, U32Modulus, p / U32Modulus, 0);
    if p < U32Modulus {
      DivModUnique(p, U32Modulus, 0, p);
    }
  }

  /** `Div`: `u32` division, rounding down; Rust panics on a zero divisor. */
  function Div(a: U7, b: U7): (r: U7)
    requires b.inner != 0
    ensures r.inner * b.inner <= a.inner < (r.inner + 1) * b.inner
  {
    var q := a.inner / b.inner;
    assert a.inner == b.inner * q + a.inner % b.inner;
    assert (q + 1) * b.inner == q * b.inner + b.inner;
    U7(q)
  }

  /** `Rem`: `u32` remainder; Rust panics on a zero divisor. */
  function Rem(a: U7, b: U7): (r: U7)
    requires b.inner != 0
    ensures r.inner < b.inner
    ensures Div(a, b).inner * b.inner + r.inner == a.inner
  {
    var m := a.inner % b.inner;
    assert a.inner == b.inner * (a.inner / b.inner) + m;
    U7(m)
  }

  /** `Not`: flips all 32 bits. */
  function Not(a: U7): (r: U7)
    ensures r.inner == U32Max - a.inner
    ensures forall k :: 0 <= k < 32 ==> Bit(r.inner, k) == !Bit(a.inner, k)
  {
    Pow2Table();
    NotValue(a.inner, 32);
    NotBits(a.inner, 32);
    U7(Bits.Not(a.inner, 32))
  }

  /** `BitAnd`: bit k of the result is set iff it is set in both operands. */
  function BitAnd(a: U7, b: U7): (r: U7)
    ensures forall k :: Bit(r.inner, k) == (Bit(a.inner, k) && Bit(b.inner, k))
  {
    AndBits(a.inner, b.inner);
    U7(And(a.inner, b.inner))
  }

  /** `BitOr`: bit k of the result is set iff it is set in either operand. */
  function BitOr(a: U7, b: U7): (r: U7)
    ensures forall k :: Bit(r.inner, k) == (Bit(a.inner, k) || Bit(b.inner, k))
  {
    Pow2Table();
    OrBound(a.inner, b.inner, 32);
    OrBits(a.inner, b.inner);
    U7(Or(a.inner, b.inner))
  }

  /** The source's test of `+` and the wrap-around and `!` boundary cases. */
  lemma OperatorExamples()
    ensures Eq(Add(New(0x80), New(0x80)), New(0x100))
    ensures Add(New(0x80), New(0x80)) == New(0x100)
    ensures Add(New(0xFFFF_FFFF), New(1)) == New(0)
    ensures Sub(New(0), New(1)) == New(0xFFFF_FFFF)
    ensures Not(New(0)) == New(0xFFFF_FFFF)
  {
  }

  /** `-` undoes `+`, and `+` undoes `-`, however either wraps. */
  lemma AddSubInverse(a: U7, b: U7)
    ensures Sub(Add(a, b), b) == a
    ensures Add(Sub(a, b), b) == a
  {
  }

  /** `x & x == x`. */
  lemma {:induction false} BitAndIdempotent(x: U7)
    ensures BitAnd(x, x) == x
  {
    AndSelf(x.inner);
  }

  /** De Morgan: `!(a & b) == !a | !b`. */
  lemma DeMorgan(a: U7, b: U7)
    ensures Not(BitAnd(a, b)) == BitOr(Not(a), Not(b))
  {
    var l := Not(BitAnd(a, b)).inner;
    var r := BitOr(Not(a), Not(b)).inner;
    Pow2Table();
    BitsDetermine(l, r, 32);
  }

  /** `!!x == x`. */
  lemma NotInvolution(x: U7)
    ensures Not(Not(x)) == x
  {
  }

  // =====================================================================
  // Compound assignment

  /** A mutable place holding a `u7`: the `&mut self` of the `*Assign` operators. */
  class U7Cell {
    var inner: U32

    constructor (init: U7)
      ensures Get() == init
    {
      inner := init.inner;
    }

    /** The `u7` currently held. */
    function Get(): (r: U7)
      reads this
    {
      U7(inner)
    }

    /** `self.0 += rhs.0` */
    method AddAssign(rhs: U7)
      modifies this
      ensures Get() == Add(old(Get()), rhs)
    {
      inner := (inner + rhs.inner) % U32Modulus;
    }

    /** `self.0 -= rhs.0` */
    method SubAssign(rhs: U7)
      modifies this
      ensures Get() == Sub(old(Get()), rhs)
    {
      inner := (inner - rhs.inner) % U32Modulus;
    }

    /** `self.0 *= rhs.0` */
    method MulAssign(rhs: U7)
      modifies this
      ensures Get() == Mul(old(Get()), rhs)
    {
      inner := (inner * rhs.inner) % U32Modulus;
    }

    /** `self.0 /= rhs.0` */
    method DivAssign(rhs: U7)
      requires rhs.inner != 0
      modifies this
      ensures Get() == Div(old(Get()), rhs)
    {
      inner := inner / rhs.inner;
    }

    /** `self.0 %= rhs.0` */
    method RemAssign(rhs: U7)
      requires rhs.inner != 0
      modifies this
      ensures Get() == Rem(old(Get()), rhs)
    {
      inner := inner % rhs.inner;
    }

    /** `self.0 &= rhs.0` */
    method BitAndAssign(rhs: U7)
      modifies this
      ensures Get() == BitAnd(old(Get()), rhs)
    {
      inner := And(inner, rhs.inner);
    }

    /** `self.0 |= rhs.0` */
    method BitOrAssign(rhs: U7)
      modifies this
      ensures Get() == BitOr(old(Get()), rhs)
    {
      Pow2Table();
      OrBound(inner, rhs.inner, 32);
      inner := Or(inner, rhs.inner);
    }
  }

  // =====================================================================
  // The wire format

  /** The most bytes one value occupies: ceil(32 / 7). */
  const MaxEncodedLength: nat := 5

  /** The continuation flag: high bit set means another byte follows. */
  predicate HasContinuation(b: U8)
  {
    b >= 0x80
  }

  /**
   * The payload of the first `n` bytes of `s`: byte k contributes its low
   * seven bits at bit position 7k, least-significant group first.
   */
  function PayloadSum(s: seq<U8>, n: nat): (r: nat)
    requires n <= |s|
  {
    if n == 0 then 0 else s[0] % 0x80 + 0x80 * PayloadSum(s[1..], n - 1)
  }

  /** `n` groups of seven bits hold less than 2^(7n). */
  lemma {:induction false} PayloadSumBound(s: seq<U8>, n: nat)
    requires n <= |s|
    ensures PayloadSum(s, n) < Pow2(7 * n)
  {
    if n > 0 {
      PayloadSumBound(s[1..], n - 1);
      Pow2Group(n - 1);
    }
  }

  /** Reading byte n adds its payload at bit 7n. */
  lemma {:induction false} PayloadSumSnoc(s: seq<U8>, n: nat)
    requires n < |s|
    ensures PayloadSum(s, n + 1) == PayloadSum(s, n) + (s[n] % 0x80) * Pow2(7 * n)
  {
    if n > 0 {
      var t := s[1..];
      assert t[n - 1] == s[n];
      PayloadSumSnoc(t, n - 1);
      Pow2Group(n - 1);
      ShiftGroup(s[0] % 0x80, PayloadSum(t, n - 1), PayloadSum(t, n), s[n] % 0x80, Pow2(7 * (n - 1)), Pow2(7 * n));
    } else {
      assert Pow2(0) == 1;
    }
  }

  lemma ShiftGroup(low: int, shorter: int, longer: int, c: int, p: int, q: int)
    requires longer == shorter + c * p && q == 0x80 * p
    ensures low + 0x80 * longer == (low + 0x80 * shorter) + c * q
  {
    assert c * q == 0x80 * (c * p);
  }

  /** The payload written as a sum: the low seven bits of byte k weighted by 2^(7k), for k < n. */
  function GroupSum(s: seq<U8>, n: nat): (r: nat)
    requires n <= |s|
  {
    if n == 0 then 0 else GroupSum(s, n - 1) + (s[n - 1] % 0x80) * Pow2(7 * (n - 1))
  }

  /** The nested form and the sum form of the payload agree. */
  lemma {:induction false} PayloadSumIsGroupSum(s: seq<U8>, n: nat)
    requires n <= |s|
    ensures PayloadSum(s, n) == GroupSum(s, n)
  {
    if n > 0 {
      PayloadSumIsGroupSum(s, n - 1);
      PayloadSumSnoc(s, n - 1);
    }
  }

  /** Bytes after the first `n` do not change their payload. */
  lemma {:induction false} PayloadSumPrefix(s: seq<U8>, rest: seq<U8>, n: nat)
    requires n <= |s|
    ensures PayloadSum(s + rest, n) == PayloadSum(s, n)
  {
    if n > 0 {
      assert (s + rest)[1..] == s[1..] + rest;
      PayloadSumPrefix(s[1..], rest, n - 1);
    }
  }

  /** The number of bytes `v` takes: one per started group of seven bits. */
  function EncodedLength(v: U32): (n: nat)
  {
    if v < 0x80 then 1
    else if v < 0x4000 then 2
    else if v < 0x20_0000 then 3
    else if v < 0x1000_0000 then 4
    else 5
  }

  /** `EncodedLength(v)` is the least number of seven-bit groups that hold `v`, at most five. */
  lemma EncodedLengthMinimal(v: U32)
    ensures 1 <= EncodedLength(v) <= MaxEncodedLength
    ensures v < Pow2(7 * EncodedLength(v))
    ensures EncodedLength(v) > 1 ==> Pow2(7 * (EncodedLength(v) - 1)) <= v
  {
    Pow2Table();
  }

  /**
   * The minimal encoding of `v`: seven payload bits per byte, least-significant
   * group first, the continuation flag on every byte but the last.
   */
  function Encode(v: U32): (r: seq<U8>)
    ensures |r| == EncodedLength(v)
    ensures v < 0x80 ==> r == [v]
    decreases v
  {
    if v < 0x80 then [v] else [v % 0x80 + 0x80] + Encode(v / 0x80)
  }

  /** Every byte of an encoding but the last has the continuation flag; the last does not. */
  lemma {:induction false} EncodeFlags(v: U32)
    ensures forall k :: 0 <= k < |Encode(v)| - 1 ==> HasContinuation(Encode(v)[k])
    ensures !HasContinuation(Encode(v)[|Encode(v)| - 1])
    decreases v
  {
    if v >= 0x80 {
      var e := Encode(v);
      EncodeFlags(v / 0x80);
      assert e[1..] == Encode(v / 0x80);
      forall k | 1 <= k < |e| - 1
        ensures HasContinuation(e[k])
      {
        assert e[k] == e[1..][k - 1];
      }
    }
  }

  /** The encoding carries exactly `v` in its payload bits. */
  lemma {:induction false} EncodePayload(v: U32)
    ensures PayloadSum(Encode(v), |Encode(v)|) == v
    decreases v
  {
    if v >= 0x80 {
      EncodePayload(v / 0x80);
      assert Encode(v)[1..] == Encode(v / 0x80);
    }
  }

  /** `Encode(0x80) == [0x80, 0x01]` and `Encode(1) == [0x01]`, as the source's test has it. */
  lemma EncodeExamples()
    ensures Encode(0x80) == [0x80, 0x01]
    ensures Encode(1) == [0x01]
    ensures Encode(0) == [0x00]
    ensures Encode(0x7F) == [0x7F]
    ensures |Encode(0xFFFF_FFFF)| == 5
  {
    assert Encode(0x80) == [0x80] + Encode(1);
  }

  /** The index of the first byte whose continuation flag is clear (`|s|` if none). */
  function FirstTerminator(s: seq<U8>): (j: nat)
    ensures j <= |s|
  {
    if s == [] || !HasContinuation(s[0]) then 0 else 1 + FirstTerminator(s[1..])
  }

  /** The bytes before `FirstTerminator(s)` all carry the flag, and the byte there does not. */
  lemma {:induction false} FirstTerminatorSpec(s: seq<U8>)
    ensures FirstTerminator(s) < |s| ==> !HasContinuation(s[FirstTerminator(s)])
    ensures forall k :: 0 <= k < FirstTerminator(s) ==> HasContinuation(s[k])
  {
    if s != [] && HasContinuation(s[0]) {
      FirstTerminatorSpec(s[1..]);
      forall k | 1 <= k < FirstTerminator(s)
        ensures HasContinuation(s[k])
      {
        assert s[k] == s[1..][k - 1];
      }
    }
  }

  /** A clear byte preceded only by flagged bytes is the first terminator. */
  lemma {:induction false} TerminatorAt(s: seq<U8>, j: nat)
    requires j < |s| && !HasContinuation(s[j])
    requires forall k :: 0 <= k < j ==> HasContinuation(s[k])
    ensures FirstTerminator(s) == j
  {
    if j > 0 {
      forall k | 0 <= k < j - 1
        ensures HasContinuation(s[1..][k])
      {
        assert s[1..][k] == s[k + 1];
      }
      TerminatorAt(s[1..], j - 1);
    }
  }

  /**
   * The first `n` bytes of `s` are what one decode reads: every byte but the
   * n-th carries the continuation flag, and the n-th does not, unless five
   * bytes have been read.
   */
  predicate IsFrame(s: seq<U8>, n: nat)
  {
    1 <= n <= MaxEncodedLength && n <= |s| &&
    (forall k :: 0 <= k < n - 1 ==> HasContinuation(s[k])) &&
    (n < MaxEncodedLength ==> !HasContinuation(s[n - 1]))
  }

  /** The input ends before a terminating byte and before the five-byte cap. */
  predicate Truncated(s: seq<U8>)
  {
    |s| < MaxEncodedLength && forall k :: 0 <= k < |s| ==> HasContinuation(s[k])
  }

  /** A byte sequence has at most one frame. */
  lemma FrameUnique(s: seq<U8>, n: nat, m: nat)
    requires IsFrame(s, n) && IsFrame(s, m)
    ensures n == m
  {
  }

  /** What `from_encoded_bytes` returns: a value and the bytes consumed, or the out-of-range index it panics at. */
  datatype DecodeResult =
    | Decoded(value: U7, consumed: nat)
    | IndexOutOfRange(index: nat, len: nat)

  /**
   * Decoding: read the frame, add up its payload groups and keep the low 32
   * bits (payload bits of the fifth byte above bit 31 are dropped).
   */
  function Decode(s: seq<U8>): (r: DecodeResult)
    ensures r.IndexOutOfRange? <==> Truncated(s)
    ensures r.IndexOutOfRange? ==> r.index == |s| && r.len == |s|
    ensures r.Decoded? ==> IsFrame(s, r.consumed)
    ensures r.Decoded? ==> r.value.inner == PayloadSum(s, r.consumed) % U32Modulus
  {
    FirstTerminatorSpec(s);
    var j := FirstTerminator(s);
    var n := if j < MaxEncodedLength then j + 1 else MaxEncodedLength;
    if n > |s| then IndexOutOfRange(|s|, |s|)
    else Decoded(U7(PayloadSum(s, n) % U32Modulus), n)
  }

  /** Round trip: decoding an encoding, whatever follows it, yields the value and the encoding's length. */
  lemma DecodeEncode(v: U32, rest: seq<U8>)
    ensures Decode(Encode(v) + rest) == Decoded(U7(v), |Encode(v)|)
  {
    var e := Encode(v);
    var s := e + rest;
    var n := |e|;
    assert IsFrame(s, n) by {
      EncodeFlags(v);
      assert s[n - 1] == e[n - 1];
      forall k | 0 <= k < n - 1
        ensures HasContinuation(s[k])
      {
        assert s[k] == e[k];
      }
    }
    assert PayloadSum(s, n) % U32Modulus == v by {
      PayloadSumPrefix(e, rest, n);
      EncodePayload(v);
    }
    DecodeFrame(s, n);
  }

  /** The decoder never looks past its frame: appending bytes changes nothing. */
  lemma DecodePrefix(s: seq<U8>, rest: seq<U8>)
    requires Decode(s).Decoded?
    ensures Decode(s + rest) == Decode(s)
  {
    var n := Decode(s).consumed;
    var t := s + rest;
    assert forall k :: 0 <= k < n ==> t[k] == s[k];
    if n < MaxEncodedLength {
      TerminatorAt(t, n - 1);
    } else {
      assert forall k :: 0 <= k < MaxEncodedLength - 1 ==> HasContinuation(t[k]);
    }
    PayloadSumPrefix(s, rest, n);
  }

  /** Two encodings back to back decode one after the other, resuming at the consumed count. */
  lemma DecodeStream(a: U32, b: U32, rest: seq<U8>)
    ensures Decode(Encode(a) + Encode(b) + rest) == Decoded(U7(a), |Encode(a)|)
    ensures (Encode(a) + Encode(b) + rest)[|Encode(a)|..] == Encode(b) + rest
    ensures Decode(Encode(b) + rest) == Decoded(U7(b), |Encode(b)|)
  {
    var ea, tail := Encode(a), Encode(b) + rest;
    assert Encode(a) + Encode(b) + rest == ea + tail;
    assert (ea + tail)[|ea|..] == tail;
    DecodeEncode(a, tail);
    DecodeEncode(b, rest);
  }

  /** Distinct values have distinct encodings. */
  lemma EncodeInjective(a: U32, b: U32)
    requires Encode(a) == Encode(b)
    ensures a == b
  {
    DecodeEncode(a, []);
    DecodeEncode(b, []);
    assert Encode(a) + [] == Encode(a) && Encode(b) + [] == Encode(b);
  }

  /** The decoder does not insist on minimal input: an over-long zero is accepted. */
  lemma DecodeOverlong()
    ensures Decode([0x80, 0x00]) == Decoded(U7(0), 2)
  {
    var s: seq<U8> := [0x80, 0x00];
    assert IsFrame(s, 2);
    DecodeFrame(s, 2);
  }

  /** Payload bits of the fifth byte above bit 31 are dropped. */
  lemma DecodeDropsHighBits()
    ensures Decode([0xFF, 0xFF, 0xFF, 0xFF, 0x7F]) == Decoded(U7(0xFFFF_FFFF), 5)
  {
    var s: seq<U8> := [0xFF, 0xFF, 0xFF, 0xFF, 0x7F];
    assert IsFrame(s, 5);
    DecodeFrame(s, 5);
    assert PayloadSum(s, 5) == 0x7_FFFF_FFFF;
  }

  /** The fifth byte ends the frame even with its continuation flag set; a sixth is never read. */
  lemma DecodeStopsAtFive()
    ensures Decode([0x80, 0x80, 0x80, 0x80, 0x80, 0x01]) == Decoded(U7(0), 5)
  {
    var s: seq<U8> := [0x80, 0x80, 0x80, 0x80, 0x80, 0x01];
    assert IsFrame(s, 5);
    DecodeFrame(s, 5);
    assert PayloadSum(s, 5) == 0;
  }

  // =====================================================================
  // The codec as the source runs it

  /** `(value & 0x7F) as u8 | 0x80` is the low group with the continuation flag. */
  lemma ContinuedByte(value: U32)
    ensures Or(And(value, 0x7F) % U8Modulus, 0x80) == value % 0x80 + 0x80
  {
    var low := And(value, 0x7F);
    LowSevenBits(value);
    assert low % U8Modulus == low;
    assert Pow2(7) == 0x80 by {
      Pow2Table();
    }
    OrDisjoint(low, Pow2(7), 7);
  }

  /** `value >> 7` drops the low group. */
  lemma ShrSeven(value: U32)
    ensures Shr(value, 7) == value / 0x80
  {
    ShrIsDiv(value, 7);
    assert Pow2(7) == 0x80;
  }

  /** The encoder loop's invariant survives one iteration ... */
  lemma EncodeLoopStep(bytes: seq<U8>, value: U32, whole: seq<U8>)
    requires value >= 0x80 && bytes + Encode(value) == whole
    ensures (bytes + [value % 0x80 + 0x80]) + Encode(value / 0x80) == whole
  {
    assert Encode(value) == [value % 0x80 + 0x80] + Encode(value / 0x80);
  }

  /** ... and, once the value is below 0x80, the last byte completes the encoding. */
  lemma EncodeLoopEnd(bytes: seq<U8>, value: U32, whole: seq<U8>)
    requires value < 0x80 && bytes + Encode(value) == whole
    ensures bytes + [value] == whole
  {
  }

  /** `to_encoded_bytes`: push low groups with the flag set while the value is 0x80 or more. */
  method ToEncodedBytes(u: U7) returns (bytes: seq<U8>)
    ensures bytes == Encode(u.inner)
  {
    var value: U32 := u.inner;
    bytes := [];
    while value >= 0x80
      invariant bytes + Encode(value) == Encode(u.inner)
      decreases value
    {
      ContinuedByte(value);
      ShrSeven(value);
      EncodeLoopStep(bytes, value, Encode(u.inner));
      bytes := bytes + [Or(And(value, 0x7F) % U8Modulus, 0x80)];   // (value & 0x7F) as u8 | 0x80
      value := Shr(value, 7);                                      // value >>= 7
    }
    EncodeLoopEnd(bytes, value, Encode(u.inner));
    bytes := bytes + [value % U8Modulus];                          // value as u8
  }

  /** Below bit 28 the shifted group fits: no bit is lost and it lands above `low`. */
  lemma LowGroup(low: nat, c: nat, p: nat)
    requires p <= 0x20_0000 && low < p && c < 0x80
    ensures (c * p) % U32Modulus == c * p
    ensures (c * p) % p == 0
    ensures (low + c * p) % U32Modulus == low + c * p
  {
    assert c * p < 0x80 * p;
    DivModUnique(c * p, p, c, 0);
  }

  /** The fifth group lands at bit 28: only its low four bits survive `<< 28` on a `u32`. */
  lemma TopGroup(low: nat, c: nat)
    requires low < 0x1000_0000 && c < 0x80
    ensures (c * 0x1000_0000) % U32Modulus == (c % 0x10) * 0x1000_0000
    ensures ((c * 0x1000_0000) % U32Modulus) % 0x1000_0000 == 0
    ensures (low + c * 0x1000_0000) % U32Modulus == low + (c * 0x1000_0000) % U32Modulus
  {
    var q, m := c / 0x10, c % 0x10;
    assert c * 0x1000_0000 == U32Modulus * q + m * 0x1000_0000;
    DivModUnique(c * 0x1000_0000, U32Modulus, q, m * 0x1000_0000);
    DivModUnique(m * 0x1000_0000, 0x1000_0000, m, 0);
    DivModUnique(low + c * 0x1000_0000, U32Modulus, q, low + m * 0x1000_0000);
  }

  /** Group `i < 5`, shifted into a `u32`, sits above the groups before it: OR is addition mod 2^32.
    * `p` and `cp` are parameters pinned by `requires` only so that the solver's goals match this form, which keeps the proofs using it cheap. */
  lemma GroupFits(low: nat, c: nat, p: nat, cp: nat, i: nat)
    requires i < MaxEncodedLength && p == Pow2(7 * i) && low < p && c < 0x80 && cp == c * p
    ensures low % U32Modulus == low
    ensures (cp % U32Modulus) % p == 0
    ensures (low + cp) % U32Modulus == low + cp % U32Modulus
  {
    Pow2Table();
    if i < 4 {
      Pow2Monotone(7 * i, 21);
      LowGroup(low, c, p);
    } else {
      TopGroup(low, c);
    }
  }

  /** OR-ing group `c`, shifted to bit 7i of a `u32`, onto the groups below it adds it modulo 2^32. */
  lemma OrAddsGroup(value: U32, sum: nat, c: nat, i: nat, next: nat)
    requires i < MaxEncodedLength && c < 0x80
    requires sum < Pow2(7 * i) && value == sum % U32Modulus
    requires next == sum + c * Pow2(7 * i)
    ensures Or(value, Shl32(c, 7 * i)) == next % U32Modulus
  {
    var p := Pow2(7 * i);
    var cp := c * p;
    var g := cp % U32Modulus;
    assert Shl32(c, 7 * i) == g;
    GroupFits(sum, c, p, cp, i);
    assert value == sum;
    OrDisjoint(value, g, 7 * i);
    assert Or(value, g) == sum + g;
  }

  /** One step of the decode loop: `value |= ((byte & 0x7F) as u32) << shift` adds group i. */
  lemma AccumulateGroup(s: seq<U8>, i: nat, value: U32)
    requires i < MaxEncodedLength && i < |s| && value == PayloadSum(s, i) % U32Modulus
    ensures Or(value, Shl32(And(s[i], 0x7F), 7 * i)) == PayloadSum(s, i + 1) % U32Modulus
  {
    LowSevenBits(s[i]);
    PayloadSumSnoc(s, i);
    PayloadSumBound(s, i);
    OrAddsGroup(value, PayloadSum(s, i), s[i] % 0x80, i, PayloadSum(s, i + 1));
  }

  /** Every frame decodes to its payload: the converse of `Decode`'s contract. */
  lemma DecodeFrame(s: seq<U8>, n: nat)
    requires IsFrame(s, n)
    ensures Decode(s) == Decoded(U7(PayloadSum(s, n) % U32Modulus), n)
  {
    assert !Truncated(s) by {
      if n < MaxEncodedLength {
        assert !HasContinuation(s[n - 1]);
      }
    }
    FrameUnique(s, n, Decode(s).consumed);
  }

  /** `from_encoded_bytes`: read until a byte without the flag, or until the shift reaches 32. */
  method FromEncodedBytes(bytes: seq<U8>) returns (r: DecodeResult)
    ensures r == Decode(bytes)
  {
    var value: U32 := 0;
    var shift: nat := 0;
    var i: nat := 0;
    while true
      invariant i < MaxEncodedLength && i <= |bytes| && shift == 7 * i
      invariant forall k :: 0 <= k < i ==> HasContinuation(bytes[k])
      invariant value == PayloadSum(bytes, i) % U32Modulus
      decreases MaxEncodedLength - i
    {
      if i >= |bytes| {
        // `bytes[i]` panics: index out of bounds
        assert Truncated(bytes);
        return IndexOutOfRange(i, |bytes|);
      }
      var byte := bytes[i];
      AccumulateGroup(bytes, i, value);
      value := Or(value, Shl32(And(byte, 0x7F), shift));
      shift := shift + 7;
      i := i + 1;
      HighBitClear(byte);
      if And(byte, 0x80) == 0 || shift >= 32 {
        break;
      }
    }
    DecodeFrame(bytes, i);
    r := Decoded(U7(value), i);
  }
}
