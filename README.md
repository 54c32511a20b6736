# u7: a verified model of the 7-bit variable-length `u32`

This project models `u7`, the type defined in `src/uint7.rs` of the bit-7 crate. A `u7` is a `u32` that goes on the wire in the 7-bit ("base-128", unsigned LEB128) variable-length encoding. Each byte holds seven payload bits, least-significant group first. The high bit is a continuation flag: it is set on every byte but the last. A `u32` needs at most five bytes.

The model has two modules:

- `Bits` (`bits.dfy`) models the machine integers the source uses. `u8` and `u32` become integer subset types. `&`, `|` and `!` are defined bit by bit, and `<<` and `>>` by their arithmetic meaning. Lemmas give each operator its meaning on single bits, plus the arithmetic facts the codec relies on: `& 0x7F` keeps the low seven bits, `| 0x80` on a small value adds 0x80, OR over disjoint bit ranges is addition, and `& 0x80` tests the high bit.
- `Uint7` (`uint7.dfy`) covers the rest:
  - the value type `U7`, with `new`, the two `From` conversions, `eq` and the eight operators;
  - the class `U7Cell`, a mutable place whose methods are the compound assignments (`+=`, `&=`, ...) that update `self.0` in place;
  - the codec.

The codec is written twice:

- `Encode` and `Decode` are specification functions. `Decode` returns a `DecodeResult`: either the value and the byte count consumed, or the index at which `bytes[i]` would panic.
- `ToEncodedBytes` and `FromEncodedBytes` are the source's two loops, statement for statement. Their postconditions say they compute `Encode` and `Decode`.

Lemmas then relate `Encode` and `Decode`:

- the round trip, with arbitrary bytes after the encoding;
- decoding never reads past its frame;
- back-to-back decoding of two encodings;
- injectivity;
- the encoding's length and flag layout;
- the payload as a sum of weighted groups.

Semantics chosen for the model:

- `+`, `-` and `*` wrap modulo 2^32, as in a release build. Each operator's contract also gives the exact result when there is no overflow, which is what a debug build returns when it does not panic.
- `/` and `%` require a nonzero divisor. Rust panics there.
- The decoder's out-of-bounds read at `bytes[i]` becomes the result `IndexOutOfRange(i, len)`, with `i == len`.

How the decoder treats unusual input:

- The decoder is lenient about unterminated input. A buffer made only of bytes with the continuation flag set panics only when it is shorter than five bytes. With five or more such bytes, the shift reaches 35 after the fifth byte, the loop's exit test (src/uint7.rs:24) fires and a value is returned (`DecodeStopsAtFive`).
- Payload bits above bit 31 are dropped. The fifth byte's group is shifted left by 28 in a `u32` (src/uint7.rs:21), so only its low four bits survive (`DecodeDropsHighBits`). `Decode`'s contract states this in general: the value is the payload sum modulo 2^32.
- Over-long encodings are accepted, such as `[0x80, 0x00]` for zero (`DecodeOverlong`).

## Model

| member | source | states |
|---|---|---|
| Uint7.New | src/uint7.rs:10-12 | `u7::new` wraps its argument unchanged: reading the value back gives the argument |
| Uint7.FromU32 | src/uint7.rs:108-112 | `From<u32> for u7` wraps its argument unchanged: reading the value back gives the argument |
| Uint7.IntoU32 | src/uint7.rs:102-106 | `From<u7> for u32` returns the wrapped value, and wrapping that value again gives back the same `u7` |
| Bits.And | src/uint7.rs:204 | `x & y` on naturals; the result is at most each operand, and `AndBits` gives its meaning: bit k is set exactly when it is set in both operands |
| Bits.Or | src/uint7.rs:218 | `x \| y` on naturals; the result lies between the larger operand and the sum, and `OrBits` gives its meaning: bit k is set exactly when it is set in either operand (`OrDisjoint`: it is the sum when no bit is shared) |
| Bits.Not | src/uint7.rs:196 | `!x` on a w-bit word; the result is below 2^w, and `NotBits` and `NotValue` give its meaning: every bit below w is flipped, so for x below 2^w the result is 2^w - 1 - x |
| Bits.Shl32 | src/uint7.rs:21 | `x << s` on a `u32` is x * 2^s mod 2^32, exactly x * 2^s when that fits; requires s < 32, where a debug build panics |
| Bits.Shr | src/uint7.rs:40 | `x >> s` never exceeds x, and `ShrIsDiv` gives its meaning: it is x divided by 2^s, rounded down |
| Uint7.Conversions | src/uint7.rs:102-112 | `From<u32> for u7` and `From<u7> for u32` are mutually inverse, and `u7::new` is `From<u32>` |
| Uint7.Eq | src/uint7.rs:84-88 | `eq` holds exactly when the two values are equal, which is exactly when their inner `u32`s are equal |
| Uint7.Add | src/uint7.rs:114-120 | without overflow the result is the sum; on overflow it is the sum minus 2^32 |
| Uint7.Sub | src/uint7.rs:128-134 | without underflow the result is the difference; on underflow it is the difference plus 2^32 |
| Uint7.Mul | src/uint7.rs:142-148 | without overflow the result is the product; it always differs from the product by a multiple of 2^32 |
| Uint7.Wrap | src/uint7.rs:146 | reducing modulo 2^32 leaves an in-range value unchanged and otherwise subtracts a multiple of 2^32 |
| Uint7.Div | src/uint7.rs:156-162 | for a nonzero divisor, the result is the floor of the quotient: `q*b <= a < (q+1)*b` |
| Uint7.Rem | src/uint7.rs:170-176 | for a nonzero divisor, the result is below the divisor, and quotient times divisor plus remainder is the dividend |
| Uint7.Not | src/uint7.rs:192-198 | `!a` is `0xFFFF_FFFF - a`, and each of its 32 bits is the negation of the corresponding bit of `a` |
| Uint7.BitAnd | src/uint7.rs:200-206 | bit k of `a & b` is set iff bit k is set in both operands |
| Uint7.BitOr | src/uint7.rs:214-220 | bit k of `a OR b` is set iff bit k is set in either operand |
| Uint7.OperatorExamples | src/uint7.rs:233-238 | `new(0x80) + new(0x80)` is `eq` to `new(0x100)`; `u32::MAX + 1 == 0`; `0 - 1 == u32::MAX`; `!0 == u32::MAX` |
| Uint7.AddSubInverse | src/uint7.rs:114-134 | wrapping `-` undoes `+` and `+` undoes `-`, for all operands |
| Uint7.BitAndIdempotent | src/uint7.rs:200-206 | `x & x == x` for all `x` |
| Uint7.DeMorgan | src/uint7.rs:192-220 | `!(a & b) == (!a) OR (!b)` for all `a`, `b` |
| Uint7.NotInvolution | src/uint7.rs:192-198 | `!!x == x` for all `x` |
| Uint7.U7Cell.AddAssign | src/uint7.rs:122-126 | after `+=`, the cell holds the old value `+` the operand, and nothing else changes |
| Uint7.U7Cell.SubAssign | src/uint7.rs:136-140 | after `-=`, the cell holds the old value `-` the operand |
| Uint7.U7Cell.MulAssign | src/uint7.rs:150-154 | after `*=`, the cell holds the old value `*` the operand |
| Uint7.U7Cell.DivAssign | src/uint7.rs:164-168 | for a nonzero operand, after `/=` the cell holds the old value `/` the operand |
| Uint7.U7Cell.RemAssign | src/uint7.rs:178-182 | for a nonzero operand, after `%=` the cell holds the old value `%` the operand |
| Uint7.U7Cell.BitAndAssign | src/uint7.rs:208-212 | after `&=`, the cell holds the old value `&` the operand |
| Uint7.U7Cell.BitOrAssign | src/uint7.rs:222-226 | after the OR-assignment, the cell holds the old value OR-ed with the operand |
| Bits.AndBits | src/uint7.rs:204 | bitwise AND sets exactly the bits set in both operands |
| Bits.OrBits | src/uint7.rs:218 | bitwise OR sets exactly the bits set in either operand |
| Bits.NotValue | src/uint7.rs:196 | `!x` on a `w`-bit value is `2^w - 1 - x` |
| Bits.NotBits | src/uint7.rs:196 | `!x` flips each of the low `w` bits |
| Bits.BitsDetermine | src/uint7.rs:192-220 | two `w`-bit values with the same bits are equal |
| Bits.LowSevenBits | src/uint7.rs:21 | `x & 0x7F` is `x % 128`, the low seven-bit group |
| Bits.HighBitClear | src/uint7.rs:24 | for a byte, `b & 0x80 == 0` exactly when `b < 0x80`, i.e. the continuation flag is clear |
| Bits.OrDisjoint | src/uint7.rs:21 | OR-ing a value below 2^k with a multiple of 2^k is addition |
| Bits.ShrIsDiv | src/uint7.rs:40 | `x >> s` is `x / 2^s` |
| Uint7.PayloadSumBound | src/uint7.rs:21 | the payload of `n` bytes is below 2^(7n) |
| Uint7.PayloadSumSnoc | src/uint7.rs:21 | reading byte n adds its low seven bits at bit position 7n |
| Uint7.PayloadSumIsGroupSum | src/uint7.rs:21 | the payload equals the sum over k < n of `(b_k & 0x7F) * 2^(7k)` |
| Uint7.PayloadSumPrefix | src/uint7.rs:15-29 | bytes after the first `n` do not affect the payload of the first `n` |
| Uint7.EncodedLengthMinimal | src/uint7.rs:38-43 | the encoding has between 1 and 5 bytes, and exactly the least number of seven-bit groups that can hold the value |
| Uint7.Encode | src/uint7.rs:32-46 | the encoding's length is `EncodedLength(v)`, and a value below 0x80 encodes as the single byte `[v]` |
| Uint7.EncodeFlags | src/uint7.rs:38-43 | every byte of an encoding except the last has the continuation flag set; the last byte is below 0x80 |
| Uint7.EncodePayload | src/uint7.rs:38-43 | the encoding's payload groups add up to exactly the value |
| Uint7.EncodeExamples | src/uint7.rs:241-248 | `encode(0x80) == [0x80, 0x01]` and `encode(1) == [0x01]`; also `encode(0) == [0]`, `encode(0x7F) == [0x7F]`, and `u32::MAX` takes five bytes |
| Uint7.FirstTerminator | src/uint7.rs:24 | the index of the first byte without the flag is at most the input length |
| Uint7.FirstTerminatorSpec | src/uint7.rs:24 | every byte before `FirstTerminator(s)` has the flag, and the byte at it (if any) does not |
| Uint7.TerminatorAt | src/uint7.rs:24 | a byte without the flag that follows only flagged bytes is the first terminator |
| Uint7.FrameUnique | src/uint7.rs:15-29 | a byte sequence has at most one decode frame |
| Uint7.Decode | src/uint7.rs:15-29 | decoding panics (`IndexOutOfRange` at index = length) exactly when the input is truncated, i.e. shorter than five bytes and without a terminating byte; otherwise it consumes exactly one frame (up to and including the first byte without the flag, or five bytes), and the value is that frame's payload modulo 2^32 |
| Uint7.DecodeFrame | src/uint7.rs:15-29 | conversely, every frame decodes to its payload modulo 2^32, consuming the frame's length |
| Uint7.DecodeEncode | src/uint7.rs:15-46 | round trip: decoding `encode(v)` followed by any bytes yields `v` and consumes as many bytes as `encode(v)` has |
| Uint7.DecodePrefix | src/uint7.rs:15-29 | once a decode succeeds, appending bytes does not change its result |
| Uint7.DecodeStream | src/uint7.rs:15-46 | two encodings back to back decode one after the other, the second starting at the first's consumed count |
| Uint7.EncodeInjective | src/uint7.rs:32-46 | distinct values have distinct encodings |
| Uint7.DecodeOverlong | src/uint7.rs:15-29 | the over-long zero `[0x80, 0x00]` decodes to 0 and consumes 2 bytes |
| Uint7.DecodeDropsHighBits | src/uint7.rs:21-24 | `[0xFF, 0xFF, 0xFF, 0xFF, 0x7F]` decodes to `u32::MAX`: the payload bits above bit 31 are dropped |
| Uint7.DecodeStopsAtFive | src/uint7.rs:24 | five flagged bytes end the frame: the sixth byte is never read |
| Uint7.ContinuedByte | src/uint7.rs:39 | `(value & 0x7F) as u8` OR-ed with `0x80` is the low group plus the continuation flag |
| Uint7.ShrSeven | src/uint7.rs:40 | `value >> 7` drops the low group |
| Uint7.EncodeLoopStep | src/uint7.rs:38-41 | one iteration of the encoder loop keeps `bytes ++ Encode(value) == Encode(original)` |
| Uint7.EncodeLoopEnd | src/uint7.rs:43 | once the value is below 0x80, pushing it completes the encoding |
| Uint7.ToEncodedBytes | src/uint7.rs:32-46 | the loop returns exactly `Encode(self.0)` |
| Uint7.OrAddsGroup | src/uint7.rs:21 | OR-ing a group shifted to bit 7i of a `u32` onto the lower groups adds it modulo 2^32 |
| Uint7.GroupFits | src/uint7.rs:21 | for i < 5, the shifted group `c << 7i` is a multiple of 2^(7i), so adding it to the lower groups commutes with reduction modulo 2^32 |
| Uint7.AccumulateGroup | src/uint7.rs:20-21 | one decode step turns the payload of the first i bytes modulo 2^32 into that of the first i+1 bytes |
| Uint7.FromEncodedBytes | src/uint7.rs:15-29 | the loop returns exactly `Decode(bytes)`: the value and count, or the out-of-range panic on a truncated input |

## Left out

- The `speedy` impls (src/uint7.rs:49-82) are left out, because both depend on that external serializer library, which is not part of this model. `write_to` (src/uint7.rs:50-59) passes `to_encoded_bytes()` to the writer. `read_from` (src/uint7.rs:62-82) repeats `from_encoded_bytes`'s loop over bytes pulled one at a time from the reader. Where `from_encoded_bytes` panics, it returns the reader's error instead, and it returns no consumed count.
- `Debug` and `Display` (src/uint7.rs:90-100) are left out. They only format the inner value as decimal text.
- The commented-out `Neg` impl (src/uint7.rs:184-190) is not compiled code, so it is not modelled.
- `src/u7.rs`, the older near-duplicate of the type, is not part of this model.
- Debug-build overflow panics of `+`, `-`, `*`, `+=`, `-=` and `*=` are not modelled: the model wraps modulo 2^32. Each operator's contract states the exact result when no overflow happens, which is where the two builds agree.
- The model calls `<<` only with shift amounts 0, 7, 14, 21 and 28. So a debug build's panic on a shift of 32 or more is not reachable and is modelled only as `Shl32`'s precondition.
- Rust's panic on division or remainder by zero is not modelled as a value: `Uint7.Div`, `Uint7.Rem`, `Uint7.U7Cell.DivAssign` and `Uint7.U7Cell.RemAssign` require a nonzero divisor instead.
- Rust's panic on `bytes[i]` is modelled as the value `IndexOutOfRange(i, len)` rather than as unwinding.
- Machine integers are modelled as mathematical integers in range, not as bit-vectors. The bitwise operators are recursive functions on naturals, and their contracts speak of bits through the predicate `Bit`.
- `Uint7.U7Cell` stands for the `&mut self` place of the compound-assignment operators. Aliasing between the target and the operand cannot arise, because the operand is passed by value.
