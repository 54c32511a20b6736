/**
 * The native unsigned integers the codec is written over: `u8` and `u32`,
 * their bitwise operators and shifts, stated on natural numbers.
 *
 * `&`, `|` and `!` are defined bit by bit (least-significant bit first), and
 * the lemmas below give them their meaning (one bit at a time) and the
 * arithmetic facts the codec relies on: masking with 0x7F keeps the low seven
 * bits, OR-ing disjoint bit ranges adds, testing 0x80 tests the high bit.
 */
module Bits {

  const U8Modulus: int := 0x100
  const U32Modulus: int := 0x1_0000_0000
  const U32Max: int := 0xFFFF_FFFF

  /** Rust's `u8`. */
  type U8 = x: int | 0 <= x < 0x100

  /** Rust's `u32`. */
  type U32 = x: int | 0 <= x < 0x1_0000_0000

  function Pow2(k: nat): (r: nat)
    ensures r >= 1
  {
    if k == 0 then 1 else 2 * Pow2(k - 1)
  }

  lemma {:induction false} Pow2Add(a: nat, b: nat)
    ensures Pow2(a + b) == Pow2(a) * Pow2(b)
  {
    if b > 0 {
      Pow2Add(a, b - 1);
      assert Pow2(a + b) == 2 * Pow2(a + b - 1);
    }
  }

  lemma {:induction false} Pow2Monotone(a: nat, b: nat)
    requires a <= b
    ensures Pow2(a) <= Pow2(b)
  {
    if a < b {
      Pow2Monotone(a, b - 1);
    }
  }

  /** The powers of two the codec meets: the group boundaries, 2^32 and 2^35. */
  lemma Pow2Table()
    ensures Pow2(7) == 0x80
    ensures Pow2(14) == 0x4000
    ensures Pow2(21) == 0x20_0000
    ensures Pow2(28) == 0x1000_0000
    ensures Pow2(32) == U32Modulus
    ensures Pow2(35) == 0x8_0000_0000
  {
    assert Pow2(4) == 0x10 by {
      assert Pow2(1) == 2;
      assert Pow2(2) == 4;
      assert Pow2(3) == 8;
    }
    assert Pow2(7) == 0x80 by {
      assert Pow2(5) == 0x20;
      assert Pow2(6) == 0x40;
    }
    Pow2Add(7, 7);
    Pow2Add(14, 7);
    Pow2Add(14, 14);
    Pow2Add(28, 4);
    Pow2Add(28, 7);
  }

  /** One more seven-bit group multiplies the range by 128. */
  lemma Pow2Group(n: nat)
    ensures Pow2(7 * (n + 1)) == 0x80 * Pow2(7 * n)
  {
    Pow2Add(7 * n, 7);
    Pow2Table();
  }

  /** Bit `k` of `x` is set. */
  predicate Bit(x: nat, k: nat)
  {
    if k == 0 then x % 2 == 1 else Bit(x / 2, k - 1)
  }

  /** Bitwise AND (`x & y`). */
  function And(x: nat, y: nat): (r: nat)
    ensures r <= x && r <= y
    decreases x
  {
    if x == 0 || y == 0 then 0
    else 2 * And(x / 2, y / 2) + (if x % 2 == 1 && y % 2 == 1 then 1 else 0)
  }

  /** Bitwise OR (`x | y`). */
  function Or(x: nat, y: nat): (r: nat)
    ensures x <= r && y <= r && r <= x + y
    decreases x + y
  {
    if x == 0 then y
    else if y == 0 then x
    else 2 * Or(x / 2, y / 2) + (if x % 2 == 1 || y % 2 == 1 then 1 else 0)
  }

  /** Bitwise NOT on a `w`-bit integer (`!x`). */
  function Not(x: nat, w: nat): (r: nat)
    ensures r < Pow2(w)
  {
    if w == 0 then 0 else 2 * Not(x / 2, w - 1) + (if x % 2 == 1 then 0 else 1)
  }

  /** `x << s` on `u32`: the bits shifted past bit 31 are dropped; a debug build panics when `s >= 32`. */
  function Shl32(x: U32, s: nat): (r: U32)
    requires s < 32
    ensures x * Pow2(s) < U32Modulus ==> r == x * Pow2(s)
  {
    (x * Pow2(s)) % U32Modulus
  }

  /** `x >> s` on an unsigned integer: `s` halvings. */
  function Shr(x: nat, s: nat): (r: nat)
    ensures r <= x
  {
    if s == 0 then x else Shr(x / 2, s - 1)
  }

  // ---------------------------------------------------------------------
  // Division by powers of two

  lemma SmallMultiple(a: int, d: int)
    requires d > 0 && -d < d * a < d
    ensures a == 0
  {
  }

  lemma DivModUnique(x: int, d: int, q: int, m: int)
    requires d > 0 && 0 <= m < d && x == d * q + m
    ensures x / d == q && x % d == m
  {
    var q', m' := x / d, x % d;
    assert d * (q - q') == m' - m;
    SmallMultiple(q - q', d);
  }

  /** Dividing by 2^(k+1) is halving and then dividing by 2^k. */
  lemma DivModHalf(x: nat, p: nat)
    requires p >= 1
    ensures x / (2 * p) == (x / 2) / p
    ensures x % (2 * p) == 2 * ((x / 2) % p) + x % 2
  {
    var h := x / 2;
    var q, m := h / p, h % p;
    assert h == p * q + m;
    assert x == (2 * p) * q + (2 * m + x % 2);
    DivModUnique(x, 2 * p, q, 2 * m + x % 2);
  }

  /** Shifting right by `s` is dividing by 2^s. */
  lemma {:induction false} ShrIsDiv(x: nat, s: nat)
    ensures Shr(x, s) == x / Pow2(s)
  {
    if s > 0 {
      ShrIsDiv(x / 2, s - 1);
      DivModHalf(x, Pow2(s - 1));
    }
  }

  /** The recursive `Bit` is the usual "divide by 2^k, look at the parity". */
  lemma {:induction false} BitIsDigit(x: nat, k: nat)
    ensures Bit(x, k) == ((x / Pow2(k)) % 2 == 1)
  {
    if k > 0 {
      BitIsDigit(x / 2, k - 1);
      DivModHalf(x, Pow2(k - 1));
    }
  }

  lemma {:induction false} BitOfZero(k: nat)
    ensures !Bit(0, k)
  {
    if k > 0 {
      BitOfZero(k - 1);
    }
  }

  // ---------------------------------------------------------------------
  // Bit-by-bit meaning of the operators

  lemma {:induction false} AndBit(x: nat, y: nat, k: nat)
    ensures Bit(And(x, y), k) == (Bit(x, k) && Bit(y, k))
    decreases x
  {
    if x == 0 || y == 0 {
      BitOfZero(k);
    } else if k > 0 {
      AndBit(x / 2, y / 2, k - 1);
    }
  }

  lemma {:induction false} OrBit(x: nat, y: nat, k: nat)
    ensures Bit(Or(x, y), k) == (Bit(x, k) || Bit(y, k))
    decreases x + y
  {
    if x == 0 {
      BitOfZero(k);
    } else if y == 0 {
      BitOfZero(k);
    } else if k > 0 {
      OrBit(x / 2, y / 2, k - 1);
    }
  }

  lemma {:induction false} NotBit(x: nat, w: nat, k: nat)
    requires k < w
    ensures Bit(Not(x, w), k) == !Bit(x, k)
  {
    if k > 0 {
      NotBit(x / 2, w - 1, k - 1);
    }
  }

  lemma AndBits(x: nat, y: nat)
    ensures forall k :: Bit(And(x, y), k) == (Bit(x, k) && Bit(y, k))
  {
    forall k {
      AndBit(x, y, k);
    }
  }

  lemma OrBits(x: nat, y: nat)
    ensures forall k :: Bit(Or(x, y), k) == (Bit(x, k) || Bit(y, k))
  {
    forall k {
      OrBit(x, y, k);
    }
  }

  lemma NotBits(x: nat, w: nat)
    ensures forall k :: 0 <= k < w ==> Bit(Not(x, w), k) == !Bit(x, k)
  {
    forall k | 0 <= k < w {
      NotBit(x, w, k);
    }
  }

  /** Two `w`-bit values with the same bits are equal. */
  lemma {:induction false} BitsDetermine(x: nat, y: nat, w: nat)
    requires x < Pow2(w) && y < Pow2(w)
    requires forall k :: 0 <= k < w ==> Bit(x, k) == Bit(y, k)
    ensures x == y
  {
    if w > 0 {
      forall k | 0 <= k < w - 1
        ensures Bit(x / 2, k) == Bit(y / 2, k)
      {
        assert Bit(x, k + 1) == Bit(y, k + 1);
      }
      BitsDetermine(x / 2, y / 2, w - 1);
      assert Bit(x, 0) == Bit(y, 0);
    }
  }

  /** `!x` on a `w`-bit value is `2^w - 1 - x`. */
  lemma {:induction false} NotValue(x: nat, w: nat)
    requires x < Pow2(w)
    ensures Not(x, w) == Pow2(w) - 1 - x
  {
    if w > 0 {
      NotValue(x / 2, w - 1);
    }
  }

  lemma {:induction false} AndSelf(x: nat)
    ensures And(x, x) == x
    decreases x
  {
    if x > 0 {
      AndSelf(x / 2);
    }
  }

  /** `x | y` stays within `w` bits when both operands do. */
  lemma {:induction false} OrBound(x: nat, y: nat, w: nat)
    requires x < Pow2(w) && y < Pow2(w)
    ensures Or(x, y) < Pow2(w)
    decreases x + y
  {
    if x != 0 && y != 0 {
      assert w > 0;
      OrBound(x / 2, y / 2, w - 1);
    }
  }

  // ---------------------------------------------------------------------
  // The facts the codec uses

  /** The zero mask clears everything. `m` is pinned by `requires` only so that callers' goals match this form. */
  lemma AndZeroMask(x: nat, m: nat)
    requires m == 0
    ensures And(x, m) == 0
  {
  }

  /** An odd mask `m = 2h + 1` takes bit 0 of `x` and masks `x / 2` with `h`.
    * `m` and `low` are parameters pinned by `requires` only so that the solver's goals match this form, which keeps the proofs using it cheap. */
  lemma AndOddMask(x: nat, h: nat, m: nat, low: nat)
    requires m == 2 * h + 1 && low == And(x / 2, h)
    ensures And(x, m) == 2 * low + x % 2
  {
    assert m / 2 == h && m % 2 == 1;
    if x == 0 {
      assert And(x / 2, h) == 0;
    }
  }

  /** The remainder by `q = 2p` is bit 0 and twice the remainder of `x / 2` by `p`.
    * `q` and `r` are parameters pinned by `requires` only so that the solver's goals match this form, which keeps the proofs using it cheap. */
  lemma ModHalf(x: nat, p: nat, q: nat, r: nat)
    requires p >= 1 && q == 2 * p && r == (x / 2) % p
    ensures x % q == 2 * r + x % 2
  {
    DivModHalf(x, p);
  }

  /** If masking `x / 2` with `h` is the remainder by `p`, masking `x` with `2h + 1` is the remainder by `2p`.
    * `m` and `q` are parameters pinned by `requires` only so that the solver's goals match this form, which keeps the proofs using it cheap. */
  lemma AndOddMaskMod(x: nat, h: nat, m: nat, p: nat, q: nat)
    requires m == 2 * h + 1 && p >= 1 && q == 2 * p
    requires And(x / 2, h) == (x / 2) % p
    ensures And(x, m) == x % q
  {
    var r := (x / 2) % p;
    AndOddMask(x, h, m, r);
    ModHalf(x, p, q, r);
  }

  /** Masking with `2^k - 1` keeps the low `k` bits: `x & 0x7F == x % 128`. */
  lemma {:induction false} AndLowMask(x: nat, k: nat)
    ensures And(x, Pow2(k) - 1) == x % Pow2(k)
    decreases k
  {
    if k == 0 {
      AndZeroMask(x, Pow2(k) - 1);
      DivModUnique(x, Pow2(k), x, 0);
    } else {
      AndLowMask(x / 2, k - 1);
      AndOddMaskMod(x, Pow2(k - 1) - 1, Pow2(k) - 1, Pow2(k - 1), Pow2(k));
    }
  }

  /** OR-ing a value below 2^k with a multiple of 2^k is addition. */
  lemma {:induction false} OrDisjoint(a: nat, b: nat, k: nat)
    requires a < Pow2(k) && b % Pow2(k) == 0
    ensures Or(a, b) == a + b
    decreases k
  {
    if a != 0 && b != 0 {
      assert k > 0;
      var p := Pow2(k - 1);
      DivModHalf(b, p);
      assert b % 2 == 0 && (b / 2) % p == 0;
      OrDisjoint(a / 2, b / 2, k - 1);
    }
  }

  /** `x & 2^k` is 2^k when bit k is set, 0 otherwise. */
  lemma {:induction false} AndPow2(x: nat, k: nat)
    ensures And(x, Pow2(k)) == if Bit(x, k) then Pow2(k) else 0
    decreases x
  {
    if x == 0 {
      BitOfZero(k);
    } else if k > 0 {
      AndPow2(x / 2, k - 1);
    }
  }

  /** For a byte, `b & 0x80 == 0` exactly when `b < 0x80`. */
  lemma HighBitClear(b: U8)
    ensures (And(b, 0x80) == 0) <==> b < 0x80
  {
    AndPow2(b, 7);
    BitIsDigit(b, 7);
    assert Pow2(7) == 0x80;
  }

  /** For a `u32`, `x & 0x7F` is its low seven bits, `x % 128`. */
  lemma LowSevenBits(x: nat)
    ensures And(x, 0x7F) == x % 0x80
  {
    AndLowMask(x, 7);
    assert Pow2(7) == 0x80;
  }
}
