/** Unsigned 32-bit values and the bit operations the calculators use.

    A value is a natural below 2^32.  `And` and `Or` are defined bit by bit
    on naturals, so `x & m` and `x | m` in the source are modelled literally;
    the lemmas here turn the shapes that occur (a netmask, a host mask, octets
    in disjoint bit ranges) into arithmetic.
 */
module Bits {

  const TWO_32: nat := 0x1_0000_0000

  type u32 = x: int | 0 <= x < TWO_32

  function Pow2(n: nat): (r: nat)
    ensures r >= 1
  {
    if n == 0 then 1 else 2 * Pow2(n - 1)
  }

  lemma Pow2Values()
    ensures Pow2(8) == 256 && Pow2(16) == 65536 && Pow2(24) == 16777216
    ensures Pow2(31) == 0x8000_0000 && Pow2(32) == TWO_32
  {
  }

  lemma {:induction false} Pow2Add(a: nat, b: nat)
    ensures Pow2(a + b) == Pow2(a) * Pow2(b)
  {
    if a > 0 {
      Pow2Add(a - 1, b);
      assert Pow2(a + b) == 2 * Pow2(a - 1 + b);
    }
  }

  lemma {:induction false} Pow2Monotone(a: nat, b: nat)
    requires a <= b
    ensures Pow2(a) <= Pow2(b)
    decreases b
  {
    if a < b {
      Pow2Monotone(a, b - 1);
    }
  }

  /** A larger power of two is a multiple of a smaller one. */
  lemma Pow2Divides(a: nat, b: nat)
    requires a <= b
    ensures Pow2(a) <= Pow2(b)
    ensures Pow2(b) % Pow2(a) == 0
    ensures Pow2(b) / Pow2(a) == Pow2(b - a)
  {
    var p, q := Pow2(a), Pow2(b - a);
    Pow2Add(b - a, a);
    assert Pow2(b) == q * p;
    MulAtLeast(p, q);
    DivModUnique(Pow2(b), p, q, 0);
  }

  lemma {:induction false} Pow2Injective(a: nat, b: nat)
    requires Pow2(a) == Pow2(b)
    ensures a == b
  {
    if a < b {
      Pow2Monotone(a + 1, b);
    } else if b < a {
      Pow2Monotone(b + 1, a);
    }
  }

  /** Quotient and remainder are determined by `x == d * q + r, 0 <= r < d`. */
  lemma DivModUnique(x: int, d: int, q: int, r: int)
    requires d > 0 && 0 <= r < d && x == d * q + r
    ensures x / d == q && x % d == r
  {
    var q', r' := x / d, x % d;
    assert d * q + r == d * q' + r';
    if q > q' {
      assert d * (q - q') == d * q - d * q';
      MulAtLeast(d, q - q');
    } else if q < q' {
      assert d * (q' - q) == d * q' - d * q;
      MulAtLeast(d, q' - q);
    }
  }

  lemma MulAtLeast(d: int, k: int)
    requires d > 0 && k >= 1
    ensures d * k >= d
  {
    assert d * k == d * (k - 1) + d;
  }

  lemma MulSign(d: int, k: int)
    requires d > 0
    ensures k >= 1 ==> d * k >= d
    ensures k <= 0 ==> d * k <= 0
  {
    if k >= 1 {
      MulAtLeast(d, k);
    } else {
      assert d * k == -(d * -k);
    }
  }

  /** An aligned block that starts below a multiple of its size ends by it. */
  lemma AlignedEnd(start: nat, size: nat, limit: nat)
    requires size > 0 && start % size == 0 && limit % size == 0 && start < limit
    ensures start + size <= limit
  {
    var a, b := start / size, limit / size;
    assert limit - start == size * (b - a);
    MulSign(size, b - a);
  }

  /** Multiples of a block size are the values with no remainder. */
  lemma MultipleMod(k: int, d: int)
    requires d > 0
    ensures (k * d) % d == 0 && (k * d) / d == k
  {
    DivModUnique(k * d, d, k, 0);
  }

  /** A value with no remainder is its quotient times the divisor. */
  lemma QuotientTimes(x: nat, d: nat)
    requires d > 0 && x % d == 0
    ensures x == (x / d) * d
  {
  }

  /** Peeling the lowest bit off a remainder modulo a power of two. */
  lemma ModSplit(y: nat, n: nat)
    requires n >= 1
    ensures y % Pow2(n) == 2 * ((y / 2) % Pow2(n - 1)) + y % 2
    ensures y / Pow2(n) == (y / 2) / Pow2(n - 1)
  {
    var p := Pow2(n - 1);
    var q, r := (y / 2) / p, (y / 2) % p;
    assert y / 2 == p * q + r;
    assert y == (2 * p) * q + (2 * r + y % 2);
    DivModUnique(y, 2 * p, q, 2 * r + y % 2);
  }

  /** Rounding down to a multiple of `d`. */
  function RoundDown(x: nat, d: nat): (r: nat)
    requires d > 0
    ensures r <= x < r + d
    ensures r % d == 0
  {
    MultipleMod(x / d, d);
    x - x % d
  }

  /** A multiple of `d` rounds down to itself, and `x` rounds down to the same
      multiple as every value up to the next multiple. */
  lemma RoundDownOf(x: nat, d: nat, m: nat)
    requires d > 0 && m % d == 0 && m <= x < m + d
    ensures RoundDown(x, d) == m
  {
    DivModUnique(x, d, m / d, x - m);
  }

  // ---------------------------------------------------------------------
  // Bitwise operations on naturals

  function And(a: nat, b: nat): (r: nat)
    ensures r <= a && r <= b
  {
    if a == 0 || b == 0 then 0
    else 2 * And(a / 2, b / 2) + (if a % 2 == 1 && b % 2 == 1 then 1 else 0)
  }

  function Or(a: nat, b: nat): (r: nat)
    ensures a <= r && b <= r
    decreases a + b
  {
    if a == 0 then b
    else if b == 0 then a
    else 2 * Or(a / 2, b / 2) + (if a % 2 == 1 || b % 2 == 1 then 1 else 0)
  }

  /** The unsigned 32-bit complement: Rust `!x` on `u32`, JavaScript `~x >>> 0`. */
  function Not32(x: u32): u32 {
    TWO_32 - 1 - x
  }

  /** Left shift keeping the low 32 bits: Rust `<<` on `u32`, and JavaScript
      `<<` read as a bit pattern. */
  function Shl32(x: nat, k: nat): u32 {
    (x * Pow2(k)) % TWO_32
  }

  /** Shifting all ones left by `h` leaves the top `32 - h` bits set. */
  lemma ShlAllOnes(h: nat)
    requires h < 32
    ensures Shl32(TWO_32 - 1, h) == HighMask(32, h)
  {
    Pow2Values();
    Pow2Divides(h, 32);
    var p := Pow2(h);
    assert (TWO_32 - 1) * p == TWO_32 * (p - 1) + (TWO_32 - p);
    DivModUnique((TWO_32 - 1) * p, TWO_32, p - 1, TWO_32 - p);
  }

  /** Bit `k` of `x`. */
  function Bit(x: nat, k: nat): bool {
    if k == 0 then x % 2 == 1 else Bit(x / 2, k - 1)
  }

  lemma AndStep(a: nat, b: nat)
    ensures And(a, b) == 2 * And(a / 2, b / 2) + (if a % 2 == 1 && b % 2 == 1 then 1 else 0)
  {
    if a == 0 || b == 0 {
      assert And(a / 2, b / 2) == 0;
    }
  }

  lemma OrStep(a: nat, b: nat)
    ensures Or(a, b) == 2 * Or(a / 2, b / 2) + (if a % 2 == 1 || b % 2 == 1 then 1 else 0)
  {
    if a == 0 {
      OrZero(b / 2);
    } else if b == 0 {
      OrZero(a / 2);
    }
  }

  lemma OrZero(a: nat)
    ensures Or(0, a) == a && Or(a, 0) == a
  {
  }

  /** Masking with `2^n - 1` keeps the low `n` bits. */
  lemma {:induction false} AndLowMask(y: nat, n: nat)
    ensures And(y, Pow2(n) - 1) == y % Pow2(n)
  {
    if n == 0 {
      assert Pow2(n) == 1 && And(y, 0) == 0 && y % 1 == 0;
    } else {
      AndLowMask(y / 2, n - 1);
      AndLowMaskStep(y, n, Pow2(n - 1), Pow2(n));
    }
  }

  /** One step of `AndLowMask`: the low `n` bits from the low `n - 1` bits
      of the half. */
  lemma AndLowMaskStep(y: nat, n: nat, p: nat, q: nat)
    requires n >= 1 && p == Pow2(n - 1) && q == Pow2(n)
    requires And(y / 2, p - 1) == (y / 2) % p
    ensures And(y, q - 1) == y % q
  {
    ModSplit(y, n);
    AndOddMask(y, q - 1, p);
    SameDoubling(And(y, q - 1), And(y / 2, p - 1), (y / 2) % p, y % q, y % 2);
  }

  /** Two values made the same way from equal halves are equal. */
  lemma SameDoubling(a: int, b: int, c: int, d: int, e: int)
    requires a == 2 * b + e && b == c && d == 2 * c + e
    ensures a == d
  {
  }

  /** One bit of a mask whose lowest bit is set. */
  lemma AndOddMask(y: nat, m: nat, p: nat)
    requires p >= 1 && m == 2 * (p - 1) + 1
    ensures And(y, m) == 2 * And(y / 2, p - 1) + y % 2
  {
    assert m / 2 == p - 1 && m % 2 == 1;
    AndStep(y, m);
  }

  /** The bits from `h` up to `n - 1`: `2^n - 2^h`. */
  function HighMask(n: nat, h: nat): (m: nat)
    requires h <= n
    ensures m + Pow2(h) == Pow2(n)
  {
    Pow2Divides(h, n);
    Pow2(n) - Pow2(h)
  }

  /** Masking an `n`-bit value with the top bits `2^n - 2^h` clears the low
      `h` bits, that is, rounds down to a multiple of `2^h`. */
  lemma {:induction false} AndHighMask(x: nat, n: nat, h: nat)
    requires h <= n && x < Pow2(n)
    ensures And(x, HighMask(n, h)) == x - x % Pow2(h)
    decreases h
  {
    if h == 0 {
      AndLowMask(x, n);
      DivModUnique(x, Pow2(n), 0, x);
    } else if h == n {
      DivModUnique(x, Pow2(h), 0, x);
    } else {
      var m := HighMask(n, h);
      assert m / 2 == HighMask(n - 1, h - 1) && m % 2 == 0;
      AndStep(x, m);
      AndHighMask(x / 2, n - 1, h - 1);
      ModSplit(x, h);
    }
  }

  /** Or-ing a value into bits that are zero is addition. */
  lemma {:induction false} OrShifted(a: nat, c: nat, k: nat)
    requires c < Pow2(k)
    ensures Or(a * Pow2(k), c) == a * Pow2(k) + c
  {
    if k == 0 {
      OrZero(a);
    } else {
      var p := Pow2(k - 1);
      assert a * Pow2(k) == 2 * (a * p);
      OrStep(a * Pow2(k), c);
      OrShifted(a, c / 2, k - 1);
    }
  }

  lemma MulPow2(a: nat, k: nat)
    requires k > 0
    ensures a * Pow2(k) == 2 * (a * Pow2(k - 1))
  {
    var p := Pow2(k - 1);
    assert a * (2 * p) == 2 * (a * p);
  }

  /** Shifting both operands by the same amount shifts their or. */
  lemma {:induction false} OrScaled(a: nat, b: nat, k: nat)
    ensures Or(a * Pow2(k), b * Pow2(k)) == Or(a, b) * Pow2(k)
  {
    if k > 0 {
      MulPow2(a, k);
      MulPow2(b, k);
      MulPow2(Or(a, b), k);
      OrDouble(a * Pow2(k - 1), b * Pow2(k - 1));
      OrScaled(a, b, k - 1);
    }
  }

  lemma OrDouble(x: nat, y: nat)
    ensures Or(2 * x, 2 * y) == 2 * Or(x, y)
  {
    assert (2 * x) / 2 == x && (2 * x) % 2 == 0 && (2 * y) / 2 == y && (2 * y) % 2 == 0;
    OrStep(2 * x, 2 * y);
  }

  /** Or-ing a value with itself changes nothing. */
  lemma {:induction false} OrSelf(x: nat)
    ensures Or(x, x) == x
    decreases x
  {
    if x > 0 {
      OrStep(x, x);
      OrSelf(x / 2);
    }
  }

  /** Or of two `n`-bit values is an `n`-bit value. */
  lemma {:induction false} OrBound(a: nat, b: nat, n: nat)
    requires a < Pow2(n) && b < Pow2(n)
    ensures Or(a, b) < Pow2(n)
  {
    if n > 0 {
      OrStep(a, b);
      OrBound(a / 2, b / 2, n - 1);
    }
  }

  lemma {:induction false} BitOfZero(k: nat)
    ensures !Bit(0, k)
  {
    if k > 0 {
      BitOfZero(k - 1);
    }
  }

  /** `2^n - 1` has exactly the bits below `n` set. */
  lemma {:induction false} BitsOfLowMask(n: nat, k: nat)
    ensures Bit(Pow2(n) - 1, k) <==> k < n
  {
    if k > 0 {
      if n == 0 {
        BitOfZero(k - 1);
      } else {
        assert (Pow2(n) - 1) / 2 == Pow2(n - 1) - 1;
        BitsOfLowMask(n - 1, k - 1);
      }
    }
  }

  /** `2^n - 2^h` has exactly the bits from `h` up to `n - 1` set. */
  lemma {:induction false} BitsOfHighMask(n: nat, h: nat, k: nat)
    requires h <= n
    ensures Bit(HighMask(n, h), k) <==> h <= k < n
  {
    if h == 0 {
      BitsOfLowMask(n, k);
    } else {
      var m := HighMask(n, h);
      assert m / 2 == HighMask(n - 1, h - 1) && m % 2 == 0;
      if k > 0 {
        BitsOfHighMask(n - 1, h - 1, k - 1);
      }
    }
  }
}
