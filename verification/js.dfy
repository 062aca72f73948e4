/** The JavaScript number semantics the TypeScript calculators rely on.

    Bitwise operators convert their operands to 32-bit integers (ToInt32 or,
    for `>>>`, ToUint32), take shift counts modulo 32 and produce a signed
    32-bit result, except `>>>`, whose result is unsigned.  Every other
    operator works on exact integers here.  That is exact while values stay
    below 2^53; the range page converts parts it never bounds, and a part of
    2^53 or more, which `Number` would round, is read here at its exact value.
 */
module Js {
  import opened Bits
  import opened Decimal
  import opened Results
  import opened Address

  const TWO_31: int := 0x8000_0000

  /** ToUint32: the low 32 bits as an unsigned value. */
  function ToUint32(x: int): u32 {
    x % TWO_32
  }

  /** ToInt32: the low 32 bits read as a two's-complement value. */
  function ToInt32(x: int): int {
    var u := ToUint32(x);
    if u < TWO_31 then u else u - TWO_32
  }

  /** ToUint32 keeps a value's residue modulo 2^32, and ToInt32 keeps its bit
      pattern within the signed 32-bit range. */
  lemma Conversions(x: int)
    ensures (x - ToUint32(x)) % TWO_32 == 0
    ensures -TWO_31 <= ToInt32(x) < TWO_31
    ensures ToUint32(ToInt32(x)) == ToUint32(x)
  {
    var u := ToUint32(x);
    MultipleMod(x / TWO_32, TWO_32);
    if u >= TWO_31 {
      DivModUnique(u - TWO_32, TWO_32, -1, u);
    } else {
      DivModUnique(u, TWO_32, 0, u);
    }
  }

  /** A bit pattern below 2^31 reads as itself; one above reads 2^32 less. */
  lemma ToInt32OfPattern(p: u32)
    ensures ToInt32(p) == if p < TWO_31 then p else p - TWO_32
  {
    DivModUnique(p, TWO_32, 0, p);
  }

  /** A bit pattern is unchanged by ToUint32, and reading it as a signed
      value and back gives it again. */
  lemma Pattern(p: u32)
    ensures ToUint32(p) == p && ToUint32(ToInt32(p)) == p
  {
    Conversions(p);
    DivModUnique(p, TWO_32, 0, p);
  }

  /** `a & b`. */
  function BitAnd(a: int, b: int): int {
    ToInt32(And(ToUint32(a), ToUint32(b)))
  }

  /** `a | b`. */
  function BitOr(a: int, b: int): int {
    ToInt32(Or(ToUint32(a), ToUint32(b)))
  }

  /** `~a`. */
  function BitNot(a: int): int {
    ToInt32(Not32(ToUint32(a)))
  }

  /** `a << k`: the count is taken modulo 32. */
  function ShiftLeft(a: int, k: int): int {
    ToInt32(Shl32(ToUint32(a), ToUint32(k) % 32))
  }

  /** `a >>> k`: the count is taken modulo 32 and the result is unsigned. */
  function ShiftRightUnsigned(a: int, k: int): u32 {
    var u: nat := ToUint32(a);
    var d := Pow2(ToUint32(k) % 32);
    QuotientAtMost(u, d);
    u / d
  }

  lemma QuotientAtMost(x: nat, d: nat)
    requires d >= 1
    ensures 0 <= x / d <= x
  {
    var q := x / d;
    if q >= 1 {
      MulAtLeast(q, d);
      assert x == d * q + x % d;
    }
  }

  /** The bit pattern of each operator's result is the 32-bit operation on the
      operands' patterns. */
  lemma BitAndPattern(a: int, b: int)
    ensures ToUint32(BitAnd(a, b)) == And(ToUint32(a), ToUint32(b))
  {
    Pattern(And(ToUint32(a), ToUint32(b)));
  }

  lemma BitOrPattern(a: int, b: int)
    ensures ToUint32(BitOr(a, b)) == Or(ToUint32(a), ToUint32(b))
  {
    Pow2Values();
    OrBound(ToUint32(a), ToUint32(b), 32);
    Pattern(Or(ToUint32(a), ToUint32(b)));
  }

  lemma BitNotPattern(a: int)
    ensures ToUint32(BitNot(a)) == Not32(ToUint32(a))
  {
    Pattern(Not32(ToUint32(a)));
  }

  lemma ShiftLeftPattern(a: int, k: int)
    ensures ToUint32(ShiftLeft(a, k)) == Shl32(ToUint32(a), ToUint32(k) % 32)
  {
    Pattern(Shl32(ToUint32(a), ToUint32(k) % 32));
  }

  /** Shifting a bit pattern by a count below 32. */
  lemma ShiftLeftOf(a: u32, k: nat)
    requires k < 32
    ensures ToUint32(ShiftLeft(a, k)) == Shl32(a, k)
  {
    Pattern(a);
    Pattern(k);
    DivModUnique(k, 32, 0, k);
    ShiftLeftPattern(a, k);
  }

  /** `v & 255` is the low octet of `v`'s bit pattern, whatever its sign. */
  lemma LowOctetOfAnd(v: int)
    ensures BitAnd(v, 255) == ToUint32(v) % 256
  {
    Pow2Values();
    var u := ToUint32(v);
    Pattern(255);
    AndLowMask(u, 8);
    DivModUnique(u % 256, TWO_32, 0, u % 256);
  }

  /** `Number(s)` or `parseInt(s, 10)` used as a bitwise operand: decimal
      digits stand for their value; anything else is NaN or empty, and
      both convert to 0. */
  function NumberOperand(s: string): (n: nat)
    ensures ParseNat(s).Some? ==> n == ParseNat(s).value
    ensures ParseNat(s).None? ==> n == 0
  {
    match ParseNat(s)
    case Some(v) => v
    case None => 0
  }

  /** The `i`-th element of an array as a bitwise operand: a missing element
      is `undefined`, which converts to 0. */
  function ElementOperand(xs: seq<nat>, i: nat): (n: nat)
    ensures i < |xs| ==> n == xs[i]
    ensures i >= |xs| ==> n == 0
  {
    if i < |xs| then xs[i] else 0
  }

  /** `[(ip >> 24) & 255, (ip >> 16) & 255, (ip >> 8) & 255, ip & 255]` for a
      signed 32-bit `ip`: `>>` is an arithmetic shift, that is, division
      rounding toward minus infinity, which is Dafny's `/` for a positive
      divisor; `& 255` keeps the low eight bits, Dafny's `% 256`. */
  function SignedOctets(ip: int): (o: seq<Octet>) {
    [(ip / 16777216) % 256, (ip / 65536) % 256, (ip / 256) % 256, ip % 256]
  }

  /** The octets of a signed value are those of its 32-bit pattern. */
  lemma SignedOctetsOfPattern(ip: int)
    ensures SignedOctets(ip) == OctetsOf(ToUint32(ip))
  {
    var u := ToUint32(ip);
    var q := ip / TWO_32;
    assert ip == u + TWO_32 * q;
    ShiftedOctet(ip, u, q, 16777216, 256);
    ShiftedOctet(ip, u, q, 65536, 65536);
    ShiftedOctet(ip, u, q, 256, 16777216);
    ShiftedOctet(ip, u, q, 1, TWO_32);
  }

  /** Adding a multiple of 2^32 does not change an octet. */
  lemma ShiftedOctet(ip: int, u: int, q: int, d: nat, e: nat)
    requires d > 0 && d * e == TWO_32 && e % 256 == 0
    requires ip == u + TWO_32 * q && 0 <= u
    ensures (ip / d) % 256 == (u / d) % 256
  {
    var a, r := u / d, u % d;
    assert ip == d * (a + e * q) + r;
    DivModUnique(ip, d, a + e * q, r);
    var e' := e / 256;
    assert e == 256 * e';
    assert a + e * q == a + 256 * (e' * q);
    var b, s := a / 256, a % 256;
    DivModUnique(a + 256 * (e' * q), 256, b + e' * q, s);
  }
}
