/** The dotted-quad codec shared by every calculator.

    An address is packed from four octets as `a << 24 | b << 16 | c << 8 | d`
    and written back as `(x >> 24) & 255 . (x >> 16) & 255 . (x >> 8) & 255 .
    x & 255`.  The Rust backend repeats this inline in each command and the
    TypeScript calculator has its own twin; all of them are this module.
 */
module Address {
  import opened Results
  import opened Bits
  import opened Decimal
  import opened Text

  type Octet = x: nat | x < 256

  /** The four octets of an address, most significant first. */
  type Quad = o: seq<Octet> | |o| == 4 witness [0, 0, 0, 0]

  /** Rust `str::parse::<u32>`: decimal text whose value fits in 32 bits. */
  function ParseU32(s: string): (r: Option<u32>)
    ensures r.Some? <==> ParseNat(s).Some? && ParseNat(s).value < TWO_32
    ensures r.Some? ==> r.value == ParseNat(s).value
  {
    match ParseNat(s)
    case Some(v) => if v < TWO_32 then Some(v) else None
    case None => None
  }

  /** `(a << 24) | (b << 16) | (c << 8) | d` on 32-bit patterns.  The Rust
      backend only packs octets; the TypeScript range calculator packs whatever
      numbers it read, so the operands are not restricted here. */
  function Pack(a: nat, b: nat, c: nat, d: nat): u32 {
    Pow2Values();
    var ab := Or(Shl32(a, 24), Shl32(b, 16));
    OrBound(Shl32(a, 24), Shl32(b, 16), 32);
    var abc := Or(ab, Shl32(c, 8));
    OrBound(ab, Shl32(c, 8), 32);
    OrBound(abc, d % TWO_32, 32);
    Or(abc, d % TWO_32)
  }

  /** The address whose base-256 digits are `o`. */
  function ValueOf4(o: seq<nat>): nat
    requires |o| == 4
  {
    o[0] * 16777216 + o[1] * 65536 + o[2] * 256 + o[3]
  }

  /** For octets the or-ed shifts occupy disjoint bits, so packing is the
      base-256 value. */
  lemma PackOctets(a: Octet, b: Octet, c: Octet, d: Octet)
    ensures Pack(a, b, c, d) == ValueOf4([a, b, c, d])
  {
    Pow2Values();
    MultipleMod(a, 16777216);
    assert Shl32(a, 24) == a * 16777216 by {
      DivModUnique(a * 16777216, TWO_32, 0, a * 16777216);
    }
    assert Shl32(b, 16) == b * 65536 by {
      DivModUnique(b * 65536, TWO_32, 0, b * 65536);
    }
    assert Shl32(c, 8) == c * 256 by {
      DivModUnique(c * 256, TWO_32, 0, c * 256);
    }
    DivModUnique(d, TWO_32, 0, d);
    var x1: int := a * 256 + b;
    OrShifted(a, b, 8);
    assert a * 16777216 == (a * 256) * Pow2(16) && b * 65536 == b * Pow2(16);
    OrScaled(a * 256, b, 16);
    var ab := Or(Shl32(a, 24), Shl32(b, 16));
    assert ab == x1 * 65536;
    var x2: int := x1 * 256 + c;
    OrShifted(x1, c, 8);
    assert ab == (x1 * 256) * Pow2(8) && c * 256 == c * Pow2(8);
    OrScaled(x1 * 256, c, 8);
    var abc := Or(ab, Shl32(c, 8));
    assert abc == x2 * 256;
    OrShifted(x2, d, 8);
  }

  /** `v & 255`: the low eight bits, that is, the remainder modulo 256
      (`LowByteIsAnd`). */
  function LowByte(v: nat): (o: Octet) {
    v % 256
  }

  lemma LowByteIsAnd(v: nat)
    ensures LowByte(v) == And(v, 255)
  {
    Pow2Values();
    AndLowMask(v, 8);
  }

  /** `(x >> 24) & 255`, `(x >> 16) & 255`, `(x >> 8) & 255`, `x & 255`: the
      four octets of an address, most significant first.  A right shift of an
      unsigned value by `k` is division by `2^k`. */
  function OctetsOf(x: u32): (o: seq<Octet>)
    ensures |o| == 4
    ensures ValueOf4(o) == x
  {
    var o := [LowByte(x / 16777216), LowByte(x / 65536), LowByte(x / 256), LowByte(x)];
    OctetsOfValue(x);
    o
  }

  lemma OctetsOfValue(x: u32)
    ensures ValueOf4([(x / 16777216) % 256, (x / 65536) % 256, (x / 256) % 256, x % 256]) == x
  {
    var a, r1 := x / 16777216, x % 16777216;
    var b, r2 := r1 / 65536, r1 % 65536;
    var c, d := r2 / 256, r2 % 256;
    assert x == 16777216 * a + 65536 * b + 256 * c + d;
    DivModUnique(x, 65536, 256 * a + b, 256 * c + d);
    DivModUnique(x / 65536, 256, a, b);
    DivModUnique(x, 256, 65536 * a + 256 * b + c, d);
    DivModUnique(x / 256, 256, 256 * a + b, c);
    DivModUnique(a, 256, 0, a);
  }

  /** Unpacking what was packed from octets returns the octets. */
  lemma OctetsOfPack(a: Octet, b: Octet, c: Octet, d: Octet)
    ensures OctetsOf(Pack(a, b, c, d)) == [a, b, c, d]
  {
    PackOctets(a, b, c, d);
    var x := Pack(a, b, c, d);
    var o := OctetsOf(x);
    OctetsDetermineValue(o, [a, b, c, d]);
  }

  /** Two octet quadruples with the same value are equal. */
  lemma OctetsDetermineValue(o: seq<Octet>, p: seq<Octet>)
    requires |o| == 4 && |p| == 4 && ValueOf4(o) == ValueOf4(p)
    ensures o == p
  {
    var v: int := ValueOf4(o);
    var o0: int, o1: int, o2: int, o3: int := o[0], o[1], o[2], o[3];
    var p0: int, p1: int, p2: int, p3: int := p[0], p[1], p[2], p[3];
    DivModUnique(v, 256, o0 * 65536 + o1 * 256 + o2, o3);
    DivModUnique(v, 256, p0 * 65536 + p1 * 256 + p2, p3);
    var w := v / 256;
    DivModUnique(w, 256, o0 * 256 + o1, o2);
    DivModUnique(w, 256, p0 * 256 + p1, p2);
    var z := w / 256;
    DivModUnique(z, 256, o0, o1);
    DivModUnique(z, 256, p0, p1);
  }

  /** Packing the octets of an address returns the address. */
  lemma PackOctetsOf(x: u32)
    ensures var o := OctetsOf(x); Pack(o[0], o[1], o[2], o[3]) == x
  {
    var o := OctetsOf(x);
    PackOctets(o[0], o[1], o[2], o[3]);
    assert [o[0], o[1], o[2], o[3]] == o;
  }

  // ---------------------------------------------------------------------
  // Text

  /** Four numbers joined with dots, each in decimal. */
  function FormatOctets(o: seq<nat>): string
    requires |o| == 4
  {
    Join([ToDecimal(o[0]), ToDecimal(o[1]), ToDecimal(o[2]), ToDecimal(o[3])], '.')
  }

  /** An address as dotted-quad text. */
  function Format(x: u32): string {
    FormatOctets(OctetsOf(x))
  }

  /** Each address of a list, given by its octets, as text. */
  function Texts(os: seq<Quad>): (ts: seq<string>)
    ensures |ts| == |os|
    ensures forall i :: 0 <= i < |os| ==> ts[i] == FormatOctets(os[i])
  {
    if |os| == 0 then [] else [FormatOctets(os[0])] + Texts(os[1..])
  }

  /** One part of a Rust-parsed address: `part.parse::<u32>()`, then the
      0..=255 check; `emptyIsZero` is `calculate_ips`' extra rule that an empty
      part stands for 0. */
  function ParseOctet(part: string, emptyIsZero: bool): (r: Result<Octet>)
    ensures part == "" ==> r == if emptyIsZero then Ok(0) else Err(OctetUnreadable)
    ensures part != "" ==> (r.Ok? <==> ParseNat(part).Some? && ParseNat(part).value <= 255)
    ensures r.Ok? && part != "" ==> r.value == ParseNat(part).value
    ensures r == Err(OctetOutOfRange) <==> ParseNat(part).Some? && 255 < ParseNat(part).value < TWO_32
    ensures r.Err? ==> r.error == OctetUnreadable || r.error == OctetOutOfRange
  {
    if emptyIsZero && part == "" then Ok(0)
    else
      match ParseU32(part)
      case None => Err(OctetUnreadable)
      case Some(v) => if v > 255 then Err(OctetOutOfRange) else Ok(v)
  }

  predicate PartAccepted(part: string, emptyIsZero: bool) {
    (emptyIsZero && part == "") || (ParseNat(part).Some? && ParseNat(part).value <= 255)
  }

  /** The parts in order; the first refused part decides the error. */
  function ParseOctets(parts: seq<string>, emptyIsZero: bool): (r: Result<seq<Octet>>)
    ensures r.Ok? <==> forall i :: 0 <= i < |parts| ==> PartAccepted(parts[i], emptyIsZero)
    ensures r.Ok? ==> |r.value| == |parts|
    ensures r.Ok? ==> forall i :: 0 <= i < |parts| ==> Ok(r.value[i]) == ParseOctet(parts[i], emptyIsZero)
    ensures r.Err? ==> exists i :: (0 <= i < |parts| && ParseOctet(parts[i], emptyIsZero) == Err(r.error)
      && forall j :: 0 <= j < i ==> PartAccepted(parts[j], emptyIsZero))
  {
    if |parts| == 0 then Ok([])
    else
      var first :- ParseOctet(parts[0], emptyIsZero);
      var rest :- ParseOctets(parts[1..], emptyIsZero);
      Ok([first] + rest)
  }

  /** The backend's inline address parse: split on '.', exactly four parts,
      each accepted by `ParseOctet`. */
  function ParseAddress(text: string, emptyIsZero: bool): (r: Result<seq<Octet>>)
    ensures |Split(text, '.')| != 4 <==> r == Err(WrongPartCount)
    ensures r.Ok? <==> (|Split(text, '.')| == 4
      && forall i :: 0 <= i < 4 ==> PartAccepted(Split(text, '.')[i], emptyIsZero))
    ensures r.Ok? ==> |r.value| == 4
    ensures r.Ok? ==> forall i :: 0 <= i < 4 ==> Ok(r.value[i]) == ParseOctet(Split(text, '.')[i], emptyIsZero)
    ensures r.Err? && |Split(text, '.')| == 4 ==> exists i :: (0 <= i < 4
      && ParseOctet(Split(text, '.')[i], emptyIsZero) == Err(r.error)
      && forall j :: 0 <= j < i ==> PartAccepted(Split(text, '.')[j], emptyIsZero))
  {
    var parts := Split(text, '.');
    if |parts| != 4 then Err(WrongPartCount) else ParseOctets(parts, emptyIsZero)
  }

  /** Splitting formatted text gives back the four decimal parts. */
  lemma SplitFormatOctets(o: seq<nat>)
    requires |o| == 4
    ensures Split(FormatOctets(o), '.') == [ToDecimal(o[0]), ToDecimal(o[1]), ToDecimal(o[2]), ToDecimal(o[3])]
  {
    var parts := [ToDecimal(o[0]), ToDecimal(o[1]), ToDecimal(o[2]), ToDecimal(o[3])];
    forall i | 0 <= i < 4
      ensures '.' !in parts[i]
    {
      ToDecimalHasNoDot(o[i]);
    }
    SplitJoin(parts, '.');
  }

  /** Round trip: the backend parser reads formatted octets back, with or
      without the empty-part rule. */
  lemma ParseFormatOctets(o: seq<Octet>, emptyIsZero: bool)
    requires |o| == 4
    ensures ParseAddress(FormatOctets(o), emptyIsZero) == Ok(o)
  {
    SplitFormatOctets(o);
    ParseDecimals(o, emptyIsZero);
  }

  /** The four decimal parts parse back to the octets. */
  lemma ParseDecimals(o: seq<Octet>, emptyIsZero: bool)
    requires |o| == 4
    ensures ParseOctets([ToDecimal(o[0]), ToDecimal(o[1]), ToDecimal(o[2]), ToDecimal(o[3])], emptyIsZero) == Ok(o)
  {
    var parts := [ToDecimal(o[0]), ToDecimal(o[1]), ToDecimal(o[2]), ToDecimal(o[3])];
    forall i | 0 <= i < 4
      ensures ParseOctet(parts[i], emptyIsZero) == Ok(o[i])
      ensures PartAccepted(parts[i], emptyIsZero)
    {
      ParseToDecimal(o[i]);
    }
    var r := ParseOctets(parts, emptyIsZero);
    assert r.Ok? && |r.value| == 4;
    assert forall i :: 0 <= i < 4 ==> r.value[i] == o[i];
    assert r.value == o;
  }

  /** Round trip for addresses: `parse(format(x)) == x`. */
  lemma ParseFormat(x: u32, emptyIsZero: bool)
    ensures ParseAddress(Format(x), emptyIsZero) == Ok(OctetsOf(x))
    ensures var o := OctetsOf(x); Pack(o[0], o[1], o[2], o[3]) == x
  {
    ParseFormatOctets(OctetsOf(x), emptyIsZero);
    PackOctetsOf(x);
  }

  /** Distinct addresses have distinct text. */
  lemma FormatInjective(x: u32, y: u32)
    requires Format(x) == Format(y)
    ensures x == y
  {
    ParseFormat(x, false);
    ParseFormat(y, false);
  }
}
