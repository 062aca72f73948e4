/** The IP calculator page, which builds the same report as
    `calculate_ip_info` in the browser, on JavaScript numbers.

    Its octets are packed with signed 32-bit `<<` and `|`, the mask is
    `(-1 << (32 - maskBits)) >>> 0` and the host count is
    `2 ** (32 - maskBits) - 2` without a clamp.  Where the backend accepts the
    input and the prefix is at most 31 the two reports are identical; /32
    differs in the host count, and /0, which the backend refuses, yields a
    report for the whole address space with an all-ones mask.
 */
module IpPage {
  import opened Results
  import opened Bits
  import opened Decimal
  import opened Text
  import opened Address
  import opened Subnet
  import opened Js

  /** `Number.parseInt(bits, 10)`, refused when NaN or outside 0..32. */
  function ParseMaskBits(bits: string): (r: Result<nat>)
    ensures r.Ok? <==> ParsePrefix(bits).Ok?
    ensures r.Ok? ==> r.value == ParsePrefix(bits).value
    ensures r.Err? ==> r.error == PrefixUnreadable
  {
    match ParseNat(bits)
    case None => Err(PrefixUnreadable)
    case Some(m) => if m > 32 then Err(PrefixUnreadable) else Ok(m)
  }

  /** One address part: `Number.parseInt(part, 10)`, refused when NaN or
      outside 0..255. */
  function PageOctet(part: string): (r: Result<Octet>)
    ensures r.Ok? <==> PartAccepted(part, false)
    ensures r.Ok? ==> Ok(r.value) == ParseOctet(part, false)
    ensures r.Err? ==> r.error == OctetOutOfRange
  {
    match ParseNat(part)
    case None => Err(OctetOutOfRange)
    case Some(v) => if v > 255 then Err(OctetOutOfRange) else Ok(v)
  }

  /** `ipParts.map(...)`: the first refused part throws. */
  function PageOctets(parts: seq<string>): (r: Result<seq<Octet>>)
    ensures r.Ok? <==> forall i :: 0 <= i < |parts| ==> PartAccepted(parts[i], false)
    ensures r.Ok? ==> |r.value| == |parts|
    ensures r.Ok? ==> forall i :: 0 <= i < |parts| ==> Ok(r.value[i]) == ParseOctet(parts[i], false)
    ensures r.Err? ==> r.error == OctetOutOfRange
  {
    if |parts| == 0 then Ok([])
    else
      var first :- PageOctet(parts[0]);
      var rest :- PageOctets(parts[1..]);
      Ok([first] + rest)
  }

  /** The page reads the same octets as the backend's strict parser. */
  lemma PageOctetsAsBackend(parts: seq<string>)
    ensures PageOctets(parts).Ok? <==> ParseOctets(parts, false).Ok?
    ensures PageOctets(parts).Ok? ==> PageOctets(parts).value == ParseOctets(parts, false).value
  {
    var r, b := PageOctets(parts), ParseOctets(parts, false);
    if r.Ok? {
      assert |r.value| == |b.value|;
      forall i | 0 <= i < |parts|
        ensures r.value[i] == b.value[i]
      {
        assert Ok(r.value[i]) == ParseOctet(parts[i], false) == Ok(b.value[i]);
      }
    }
  }

  /** `(ipNums[0] << 24) | (ipNums[1] << 16) | (ipNums[2] << 8) | ipNums[3]`,
      a signed 32-bit value. */
  function IpInt(nums: seq<Octet>): int
    requires |nums| == 4
  {
    BitOr(BitOr(BitOr(ShiftLeft(nums[0], 24), ShiftLeft(nums[1], 16)), ShiftLeft(nums[2], 8)), nums[3])
  }

  /** `(-1 << (32 - maskBits)) >>> 0`. */
  function MaskInt(maskBits: nat): u32 {
    ToUint32(ShiftLeft(-1, 32 - maskBits))
  }

  /** `firstOctet < 128`, `< 192`, `< 224`, `< 240`, else class E. */
  function GetIpClass(firstOctet: nat): (c: IpClass)
    ensures c == ClassOf(firstOctet)
  {
    if firstOctet < 128 then A
    else if firstOctet < 192 then B
    else if firstOctet < 224 then C
    else if firstOctet < 240 then D
    else E
  }

  /** 10.x, 172.16-31.x or 192.168.x. */
  function CheckIfPrivate(nums: seq<Octet>): (p: bool)
    requires |nums| == 4
    ensures p == IsPrivate(nums[0], nums[1])
  {
    nums[0] == 10 || (nums[0] == 172 && nums[1] >= 16 && nums[1] <= 31) || (nums[0] == 192 && nums[1] == 168)
  }

  /** The numbers of the page's report.  The four block addresses are
      unsigned (`>>> 0`); host min and host max are plain sums and may leave
      the 32-bit range. */
  datatype PageNumbers = PageNumbers(
    ipInt: int,
    netmask: u32,
    wildcard: u32,
    network: u32,
    broadcast: u32,
    hostmin: int,
    hostmax: int,
    hosts: int,
    ipClass: IpClass,
    isPrivate: bool)

  function Calculate(nums: seq<Octet>, maskBits: nat): PageNumbers
    requires |nums| == 4 && maskBits <= 32
  {
    var ipInt := IpInt(nums);
    var maskInt := MaskInt(maskBits);
    var wildcardInt := ToUint32(BitNot(maskInt));
    var networkInt := ToUint32(BitAnd(ipInt, maskInt));
    var broadcastInt := ToUint32(BitOr(networkInt, wildcardInt));
    PageNumbers(ipInt, maskInt, wildcardInt, networkInt, broadcastInt,
      networkInt + 1, broadcastInt - 1, Pow2(32 - maskBits) - 2,
      GetIpClass(nums[0]), CheckIfPrivate(nums))
  }

  /** `[(ipInt >>> 24) & 255, (ipInt >>> 16) & 255, (ipInt >>> 8) & 255,
      ipInt & 255].join(".")`. */
  function IpToString(ipInt: int): string {
    var a := BitAnd(ShiftRightUnsigned(ipInt, 24), 255);
    var b := BitAnd(ShiftRightUnsigned(ipInt, 16), 255);
    var c := BitAnd(ShiftRightUnsigned(ipInt, 8), 255);
    var d := BitAnd(ipInt, 255);
    LowOctetOfAnd(ShiftRightUnsigned(ipInt, 24));
    LowOctetOfAnd(ShiftRightUnsigned(ipInt, 16));
    LowOctetOfAnd(ShiftRightUnsigned(ipInt, 8));
    LowOctetOfAnd(ipInt);
    FormatOctets([a, b, c, d])
  }

  /** `parseAndCalculate`: the prefix length is read first, then the four
      address parts, then the report is written out. */
  function ParseAndCalculate(ip: string, bits: string): (r: Result<NetworkInfo>)
    ensures ParseMaskBits(bits).Err? ==> r == Err(PrefixUnreadable)
    ensures ParseMaskBits(bits).Ok? ==> (r == Err(WrongPartCount) <==> |Split(ip, '.')| != 4)
    ensures ParseMaskBits(bits).Ok? && |Split(ip, '.')| == 4 ==>
      (r.Ok? <==> forall i :: 0 <= i < 4 ==> PartAccepted(Split(ip, '.')[i], false))
      && (r.Err? ==> r.error == OctetOutOfRange)
  {
    var maskBits :- ParseMaskBits(bits);
    var ipParts := Split(ip, '.');
    if |ipParts| != 4 then Err(WrongPartCount)
    else
      var ipNums :- PageOctets(ipParts);
      var n := Calculate(ipNums, maskBits);
      Ok(NetworkInfo(
        IpToString(n.ipInt),
        IpToString(n.netmask),
        IpToString(n.wildcard),
        IpToString(n.network),
        IpToString(n.broadcast),
        IpToString(n.hostmin),
        IpToString(n.hostmax),
        n.hosts,
        n.ipClass,
        n.isPrivate))
  }

  // ---------------------------------------------------------------------
  // What the numbers are

  /** The signed packing has the octets' base-256 value as its bit pattern;
      it is negative exactly when the first octet is 128 or more. */
  lemma IpIntValue(nums: seq<Octet>)
    requires |nums| == 4
    ensures ToUint32(IpInt(nums)) == ValueOf4(nums)
    ensures IpInt(nums) < 0 <==> nums[0] >= 128
  {
    var a, b, c, d := nums[0], nums[1], nums[2], nums[3];
    var sa, sb, sc := ShiftLeft(a, 24), ShiftLeft(b, 16), ShiftLeft(c, 8);
    ShiftLeftOf(a, 24);
    ShiftLeftOf(b, 16);
    ShiftLeftOf(c, 8);
    var ab := Or(Shl32(a, 24), Shl32(b, 16));
    BitOrPattern(sa, sb);
    assert ToUint32(BitOr(sa, sb)) == ab;
    var abc := Or(ab, Shl32(c, 8));
    BitOrPattern(BitOr(sa, sb), sc);
    assert ToUint32(BitOr(BitOr(sa, sb), sc)) == abc;
    BitOrPattern(BitOr(BitOr(sa, sb), sc), d);
    var p := Pack(a, b, c, d);
    assert p == Or(abc, d % TWO_32);
    assert ToUint32(IpInt(nums)) == p;
    PackOctets(a, b, c, d);
    assert ValueOf4([a, b, c, d]) == ValueOf4(nums);
    var x := ValueOf4(nums);
    Pattern(p);
    assert IpInt(nums) == ToInt32(p);
    ToInt32OfPattern(x);
  }

  /** For 1..32 the mask is the backend's netmask, the top `maskBits` bits;
      at 0 the shift count 32 is taken as 0 and every bit is set. */
  lemma MaskIntValue(maskBits: nat)
    requires maskBits <= 32
    ensures maskBits == 0 ==> MaskInt(maskBits) == TWO_32 - 1
    ensures 1 <= maskBits ==> MaskInt(maskBits) == MaskFor(32 - maskBits)
  {
    var h := 32 - maskBits;
    Pattern(h);
    assert ToUint32(-1) == TWO_32 - 1 by {
      DivModUnique(-1, TWO_32, -1, TWO_32 - 1);
    }
    ShiftLeftPattern(-1, h);
    if maskBits == 0 {
      DivModUnique(32, 32, 1, 0);
      ShlAllOnes(0);
      Pow2Values();
      assert HighMask(32, 0) == TWO_32 - 1;
    } else {
      DivModUnique(h, 32, 0, h);
      ShlAllOnes(h);
    }
  }

  /** For a prefix of 1..32 the page's mask, wildcard, network and broadcast
      are the backend's block. */
  lemma PageBlock(nums: seq<Octet>, maskBits: nat)
    requires |nums| == 4 && 1 <= maskBits <= 32
    ensures var n := Calculate(nums, maskBits);
      Block(n.netmask, n.wildcard, n.network, n.broadcast) == BlockOf(ValueOf4(nums), maskBits)
  {
    var x := ValueOf4(nums);
    var h := 32 - maskBits;
    var mask := MaskInt(maskBits);
    IpIntValue(nums);
    MaskIntValue(maskBits);
    Pattern(mask);
    BitNotPattern(mask);
    BitAndPattern(IpInt(nums), mask);
    var network := ToUint32(BitAnd(IpInt(nums), mask));
    var wildcard := ToUint32(BitNot(mask));
    BlockParts(x, h);
    assert network == And(x, MaskFor(h));
    assert wildcard == Not32(MaskFor(h));
    Pattern(network);
    Pattern(wildcard);
    BitOrPattern(network, wildcard);
  }

  /** At prefix 0 the mask has every bit set, so the network and the
      broadcast are the address itself. */
  lemma PageBlockAtZero(nums: seq<Octet>)
    requires |nums| == 4
    ensures var n := Calculate(nums, 0);
      n.netmask == TWO_32 - 1 && n.wildcard == 0
      && n.network == ValueOf4(nums) && n.broadcast == ValueOf4(nums)
  {
    var x := ValueOf4(nums);
    var mask := MaskInt(0);
    IpIntValue(nums);
    MaskIntValue(0);
    Pattern(mask);
    BitNotPattern(mask);
    BitAndPattern(IpInt(nums), mask);
    Pow2Values();
    AndLowMask(x, 32);
    DivModUnique(x, TWO_32, 0, x);
    var network := ToUint32(BitAnd(IpInt(nums), mask));
    assert network == x;
    Pattern(network);
    Pattern(0);
    BitOrPattern(network, 0);
    OrZero(network);
  }

  /** The host count is never clamped: it is the number of addresses strictly
      inside the block up to /30, 0 at /31 and -1 at /32. */
  lemma PageHostCount(nums: seq<Octet>, maskBits: nat)
    requires |nums| == 4 && 1 <= maskBits <= 32
    ensures var n := Calculate(nums, maskBits);
      && (maskBits <= 30 ==> n.hosts == n.broadcast - n.network - 1)
      && (maskBits == 31 ==> n.hosts == 0)
      && (maskBits == 32 ==> n.hosts == -1)
  {
    PageBlock(nums, maskBits);
    assert Pow2(0) == 1 && Pow2(1) == 2;
  }

  // ---------------------------------------------------------------------
  // What the text is

  /** `ipToString` writes the octets of the value's 32-bit pattern, for any
      number, in range or not. */
  lemma IpToStringIsFormat(ipInt: int)
    ensures IpToString(ipInt) == Format(ToUint32(ipInt))
  {
    Pow2Values();
    var u := ToUint32(ipInt);
    Pattern(24);
    Pattern(16);
    Pattern(8);
    DivModUnique(24, 32, 0, 24);
    DivModUnique(16, 32, 0, 16);
    DivModUnique(8, 32, 0, 8);
    LowOctetOfAnd(ShiftRightUnsigned(ipInt, 24));
    LowOctetOfAnd(ShiftRightUnsigned(ipInt, 16));
    LowOctetOfAnd(ShiftRightUnsigned(ipInt, 8));
    LowOctetOfAnd(ipInt);
    Pattern(u / 16777216);
    Pattern(u / 65536);
    Pattern(u / 256);
    var o := OctetsOf(u);
    var p := [BitAnd(ShiftRightUnsigned(ipInt, 24), 255), BitAnd(ShiftRightUnsigned(ipInt, 16), 255),
      BitAnd(ShiftRightUnsigned(ipInt, 8), 255), BitAnd(ipInt, 255)];
    assert p[0] == o[0] && p[1] == o[1] && p[2] == o[2] && p[3] == o[3];
    assert p == o;
  }

  /** Every text the page writes is four octets that read back as the value's
      32-bit pattern. */
  lemma IpToStringReadsBack(ipInt: int)
    ensures ParseAddress(IpToString(ipInt), false) == Ok(OctetsOf(ToUint32(ipInt)))
  {
    IpToStringIsFormat(ipInt);
    ParseFormat(ToUint32(ipInt), false);
  }

  /** The address is written back as the octets it was read from. */
  lemma AddressTextOfOctets(nums: seq<Octet>)
    requires |nums| == 4
    ensures IpToString(IpInt(nums)) == FormatOctets(nums)
  {
    IpIntValue(nums);
    IpToStringIsFormat(IpInt(nums));
    var o := OctetsOf(ValueOf4(nums));
    OctetsDetermineValue(o, nums);
  }

  // ---------------------------------------------------------------------
  // Agreement with the backend

  /** The page refuses exactly the input the backend's parser refuses. */
  lemma PageRefusesAsBackend(ip: string, bits: string)
    ensures ParseAndCalculate(ip, bits).Err? <==> ParsePrefix(bits).Err? || ParseAddress(ip, false).Err?
  {
    PageOctetsAsBackend(Split(ip, '.'));
  }

  /** Where the backend reports a block of prefix 1..31, the page shows the
      same report. */
  lemma PageAgreesWithBackend(ip: string, bits: string)
    requires CalculateIpInfo(ip, bits).Ok? && ParsePrefix(bits).value <= 31
    ensures ParseAndCalculate(ip, bits) == CalculateIpInfo(ip, bits)
  {
    var m := ParsePrefix(bits).value;
    var o := ParseAddress(ip, false).value;
    PageOctetsAsBackend(Split(ip, '.'));
    var info := InfoOf(o, m).value;
    var n := Calculate(o, m);
    PageNumbersAsBackend(o, m);
    SameText(n, info);
    AddressTextOfOctets(o);
    assert Pow2(1) == 2;
  }

  /** At /32 the page shows the backend's report with -1 hosts where the
      backend says 0. */
  lemma PageAtSlash32(ip: string, bits: string)
    requires CalculateIpInfo(ip, bits).Ok? && ParsePrefix(bits).value == 32
    ensures ParseAndCalculate(ip, bits) == Ok(CalculateIpInfo(ip, bits).value.(hosts := -1))
  {
    var o := ParseAddress(ip, false).value;
    PageOctetsAsBackend(Split(ip, '.'));
    var info := InfoOf(o, 32).value;
    var n := Calculate(o, 32);
    PageNumbersAsBackend(o, 32);
    SameText(n, info);
    AddressTextOfOctets(o);
    assert Pow2(0) == 1;
  }

  /** At /0 the backend refuses the input, while the page reports the address
      alone as network and broadcast, an all-ones mask and 2^32 - 2 hosts. */
  lemma PageAtSlash0(ip: string, bits: string)
    requires ParseNat(bits) == Some(0) && ParseAddress(ip, false).Ok?
    ensures CalculateIpInfo(ip, bits) == Err(Overflow)
    ensures var r := ParseAndCalculate(ip, bits); var address := FormatOctets(ParseAddress(ip, false).value);
      && r.Ok?
      && r.value.address == address && r.value.network == address && r.value.broadcast == address
      && r.value.netmask == Format(TWO_32 - 1) && r.value.wildcard == Format(0)
      && r.value.hosts == TWO_32 - 2
  {
    var o := ParseAddress(ip, false).value;
    PageOctetsAsBackend(Split(ip, '.'));
    var n := Calculate(o, 0);
    PageBlockAtZero(o);
    AddressTextOfOctets(o);
    IpToStringIsFormat(n.network);
    IpToStringIsFormat(n.netmask);
    IpToStringIsFormat(n.wildcard);
    Pattern(n.network);
    Pattern(n.netmask);
    Pattern(n.wildcard);
    OctetsOfValueFormat(o);
    Pow2Values();
  }

  /** For 255.255.255.255/32 the page's host min wraps around to 0.0.0.0,
      where the backend reports an overflow. */
  lemma PageHostMinWraps(ip: string, bits: string)
    requires ParseNat(bits) == Some(32) && ParseAddress(ip, false) == Ok([255, 255, 255, 255])
    ensures CalculateIpInfo(ip, bits) == Err(Overflow)
    ensures ParseAndCalculate(ip, bits).Ok? && ParseAndCalculate(ip, bits).value.hostmin == Format(0)
  {
    assert ValueOf4(ParseAddress(ip, false).value) == TWO_32 - 1;
    TopAddressWraps(ip, bits);
  }

  lemma TopAddressWraps(ip: string, bits: string)
    requires ParseNat(bits) == Some(32) && ParseAddress(ip, false).Ok?
    requires ValueOf4(ParseAddress(ip, false).value) == TWO_32 - 1
    ensures CalculateIpInfo(ip, bits) == Err(Overflow)
    ensures ParseAndCalculate(ip, bits).Ok? && ParseAndCalculate(ip, bits).value.hostmin == Format(0)
  {
    var o := ParseAddress(ip, false).value;
    PageOctetsAsBackend(Split(ip, '.'));
    TopHostMin(o);
  }

  lemma TopHostMin(o: seq<Octet>)
    requires |o| == 4 && ValueOf4(o) == TWO_32 - 1
    ensures IpToString(Calculate(o, 32).hostmin) == Format(0)
  {
    var n := Calculate(o, 32);
    PageBlock(o, 32);
    assert Pow2(0) == 1;
    RoundDownOf(TWO_32 - 1, 1, TWO_32 - 1);
    assert n.hostmin == TWO_32;
    IpToStringIsFormat(TWO_32);
    DivModUnique(TWO_32, TWO_32, 1, 0);
  }

  /** The page's numbers against the backend's, where the backend has a
      report. */
  lemma PageNumbersAsBackend(o: seq<Octet>, m: nat)
    requires |o| == 4 && m <= 32 && InfoOf(o, m).Ok?
    ensures var n, info := Calculate(o, m), InfoOf(o, m).value;
      && Block(n.netmask, n.wildcard, n.network, n.broadcast) == info.block
      && n.hostmin == info.hostmin && n.hostmax == info.hostmax
      && (m <= 31 ==> n.hosts == info.hosts)
      && (m == 32 ==> n.hosts == -1)
      && n.ipClass == info.ipClass && n.isPrivate == info.isPrivate
      && ToUint32(n.ipInt) == ValueOf4(o)
  {
    PageBlock(o, m);
    IpIntValue(o);
    PageHostCount(o, m);
  }

  /** The report text of numbers that agree with the backend's. */
  lemma SameText(n: PageNumbers, info: Numbers)
    requires Block(n.netmask, n.wildcard, n.network, n.broadcast) == info.block
    requires n.hostmin == info.hostmin && n.hostmax == info.hostmax
    ensures IpToString(n.netmask) == Format(info.block.netmask)
    ensures IpToString(n.wildcard) == Format(info.block.wildcard)
    ensures IpToString(n.network) == Format(info.block.network)
    ensures IpToString(n.broadcast) == Format(info.block.broadcast)
    ensures IpToString(n.hostmin) == Format(info.hostmin)
    ensures IpToString(n.hostmax) == Format(info.hostmax)
  {
    IpToStringIsFormat(n.netmask);
    IpToStringIsFormat(n.wildcard);
    IpToStringIsFormat(n.network);
    IpToStringIsFormat(n.broadcast);
    IpToStringIsFormat(n.hostmin);
    IpToStringIsFormat(n.hostmax);
    Pattern(n.netmask);
    Pattern(n.wildcard);
    Pattern(n.network);
    Pattern(n.broadcast);
    Pattern(info.hostmin);
    Pattern(info.hostmax);
  }

  lemma OctetsOfValueFormat(o: seq<Octet>)
    requires |o| == 4
    ensures Format(ValueOf4(o)) == FormatOctets(o)
  {
    OctetsDetermineValue(OctetsOf(ValueOf4(o)), o);
  }
}
