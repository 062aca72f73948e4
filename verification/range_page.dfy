/** The IP range calculator page, which lists the hosts of a block in the
    browser without calling the backend.

    It reads its inputs more loosely than the backend: address parts are only
    required to start a number (or be empty), never range-checked, and the
    listing runs on JavaScript's signed 32-bit values.
 */
module RangePage {
  import opened Results
  import opened Bits
  import opened Decimal
  import opened Text
  import opened Address
  import opened Subnet
  import opened Js
  import opened HostRange

  /** A part `parseInput` lets through: a number, or empty. */
  predicate PartReadable(part: string) {
    part == "" || ParseNat(part).Some?
  }

  /** Every empty part replaced by "0". */
  function Zeroed(parts: seq<string>): (z: seq<string>)
    ensures |z| == |parts|
    ensures forall i :: 0 <= i < |parts| ==> z[i] == if parts[i] == "" then "0" else parts[i]
  {
    if |parts| == 0 then [] else [if parts[0] == "" then "0" else parts[0]] + Zeroed(parts[1..])
  }

  /** `parseInput`: the prefix length must read as 0..32; the address must
      have four parts, each a number or empty; the start address is the
      address with every empty part written as "0". */
  function ParseInput(endOfIp: string, subnetMask: string): (r: Result<(string, nat)>)
    ensures r == Err(PrefixUnreadable) <==> ParseNat(subnetMask).None? || ParseNat(subnetMask).value > 32
    ensures r == Err(AddressFormat) <==> (ParseNat(subnetMask).Some? && ParseNat(subnetMask).value <= 32
      && (|Split(endOfIp, '.')| != 4
          || exists i :: 0 <= i < |Split(endOfIp, '.')| && !PartReadable(Split(endOfIp, '.')[i])))
    ensures r.Err? ==> r.error == PrefixUnreadable || r.error == AddressFormat
    ensures r.Ok? ==> r.value.1 == ParseNat(subnetMask).value && r.value.1 <= 32
    ensures r.Ok? ==> Split(r.value.0, '.') == Zeroed(Split(endOfIp, '.'))
  {
    var mask := ParseNat(subnetMask);
    if mask.None? || mask.value > 32 then Err(PrefixUnreadable)
    else
      var parts := Split(endOfIp, '.');
      if |parts| != 4 || exists i :: 0 <= i < |parts| && !PartReadable(parts[i]) then Err(AddressFormat)
      else
        var z := Zeroed(parts);
        forall i | 0 <= i < |z|
          ensures '.' !in z[i]
        {
        }
        SplitJoin(z, '.');
        Ok((Join(z, '.'), mask.value))
  }

  /** `Number` applied to each part. */
  function Operands(parts: seq<string>): (nums: seq<nat>)
    ensures |nums| == |parts|
    ensures forall i :: 0 <= i < |parts| ==> nums[i] == NumberOperand(parts[i])
  {
    if |parts| == 0 then [] else [NumberOperand(parts[0])] + Operands(parts[1..])
  }

  /** `for (let ip = lo; ip < hi; ip++)` over signed values: the octets each
      `ip` yields under signed shifts. */
  function SignedOctetsFrom(lo: int, hi: int): (os: seq<Quad>)
    ensures |os| == if hi > lo then hi - lo else 0
    ensures forall i :: 0 <= i < |os| ==> os[i] == SignedOctets(lo + i)
    decreases hi - lo
  {
    if hi <= lo then [] else SignedOctetsFrom(lo, hi - 1) + [SignedOctets(hi - 1)]
  }

  /** The bit pattern of `subnetSize - 1` where `subnetSize = 1 << hostBits`:
      the shift count is taken modulo 32, so a host-bit count of 32 shifts by
      nothing. */
  function LowMask(maskBits: int): (low: u32)
    ensures low == Pow2((32 - maskBits) % 32) - 1
  {
    Pow2Divides((32 - maskBits) % 32, 32);
    Pow2Values();
    Pow2((32 - maskBits) % 32) - 1
  }

  /** `getValidIPs`: the start address from the parts, then the block, then
      the signed loop over its hosts. */
  function GetValidIps(startIp: string, maskBits: int): seq<string> {
    var ip := StartAddress(startIp);
    SignedBetween(PageNetwork(ip, maskBits), PageBroadcast(ip, maskBits))
  }

  /** The signed loop from `network + 1` up to `broadcast`, each value
      written out as its octets joined by dots. */
  function SignedBetween(network: u32, broadcast: u32): seq<string> {
    Texts(SignedOctetsFrom(ToInt32(network) + 1, ToInt32(broadcast)))
  }

  /** `parts[0] << 24 | parts[1] << 16 | parts[2] << 8 | parts[3]`, with a
      missing part read as 0. */
  function StartAddress(startIp: string): u32 {
    var nums := Operands(Split(startIp, '.'));
    Pack(ElementOperand(nums, 0), ElementOperand(nums, 1), ElementOperand(nums, 2), ElementOperand(nums, 3))
  }

  /** `ip & ~(subnetSize - 1)`. */
  function PageNetwork(ip: u32, maskBits: int): u32 {
    And(ip, Not32(LowMask(maskBits)))
  }

  /** `network | (subnetSize - 1)`. */
  function PageBroadcast(ip: u32, maskBits: int): u32 {
    var network := PageNetwork(ip, maskBits);
    var low := LowMask(maskBits);
    Pow2Values();
    OrBound(network, low, 32);
    Or(network, low)
  }

  /** The address value the page computes for the parts it accepted. */
  function PageAddress(parts: seq<string>): u32
    requires |parts| == 4
  {
    var nums := Operands(Zeroed(parts));
    Pack(nums[0], nums[1], nums[2], nums[3])
  }

  /** The button handler: both fields must be filled, then the input is
      parsed and the block listed. */
  function CalculateValidIps(endOfIp: string, subnetMask: string): (r: Result<seq<string>>)
    ensures r == Err(MissingInput) <==> endOfIp == "" || subnetMask == ""
    ensures endOfIp != "" && subnetMask != "" && ParseInput(endOfIp, subnetMask).Err? ==>
      r == Err(ParseInput(endOfIp, subnetMask).error)
    ensures r.Ok? ==> ParseInput(endOfIp, subnetMask).Ok?
  {
    if endOfIp == "" || subnetMask == "" then Err(MissingInput)
    else
      var input :- ParseInput(endOfIp, subnetMask);
      Ok(GetValidIps(input.0, input.1))
  }

  /** What the page lists: nothing for /0, whose shift by 32 degenerates to a
      block of one address; otherwise exactly the backend's host list for the
      block of the address the parts spell, even when a part exceeds 255.
      The parts are read at their exact values, which matches the page while
      they stay below 2^53. */
  lemma PageListsBlock(endOfIp: string, subnetMask: string)
    requires CalculateValidIps(endOfIp, subnetMask).Ok?
    ensures var parts := Split(endOfIp, '.');
      var m := ParseNat(subnetMask).value;
      && |parts| == 4 && m <= 32
      && (m == 0 ==> CalculateValidIps(endOfIp, subnetMask).value == [])
      && (m >= 1 ==> var b := BlockOf(PageAddress(parts), m);
            CalculateValidIps(endOfIp, subnetMask).value == HostsBetween(b.network, b.broadcast))
  {
    var input := ParseInput(endOfIp, subnetMask).value;
    var ip := StartOfInput(endOfIp, subnetMask);
    assert CalculateValidIps(endOfIp, subnetMask).value == GetValidIps(input.0, input.1);
    if input.1 == 0 {
      ValidIpsAtZero(input.0);
    } else {
      ValidIpsOfBlock(input.0, input.1);
    }
  }

  lemma ValidIpsAtZero(startIp: string)
    ensures GetValidIps(startIp, 0) == []
  {
    PageBoundsZero(StartAddress(startIp));
  }

  lemma ValidIpsOfBlock(startIp: string, m: nat)
    requires 1 <= m <= 32
    ensures var b := BlockOf(StartAddress(startIp), m);
      GetValidIps(startIp, m) == HostsBetween(b.network, b.broadcast)
  {
    var ip := StartAddress(startIp);
    PageBoundsBlock(ip, m);
    var b := BlockOf(ip, m);
    SignedBlock(b.network, b.broadcast, 32 - m);
  }

  /** The start address the page builds is the value of the parts it
      accepted. */
  lemma StartOfInput(endOfIp: string, subnetMask: string) returns (ip: u32)
    requires ParseInput(endOfIp, subnetMask).Ok?
    ensures |Split(endOfIp, '.')| == 4
    ensures ip == PageAddress(Split(endOfIp, '.'))
    ensures ip == StartAddress(ParseInput(endOfIp, subnetMask).value.0)
  {
    var input := ParseInput(endOfIp, subnetMask).value;
    assert Split(input.0, '.') == Zeroed(Split(endOfIp, '.'));
    ip := PageAddress(Split(endOfIp, '.'));
  }

  /** At /0 the shift by 32 leaves a mask of all ones: the block is the one
      address itself. */
  lemma PageBoundsZero(ip: u32)
    ensures PageNetwork(ip, 0) == ip && PageBroadcast(ip, 0) == ip
  {
    Pow2Values();
    var low := LowMask(0);
    assert low == 0;
    var network := And(ip, Not32(low));
    AndLowMask(ip, 32);
    DivModUnique(ip, TWO_32, 0, ip);
    OrZero(network);
  }

  /** From /1 to /32 the page's bounds are the backend's network and broadcast
      addresses. */
  lemma PageBoundsBlock(ip: u32, m: nat)
    requires 1 <= m <= 32
    ensures PageNetwork(ip, m) == BlockOf(ip, m).network
    ensures PageBroadcast(ip, m) == BlockOf(ip, m).broadcast
  {
    var h := 32 - m;
    BlockParts(ip, h);
    DivModUnique(32 - m, 32, 0, h);
    var low := LowMask(m);
    assert low == Pow2(h) - 1;
    assert Not32(low) == MaskFor(h);
    var network := And(ip, MaskFor(h));
    assert PageNetwork(ip, m) == network;
    assert low == Not32(MaskFor(h));
    assert PageBroadcast(ip, m) == Or(network, Not32(MaskFor(h)));
  }

  /** On an aligned block of at most 2^31 addresses the signed loop lists the
      same text as the unsigned one. */
  lemma SignedBlock(network: u32, broadcast: u32, h: nat)
    requires h < 32 && network % Pow2(h) == 0 && broadcast == network + Pow2(h) - 1
    ensures SignedBetween(network, broadcast) == HostsBetween(network, broadcast)
  {
    var d := SignedShift(network, broadcast, h);
    SignedListing(ToInt32(network) + 1, ToInt32(broadcast), network + 1, broadcast, d);
  }

  /** A block that does not reach 2^31 keeps its bounds as signed values; one
      that does lies wholly above it, so both bounds move down by 2^32. */
  lemma SignedShift(network: u32, broadcast: u32, h: nat) returns (d: int)
    requires h < 32 && network % Pow2(h) == 0 && broadcast == network + Pow2(h) - 1
    ensures d == 0 || d == TWO_32
    ensures ToInt32(network) == network - d && ToInt32(broadcast) == broadcast - d
  {
    Pow2Values();
    Pow2Divides(h, 31);
    ToInt32OfPattern(network);
    ToInt32OfPattern(broadcast);
    if network < TWO_31 {
      AlignedEnd(network, Pow2(h), TWO_31);
      d := 0;
    } else {
      d := TWO_32;
    }
  }

  /** The signed loop over `[lo - d, hi - d)` and the unsigned one over
      `[lo, hi)` produce the same octets. */
  lemma {:induction false} SignedListing(slo: int, shi: int, lo: nat, hi: nat, d: int)
    requires hi <= TWO_32 && (d == 0 || d == TWO_32) && slo == lo - d && shi == hi - d
    ensures SignedOctetsFrom(slo, shi) == HostOctets(lo, hi)
    decreases hi
  {
    if hi > lo {
      SignedListing(slo, shi - 1, lo, hi - 1, d);
      SignedOctetsOfPattern(shi - 1);
      DivModUnique(shi - 1, TWO_32, if d == 0 then 0 else -1, hi - 1);
      assert SignedOctets(shi - 1) == OctetsOf(hi - 1);
    }
  }

  // ---------------------------------------------------------------------
  // The page against the backend

  /** Wherever the backend lists a block from two filled-in fields, the page
      lists the same addresses. */
  lemma PageAgreesWithBackend(ipAddress: string, subnetMask: string)
    requires ipAddress != "" && subnetMask != ""
    requires CalculateIps(ipAddress, subnetMask).Ok?
    ensures CalculateValidIps(ipAddress, subnetMask) == CalculateIps(ipAddress, subnetMask)
  {
    var parts := Split(ipAddress, '.');
    var o := ParseAddress(ipAddress, true).value;
    forall i | 0 <= i < |parts|
      ensures PartReadable(parts[i])
    {
      assert PartAccepted(parts[i], true);
    }
    assert ParseInput(ipAddress, subnetMask).Ok?;
    assert ParseOctets(parts, true) == Ok(o);
    PageAddressOfOctets(parts, o);
    PageListsBlock(ipAddress, subnetMask);
  }

  /** For parts the backend accepts, the page computes the same address. */
  lemma PageAddressOfOctets(parts: seq<string>, o: seq<Octet>)
    requires |parts| == 4 && ParseOctets(parts, true) == Ok(o)
    ensures |o| == 4 && PageAddress(parts) == ValueOf4(o)
  {
    OperandsOfOctets(parts, o);
    assert PageAddress(parts) == PackedOctets(o);
  }

  lemma OperandsOfOctets(parts: seq<string>, o: seq<Octet>)
    requires ParseOctets(parts, true) == Ok(o)
    ensures Operands(Zeroed(parts)) == o
  {
    var nums := Operands(Zeroed(parts));
    forall i | 0 <= i < |parts|
      ensures nums[i] == o[i]
    {
      OperandOfOctet(parts[i], o[i]);
    }
  }

  /** A part the backend reads as `v` is the operand `v` once an empty part
      is written as "0". */
  lemma OperandOfOctet(part: string, v: Octet)
    requires ParseOctet(part, true) == Ok(v)
    ensures NumberOperand(if part == "" then "0" else part) == v
  {
    if part == "" {
      ZeroText();
    }
  }

  lemma ZeroText()
    ensures ParseNat("0") == Some(0)
  {
    assert ToDecimal(0) == "0";
    ParseToDecimal(0);
  }

  /** At /0 the backend's `1 << 32` is an overflow error while the page lists
      nothing. */
  lemma ZeroPrefixDiffers(ipAddress: string, subnetMask: string)
    requires ParseNat(subnetMask) == Some(0) && ParseAddress(ipAddress, true).Ok?
    ensures CalculateIps(ipAddress, subnetMask) == Err(Overflow)
    ensures CalculateValidIps(ipAddress, subnetMask) == Ok([])
  {
    NonEmptyAddress(ipAddress);
    PageInputOfBackendInput(ipAddress, subnetMask);
    PageListsBlock(ipAddress, subnetMask);
  }

  /** For 255.255.255.255/32 the backend's `network + 1` overflows while the
      page lists nothing, as it does for every other /32. */
  lemma BroadcastHostDiffers(ipAddress: string, subnetMask: string)
    requires ParseNat(subnetMask) == Some(32) && ParseAddress(ipAddress, true) == Ok([255, 255, 255, 255])
    ensures CalculateIps(ipAddress, subnetMask) == Err(Overflow)
    ensures CalculateValidIps(ipAddress, subnetMask) == Ok([])
  {
    NonEmptyAddress(ipAddress);
    PageInputOfBackendInput(ipAddress, subnetMask);
    PageListsBlock(ipAddress, subnetMask);
    var parts := Split(ipAddress, '.');
    PageAddressOfOctets(parts, [255, 255, 255, 255]);
  }

  /** An address the backend parses has four parts, so it is not empty. */
  lemma NonEmptyAddress(ipAddress: string)
    requires ParseAddress(ipAddress, true).Ok?
    ensures ipAddress != ""
  {
  }

  /** Input the backend reads is input the page reads. */
  lemma PageInputOfBackendInput(ipAddress: string, subnetMask: string)
    requires ParseNat(subnetMask).Some? && ParseNat(subnetMask).value <= 32
    requires ParseAddress(ipAddress, true).Ok?
    ensures ipAddress != "" && subnetMask != ""
    ensures ParseInput(ipAddress, subnetMask).Ok? && CalculateValidIps(ipAddress, subnetMask).Ok?
  {
    NonEmptyAddress(ipAddress);
    var parts := Split(ipAddress, '.');
    forall i | 0 <= i < |parts|
      ensures PartReadable(parts[i])
    {
      assert PartAccepted(parts[i], true);
    }
  }

  /** A part above 255 that the backend refuses, the page takes as a number:
      it still lists a block where the backend reports an error. */
  lemma PageAcceptsWideParts(ipAddress: string, subnetMask: string, i: nat)
    requires ipAddress != "" && subnetMask != "" && ParseInput(ipAddress, subnetMask).Ok?
    requires i < |Split(ipAddress, '.')|
    requires ParseNat(Split(ipAddress, '.')[i]).Some? && ParseNat(Split(ipAddress, '.')[i]).value > 255
    ensures CalculateValidIps(ipAddress, subnetMask).Ok?
    ensures CalculateIps(ipAddress, subnetMask).Err?
  {
    assert !PartAccepted(Split(ipAddress, '.')[i], true);
  }

  /** When the parts before it are 0, such a last part is taken modulo 2^32:
      the last part 256 names the same address as 0.0.1.0. */
  lemma LastPartCarries(d: nat)
    ensures Pack(0, 0, 0, d) == d % TWO_32
  {
    Pow2Values();
    assert Shl32(0, 24) == 0 && Shl32(0, 16) == 0 && Shl32(0, 8) == 0;
    OrZero(0);
    OrZero(d % TWO_32);
  }

  /** In general the last part is or-ed into the bits the other parts
      occupy; it is not added to them. */
  lemma LastPartOred(a: nat, b: nat, c: nat, d: nat)
    ensures Pack(a, b, c, d) == Or(Pack(a, b, c, 0), d % TWO_32)
  {
    OrZero(Or(Or(Shl32(a, 24), Shl32(b, 16)), Shl32(c, 8)));
  }

  /** So a wide last part need not carry: 0.0.1.256 names 0.0.1.0, not
      0.0.2.0. */
  lemma OredPartOverlaps()
    ensures Pack(0, 0, 1, 256) == ValueOf4([0, 0, 1, 0])
    ensures Pack(0, 0, 1, 256) != ValueOf4([0, 0, 2, 0])
  {
    Pow2Values();
    LastPartOred(0, 0, 1, 256);
    PackOctets(0, 0, 1, 0);
    OrSelf(256);
  }
}
