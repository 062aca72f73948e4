/** Subnet arithmetic of the Rust backend: `calculate_ip_info` and
    `generate_subnet_references`.

    A prefix length `m` leaves `32 - m` host bits.  The netmask is computed as
    `!((1 << host_bits) - 1)`, the wildcard as its complement, the network as
    `ip & netmask` and the broadcast as `network | wildcard`.  `BlockOf`
    computes exactly that and its contract says what it means in arithmetic:
    the network rounds the address down to a multiple of the block size.
 */
module Subnet {
  import opened Results
  import opened Bits
  import opened Decimal
  import opened Text
  import opened Address

  /** `!((1u32 << hostBits) - 1)`; the shift is only defined below 32. */
  function MaskFor(hostBits: nat): (m: u32)
    requires hostBits < 32
    ensures m == HighMask(32, hostBits)
  {
    Pow2Values();
    Not32(OneShl(hostBits) - 1)
  }

  /** `1u32 << k`, the size of a block with `k` host bits. */
  function OneShl(k: nat): (n: u32)
    requires k < 32
    ensures n == Pow2(k)
  {
    Pow2Values();
    Pow2Divides(k, 32);
    DivModUnique(Pow2(k), TWO_32, 0, Pow2(k));
    Shl32(1, k)
  }

  /** The netmask of prefix `m` has exactly the top `m` of the 32 bits set. */
  lemma MaskHasTopBits(m: nat, k: nat)
    requires 1 <= m <= 32 && k < 32
    ensures Bit(MaskFor(32 - m), k) <==> k >= 32 - m
  {
    BitsOfHighMask(32, 32 - m, k);
  }

  /** The four derived addresses of an address under a prefix. */
  datatype Block = Block(netmask: u32, wildcard: u32, network: u32, broadcast: u32)

  /** `network = ip & netmask`, `broadcast = network | !netmask`. */
  function BlockOf(ip: u32, m: nat): (b: Block)
    requires 1 <= m <= 32
    ensures b.netmask + Pow2(32 - m) == TWO_32
    ensures b.wildcard == Not32(b.netmask) == Pow2(32 - m) - 1
    ensures b.network == RoundDown(ip, Pow2(32 - m))
    ensures b.broadcast == b.network + Pow2(32 - m) - 1
  {
    var h := 32 - m;
    var netmask := MaskFor(h);
    var wildcard := Not32(netmask);
    var network := And(ip, netmask);
    BlockParts(ip, h);
    Block(netmask, wildcard, network, Or(network, wildcard))
  }

  lemma BlockParts(ip: u32, h: nat)
    requires h < 32
    ensures MaskFor(h) + Pow2(h) == TWO_32
    ensures Not32(MaskFor(h)) == Pow2(h) - 1
    ensures And(ip, MaskFor(h)) == RoundDown(ip, Pow2(h))
    ensures Or(And(ip, MaskFor(h)), Not32(MaskFor(h))) == RoundDown(ip, Pow2(h)) + Pow2(h) - 1
  {
    Pow2Values();
    var netmask := MaskFor(h);
    assert netmask + Pow2(h) == TWO_32;
    AndHighMask(ip, 32, h);
    var network := And(ip, netmask);
    assert network == RoundDown(ip, Pow2(h));
    BroadcastOf(network, h);
  }

  /** Or-ing the host bits into an aligned network fills them with ones. */
  lemma BroadcastOf(network: u32, h: nat)
    requires h < 32 && network % Pow2(h) == 0
    ensures Or(network, Pow2(h) - 1) == network + Pow2(h) - 1 < TWO_32
  {
    var size := Pow2(h);
    var q := network / size;
    QuotientTimes(network, size);
    OrShifted(q, size - 1, h);
    Pow2Values();
    Pow2Divides(h, 32);
    AlignedEnd(network, size, TWO_32);
  }

  /** Re-masking a network address leaves it unchanged. */
  lemma NetworkIdempotent(ip: u32, m: nat)
    requires 1 <= m <= 32
    ensures var b := BlockOf(ip, m); And(b.network, b.netmask) == b.network
    ensures BlockOf(BlockOf(ip, m).network, m).network == BlockOf(ip, m).network
  {
    var b := BlockOf(ip, m);
    var size := Pow2(32 - m);
    AndHighMask(b.network, 32, 32 - m);
    RoundDownOf(b.network, size, b.network);
  }

  /** The address lies between its network and broadcast addresses. */
  lemma NetworkBracketsAddress(ip: u32, m: nat)
    requires 1 <= m <= 32
    ensures BlockOf(ip, m).network <= ip <= BlockOf(ip, m).broadcast
  {
  }

  /** An address is in the block exactly when it masks to the same network. */
  lemma SameNetwork(ip: u32, y: u32, m: nat)
    requires 1 <= m <= 32
    ensures BlockOf(y, m).network == BlockOf(ip, m).network
      <==> BlockOf(ip, m).network <= y <= BlockOf(ip, m).broadcast
  {
    var b := BlockOf(ip, m);
    if b.network <= y <= b.broadcast {
      RoundDownOf(y, Pow2(32 - m), b.network);
    }
  }

  // ---------------------------------------------------------------------
  // calculate_ip_info

  datatype IpClass = A | B | C | D | E

  /** The `match` on the first octet: 0..=127, 128..=191, 192..=223,
      224..=239, anything else. */
  function ClassOf(firstOctet: nat): IpClass {
    if firstOctet <= 127 then A
    else if firstOctet <= 191 then B
    else if firstOctet <= 223 then C
    else if firstOctet <= 239 then D
    else E
  }

  /** Classful addressing read from the leading bits of the first octet:
      0 is A, 10 is B, 110 is C, 1110 is D, 1111 is E. */
  function ClassByLeadingBits(firstOctet: Octet): IpClass {
    if !Bit(firstOctet, 7) then A
    else if !Bit(firstOctet, 6) then B
    else if !Bit(firstOctet, 5) then C
    else if !Bit(firstOctet, 4) then D
    else E
  }

  /** `Bit` is the remainder of the shifted value. */
  lemma {:induction false} BitIsShiftedParity(x: nat, k: nat)
    ensures Bit(x, k) <==> (x / Pow2(k)) % 2 == 1
  {
    if k > 0 {
      BitIsShiftedParity(x / 2, k - 1);
      ModSplit(x, k);
    }
  }

  /** The threshold `match` agrees with the leading-bit definition of the
      address classes. */
  lemma ClassMatchesLeadingBits(o: Octet)
    ensures ClassOf(o) == ClassByLeadingBits(o)
  {
    assert Pow2(4) == 16 && Pow2(5) == 32 && Pow2(6) == 64 && Pow2(7) == 128;
    BitIsShiftedParity(o, 7);
    BitIsShiftedParity(o, 6);
    BitIsShiftedParity(o, 5);
    BitIsShiftedParity(o, 4);
    if o <= 127 {
      assert o / 128 == 0;
    } else if o <= 191 {
      assert o / 128 == 1 && o / 64 == 2;
    } else if o <= 223 {
      assert o / 128 == 1 && o / 64 == 3 && o / 32 == 6;
    } else if o <= 239 {
      assert o / 128 == 1 && o / 64 == 3 && o / 32 == 7 && o / 16 == 14;
    } else {
      assert o / 128 == 1 && o / 64 == 3 && o / 32 == 7 && o / 16 == 15;
    }
  }

  /** The private test on the first two octets. */
  function IsPrivate(first: nat, second: nat): bool {
    first == 10 || (first == 172 && 16 <= second <= 31) || (first == 192 && second == 168)
  }

  /** `x` lies in the block `network/m`. */
  predicate InBlock(x: u32, network: u32, m: nat)
    requires m <= 32
  {
    RoundDown(x, Pow2(32 - m)) == network
  }

  /** The private test is membership in the three blocks of section 3 of
      RFC 1918: 10.0.0.0/8, 172.16.0.0/12 and 192.168.0.0/16. */
  lemma PrivateIsRfc1918(o: seq<Octet>)
    requires |o| == 4
    ensures var x := ValueOf4(o);
      IsPrivate(o[0], o[1]) <==>
        InBlock(x, ValueOf4([10, 0, 0, 0]), 8)
        || InBlock(x, ValueOf4([172, 16, 0, 0]), 12)
        || InBlock(x, ValueOf4([192, 168, 0, 0]), 16)
  {
    assert Pow2(8) == 256 && Pow2(12) == 4096 && Pow2(16) == 65536 && Pow2(20) == 1048576;
    assert Pow2(24) == 16777216;
    var x := ValueOf4(o);
    var o0: int, o1: int := o[0], o[1];
    var m8 := o0 * 16777216;
    MultipleMod(o0, 16777216);
    RoundDownOf(x, 16777216, m8);
    var m12 := (o0 * 16 + o1 / 16) * 1048576;
    MultipleMod(o0 * 16 + o1 / 16, 1048576);
    RoundDownOf(x, 1048576, m12);
    var m16 := (o0 * 256 + o1) * 65536;
    MultipleMod(o0 * 256 + o1, 65536);
    RoundDownOf(x, 65536, m16);
  }

  /** The prefix length as the backend reads it: `parse::<u32>()`, then at
      most 32. */
  function ParsePrefix(bits: string): (r: Result<nat>)
    ensures r.Ok? <==> ParseNat(bits).Some? && ParseNat(bits).value <= 32
    ensures r.Ok? ==> r.value == ParseNat(bits).value
    ensures r == Err(PrefixUnreadable) <==> ParseU32(bits).None?
    ensures r.Err? ==> r.error == PrefixUnreadable || r.error == PrefixOutOfRange
  {
    match ParseU32(bits)
    case None => Err(PrefixUnreadable)
    case Some(m) => if m > 32 then Err(PrefixOutOfRange) else Ok(m)
  }

  /** The report's numbers before they are written as text. */
  datatype Numbers = Numbers(
    block: Block,
    hostmin: u32,
    hostmax: u32,
    hosts: int,
    ipClass: IpClass,
    isPrivate: bool)

  /** The report for an already parsed address and prefix.  A prefix of 0
      shifts a `u32` by 32, and the host-min/host-max steps leave the `u32`
      range for 255.255.255.255/32 and 0.0.0.0/32; each is an `Overflow` error
      here.  Up to /30 the host count is the number of addresses strictly
      between network and broadcast, and host min/max are the ends of that
      range; /31 and /32 report no hosts. */
  function InfoOf(o: seq<Octet>, m: nat): (r: Result<Numbers>)
    requires |o| == 4 && m <= 32
    ensures r.Err? <==> m == 0 || (m == 32 && (ValueOf4(o) == 0 || ValueOf4(o) == TWO_32 - 1))
    ensures r.Err? ==> r.error == Overflow
    ensures r.Ok? ==> 1 <= m && var n := r.value;
      && n.block == BlockOf(ValueOf4(o), m)
      && n.hostmin == n.block.network + 1
      && n.hostmax + 1 == n.block.broadcast
      && n.hosts == (if m <= 30 then n.block.broadcast - n.block.network - 1 else 0)
      && (m <= 30 ==> n.hostmin <= n.hostmax)
      && n.ipClass == ClassOf(o[0])
      && n.isPrivate == IsPrivate(o[0], o[1])
  {
    if m == 0 then Err(Overflow)
    else
      var x := PackedOctets(o);
      var b := BlockOf(x, m);
      OverflowCases(x, m);
      if b.network + 1 >= TWO_32 || b.broadcast == 0 then Err(Overflow)
      else
        if m > 30 then
          Ok(Numbers(b, b.network + 1, b.broadcast - 1, 0, ClassOf(o[0]), IsPrivate(o[0], o[1])))
        else
          BlockHosts(x, m);
          Ok(Numbers(b, b.network + 1, b.broadcast - 1, Pow2(32 - m) - 2, ClassOf(o[0]), IsPrivate(o[0], o[1])))
  }

  /** Up to /30 a block holds at least two addresses besides its network
      and broadcast address. */
  lemma BlockHosts(x: u32, m: nat)
    requires 1 <= m <= 30
    ensures var b := BlockOf(x, m); b.broadcast - b.network - 1 == Pow2(32 - m) - 2 >= 2
  {
    Pow2Monotone(2, 32 - m);
    assert Pow2(2) == 4;
  }

  /** `(o[0] << 24) | (o[1] << 16) | (o[2] << 8) | o[3]`. */
  function PackedOctets(o: seq<Octet>): (x: u32)
    requires |o| == 4
    ensures x == ValueOf4(o)
  {
    PackOctets(o[0], o[1], o[2], o[3]);
    assert [o[0], o[1], o[2], o[3]] == o;
    Pack(o[0], o[1], o[2], o[3])
  }

  /** Host min and host max stay inside 32 bits except for the two /32
      blocks at the ends of the address space. */
  lemma OverflowCases(x: u32, m: nat)
    requires 1 <= m <= 32
    ensures var b := BlockOf(x, m);
      (b.network + 1 >= TWO_32 || b.broadcast == 0) <==> (m == 32 && (x == 0 || x == TWO_32 - 1))
  {
    var b := BlockOf(x, m);
    if m < 32 {
      Pow2Monotone(1, 32 - m);
      assert Pow2(1) == 2;
    } else {
      assert Pow2(0) == 1;
      RoundDownOf(x, 1, x);
    }
  }

  datatype NetworkInfo = NetworkInfo(
    address: string,
    netmask: string,
    wildcard: string,
    network: string,
    broadcast: string,
    hostmin: string,
    hostmax: string,
    hosts: int,
    ipClass: IpClass,
    isPrivate: bool)

  /** The report as the command returns it: the address as its octets were
      read, every other address in dotted-quad text. */
  function Render(o: seq<Octet>, n: Numbers): NetworkInfo
    requires |o| == 4
  {
    NetworkInfo(
      FormatOctets(o),
      Format(n.block.netmask),
      Format(n.block.wildcard),
      Format(n.block.network),
      Format(n.block.broadcast),
      Format(n.hostmin),
      Format(n.hostmax),
      n.hosts,
      n.ipClass,
      n.isPrivate)
  }

  /** `calculate_ip_info`: the prefix is read first, then the address, then
      the report is built and written out. */
  function CalculateIpInfo(ip: string, bits: string): (r: Result<NetworkInfo>)
    ensures ParsePrefix(bits).Err? ==> r == Err(ParsePrefix(bits).error)
    ensures ParsePrefix(bits).Ok? && ParseAddress(ip, false).Err? ==> r == Err(ParseAddress(ip, false).error)
    ensures ParsePrefix(bits).Ok? && ParseAddress(ip, false).Ok? ==>
      var m := ParsePrefix(bits).value;
      var o := ParseAddress(ip, false).value;
      (r.Err? <==> InfoOf(o, m).Err?)
      && (r.Err? ==> r.error == Overflow)
      && (r.Ok? ==> r.value == Render(o, InfoOf(o, m).value))
  {
    var m :- ParsePrefix(bits);
    var o :- ParseAddress(ip, false);
    var n :- InfoOf(o, m);
    Ok(Render(o, n))
  }

  /** Every address the report writes reads back, through the same parser,
      as the number it stands for. */
  lemma ReportReadsBack(o: seq<Octet>, m: nat)
    requires |o| == 4 && m <= 32 && InfoOf(o, m).Ok?
    ensures var n := InfoOf(o, m).value; var info := Render(o, n);
      && ParseAddress(info.address, false) == Ok(o)
      && ParseAddress(info.network, false) == Ok(OctetsOf(n.block.network))
      && ParseAddress(info.broadcast, false) == Ok(OctetsOf(n.block.broadcast))
      && ParseAddress(info.netmask, false) == Ok(OctetsOf(n.block.netmask))
  {
    var n := InfoOf(o, m).value;
    ParseFormatOctets(o, false);
    ParseFormat(n.block.network, false);
    ParseFormat(n.block.broadcast, false);
    ParseFormat(n.block.netmask, false);
  }

  // ---------------------------------------------------------------------
  // generate_subnet_references

  datatype ReferenceRow = ReferenceRow(cidr: string, totalHosts: nat, usableHosts: nat, subnetMask: string)

  /** One row: `1 << (32 - prefix)` addresses, two fewer usable except at
      /31, which keeps both. */
  function ReferenceRowFor(prefix: nat): (row: ReferenceRow)
    requires 16 <= prefix <= 31
    ensures row.totalHosts == Pow2(32 - prefix)
    ensures row.usableHosts == if prefix == 31 then 2 else Pow2(32 - prefix) - 2
    ensures row.cidr == "/" + ToDecimal(prefix)
    ensures row.subnetMask == Format(MaskFor(32 - prefix))
  {
    Pow2Monotone(1, 32 - prefix);
    assert Pow2(1) == 2;
    var total := OneShl(32 - prefix);
    var usable := if prefix >= 31 then total else total - 2;
    ReferenceRow("/" + ToDecimal(prefix), total, usable, Format(MaskFor(32 - prefix)))
  }

  /** The static table: prefixes /31 down to /16. */
  function SubnetReferences(): (rows: seq<ReferenceRow>)
    ensures |rows| == 16
    ensures forall i :: 0 <= i < 16 ==> rows[i] == ReferenceRowFor(31 - i)
  {
    seq(16, i requires 0 <= i < 16 => ReferenceRowFor(31 - i))
  }

  /** Every row's mask has exactly the top `prefix` bits set, and its host
      counts follow the row's policy. */
  lemma ReferenceRowsAreMasks(i: nat, k: nat)
    requires i < 16 && k < 32
    ensures var row := SubnetReferences()[i];
      && row.totalHosts == Pow2(i + 1)
      && row.subnetMask == Format(MaskFor(i + 1))
      && (Bit(MaskFor(i + 1), k) <==> k >= i + 1)
      && row.usableHosts == (if i == 0 then row.totalHosts else row.totalHosts - 2)
  {
    MaskHasTopBits(31 - i, k);
  }

  /** The /24 row, the eighth of the table, reads 256 addresses, 254 usable,
      mask 255.255.255.0. */
  lemma ReferenceRowFor24()
    ensures ReferenceRowFor(24) == ReferenceRow("/24", 256, 254, "255.255.255.0")
  {
    Pow2Values();
    assert MaskFor(8) == 4294967040;
    FormatOfMask24();
    assert ToDecimal(24) == "24";
  }

  lemma FormatOfMask24()
    ensures Format(4294967040) == "255.255.255.0"
  {
    OctetsDetermineValue(OctetsOf(4294967040), [255, 255, 255, 0]);
    DottedMask24();
  }

  lemma DottedMask24()
    ensures FormatOctets([255, 255, 255, 0]) == "255.255.255.0"
  {
    assert ToDecimal(255) == "255" by {
      assert ToDecimal(25) == "25";
    }
    var parts := ["255", "255", "255", "0"];
    assert Join(parts[2..], '.') == "255.0";
    assert Join(parts[1..], '.') == "255.255.0";
  }

}
