/** The backend's host listing, `calculate_ips`: every address strictly
    between the network and broadcast address of a block, in ascending order,
    as dotted-quad text.
 */
module HostRange {
  import opened Results
  import opened Bits
  import opened Text
  import opened Address
  import opened Subnet

  /** The octets of the addresses `lo, lo + 1, ..., hi - 1`. */
  function HostOctets(lo: nat, hi: nat): (os: seq<Quad>)
    requires hi <= TWO_32
    ensures |os| == if hi > lo then hi - lo else 0
    ensures forall i :: 0 <= i < |os| ==> os[i] == OctetsOf(lo + i)
    decreases hi
  {
    if hi <= lo then [] else HostOctets(lo, hi - 1) + [OctetsOf(hi - 1)]
  }

  /** The addresses `lo, lo + 1, ..., hi - 1` as text; empty when `hi <= lo`. */
  function Hosts(lo: nat, hi: nat): (ips: seq<string>)
    requires hi <= TWO_32
    ensures |ips| == if hi > lo then hi - lo else 0
    ensures forall i :: 0 <= i < |ips| ==> ips[i] == Format(lo + i)
    decreases hi
  {
    if hi <= lo then [] else Hosts(lo, hi - 1) + [Format(hi - 1)]
  }

  /** Listing the octets first and writing them out afterwards gives the same
      text. */
  lemma HostsAreTexts(lo: nat, hi: nat)
    requires hi <= TWO_32
    ensures Hosts(lo, hi) == Texts(HostOctets(lo, hi))
  {
    var ips, ts := Hosts(lo, hi), Texts(HostOctets(lo, hi));
    forall i | 0 <= i < |ips|
      ensures ips[i] == ts[i]
    {
      HostAt(lo, hi, i);
    }
  }

  /** `for ip in lo..hi { valid_ips.push(format(ip)) }`. */
  method ListHosts(lo: nat, hi: nat) returns (ips: seq<string>)
    requires hi <= TWO_32
    ensures |ips| == if hi > lo then hi - lo else 0
    ensures forall i :: 0 <= i < |ips| ==> ips[i] == Format(lo + i)
  {
    ips := [];
    var ip := lo;
    while ip < hi
      invariant lo <= ip <= if hi > lo then hi else lo
      invariant |ips| == ip - lo
      invariant forall i :: 0 <= i < |ips| ==> ips[i] == Format(lo + i)
      decreases hi - ip
    {
      ips := ips + [Format(ip)];
      ip := ip + 1;
    }
  }

  /** The loop and the reference definition list the same text. */
  lemma ListHostsIsHosts(lo: nat, hi: nat, ips: seq<string>)
    requires hi <= TWO_32
    requires |ips| == (if hi > lo then hi - lo else 0)
    requires forall i :: 0 <= i < |ips| ==> ips[i] == Format(lo + i)
    ensures ips == Hosts(lo, hi)
  {
  }

  /** A text is listed exactly when it is an address in `[lo, hi)`. */
  lemma HostsMembership(lo: nat, hi: nat, s: string)
    requires hi <= TWO_32
    ensures s in Hosts(lo, hi) <==> exists x: u32 :: lo <= x < hi && s == Format(x)
  {
    var ips := Hosts(lo, hi);
    if s in ips {
      var i :| 0 <= i < |ips| && ips[i] == s;
      assert lo <= lo + i < hi && s == Format(lo + i);
    }
    if exists x: u32 :: lo <= x < hi && s == Format(x) {
      var x: u32 :| lo <= x < hi && s == Format(x);
      assert ips[x - lo] == s;
    }
  }

  /** No address is listed twice. */
  lemma HostsDistinct(lo: nat, hi: nat, i: nat, j: nat)
    requires hi <= TWO_32
    requires i < j < |Hosts(lo, hi)|
    ensures Hosts(lo, hi)[i] != Hosts(lo, hi)[j]
  {
    var ips := Hosts(lo, hi);
    HostAt(lo, hi, i);
    HostAt(lo, hi, j);
    TextsDiffer(lo + i, lo + j, ips[i], ips[j]);
  }

  lemma HostAt(lo: nat, hi: nat, i: nat)
    requires hi <= TWO_32 && i < |Hosts(lo, hi)|
    ensures Hosts(lo, hi)[i] == Format(lo + i)
  {
  }

  lemma TextsDiffer(x: u32, y: u32, s: string, t: string)
    requires s == Format(x) && t == Format(y) && x != y
    ensures s != t
  {
    if s == t {
      FormatInjective(x, y);
    }
  }

  /** The hosts of a block: every address strictly between its network and
      broadcast address, each written out from its octets (`Hosts` is the
      same list, by `HostsAreTexts`). */
  function HostsBetween(network: u32, broadcast: u32): (ts: seq<string>)
    ensures |ts| == if network < broadcast then broadcast - network - 1 else 0
  {
    Texts(HostOctets(network + 1, broadcast))
  }

  /** A text is among the hosts of a block exactly when it is an address
      strictly between the network and the broadcast address. */
  lemma HostsBetweenMembership(network: u32, broadcast: u32, s: string)
    ensures s in HostsBetween(network, broadcast) <==>
      exists y: u32 :: network < y < broadcast && s == Format(y)
  {
    if s in HostsBetween(network, broadcast) {
      var y := ListedHost(network, broadcast, s);
    }
    if exists y: u32 :: network < y < broadcast && s == Format(y) {
      var y: u32 :| network < y < broadcast && s == Format(y);
      HostsBetweenAt(network, broadcast, y);
    }
  }

  lemma ListedHost(network: u32, broadcast: u32, s: string) returns (y: u32)
    requires s in HostsBetween(network, broadcast)
    ensures network < y < broadcast && s == Format(y)
  {
    var ts := HostsBetween(network, broadcast);
    var i :| 0 <= i < |ts| && ts[i] == s;
    y := network + 1 + i;
    HostsBetweenAt(network, broadcast, y);
  }

  lemma HostsBetweenAt(network: u32, broadcast: u32, y: u32)
    requires network < y < broadcast
    ensures |HostsBetween(network, broadcast)| == broadcast - network - 1
    ensures HostsBetween(network, broadcast)[y - network - 1] == Format(y)
  {
    var os := HostOctets(network + 1, broadcast);
    assert os[y - network - 1] == OctetsOf(y);
  }

  /** `calculate_ips`: the prefix is read first, then the address (an empty
      part counts as 0), then the block is listed.  A prefix of 0 shifts a
      `u32` by 32 and `network + 1` leaves the `u32` range for
      255.255.255.255/32; both are `Overflow` errors. */
  function CalculateIps(ipAddress: string, subnetMask: string): (r: Result<seq<string>>)
    ensures ParsePrefix(subnetMask).Err? ==> r == Err(ParsePrefix(subnetMask).error)
    ensures ParsePrefix(subnetMask).Ok? && ParseAddress(ipAddress, true).Err? ==>
      r == Err(ParseAddress(ipAddress, true).error)
    ensures ParsePrefix(subnetMask).Ok? && ParseAddress(ipAddress, true).Ok? ==>
      var m := ParsePrefix(subnetMask).value;
      var x := ValueOf4(ParseAddress(ipAddress, true).value);
      (r.Err? <==> m == 0 || (m == 32 && x == TWO_32 - 1))
      && (r.Err? ==> r.error == Overflow)
      && (r.Ok? ==> var b := BlockOf(x, m); r.value == HostsBetween(b.network, b.broadcast))
  {
    var m :- ParsePrefix(subnetMask);
    var o :- ParseAddress(ipAddress, true);
    if m == 0 then Err(Overflow)
    else
      var x := PackedOctets(o);
      var b := BlockOf(x, m);
      OverflowCases(x, m);
      if b.network + 1 >= TWO_32 then Err(Overflow)
      else Ok(HostsBetween(b.network, b.broadcast))
  }

  /** Every listed address lies in the block of the input: it masks to the
      same network and is neither the network nor the broadcast address. */
  lemma ListedHostsInBlock(ipAddress: string, subnetMask: string, s: string)
    requires CalculateIps(ipAddress, subnetMask).Ok?
    requires s in CalculateIps(ipAddress, subnetMask).value
    ensures var m := ParsePrefix(subnetMask).value;
      var b := BlockOf(ValueOf4(ParseAddress(ipAddress, true).value), m);
      exists y: u32 :: (s == Format(y) && b.network < y < b.broadcast
        && BlockOf(y, m).network == b.network)
  {
    var m := ParsePrefix(subnetMask).value;
    var x := ValueOf4(ParseAddress(ipAddress, true).value);
    var b := BlockOf(x, m);
    HostsBetweenMembership(b.network, b.broadcast, s);
    var y: u32 :| b.network < y < b.broadcast && s == Format(y);
    SameNetwork(x, y, m);
  }

  /** The list holds `2^(32 - m) - 2` addresses up to /30 and none at /31 and
      /32. */
  lemma HostsCount(ipAddress: string, subnetMask: string)
    requires CalculateIps(ipAddress, subnetMask).Ok?
    ensures var m := ParsePrefix(subnetMask).value;
      |CalculateIps(ipAddress, subnetMask).value| == if m <= 30 then Pow2(32 - m) - 2 else 0
  {
    var m := ParsePrefix(subnetMask).value;
    var b := BlockOf(ValueOf4(ParseAddress(ipAddress, true).value), m);
    assert CalculateIps(ipAddress, subnetMask).value == HostsBetween(b.network, b.broadcast);
    BlockHostCount(b, m);
  }

  lemma BlockHostCount(b: Block, m: nat)
    requires 1 <= m <= 32 && b.broadcast == b.network + Pow2(32 - m) - 1
    ensures |HostsBetween(b.network, b.broadcast)| == if m <= 30 then Pow2(32 - m) - 2 else 0
  {
    if m <= 30 {
      Pow2Monotone(2, 32 - m);
      assert Pow2(2) == 4;
    } else if m == 31 {
      assert Pow2(1) == 2;
    } else {
      assert Pow2(0) == 1;
    }
  }
}
