/** The backend's VLAN allocation, `calculate_vlans`: the VLSM placement of
    `calculate_vlsm_subnets` applied to VLAN configurations, each block's
    first address becoming the VLAN's gateway, plus a Cisco configuration
    script with one section per VLAN.
 */
module Vlan {
  import opened Results
  import opened Bits
  import opened Decimal
  import opened Text
  import opened Address
  import opened Subnet
  import opened Sorting
  import opened Vlsm

  /** A VLAN to allocate, as the form submits it. */
  datatype VlanConfig = VlanConfig(vlanId: u32, vlanName: string, requiredHosts: u32)

  /** A VLAN's block: its subnet row, whose first host is the gateway, and the
      first address handed to a device, the one after the gateway. */
  datatype VlanNumbers = VlanNumbers(config: VlanConfig, subnet: SubnetNumbers, firstHost: u32)

  /** One allocation as the command returns it. */
  datatype VlanAllocation = VlanAllocation(
    vlanId: u32,
    vlanName: string,
    network: string,
    cidr: nat,
    subnetMask: string,
    gateway: string,
    firstHost: string,
    lastHost: string,
    broadcast: string,
    usableHosts: nat)

  /** The sort key of a configuration: its host requirement. */
  function Required(c: VlanConfig): nat {
    c.requiredHosts
  }

  /** The host requirements of the configurations, in order. */
  function NeedsOf(cs: seq<VlanConfig>): (needs: seq<nat>)
    ensures |needs| == |cs| && forall i :: 0 <= i < |cs| ==> needs[i] == cs[i].requiredHosts
  {
    seq(|cs|, i requires 0 <= i < |cs| => cs[i].requiredHosts as nat)
  }

  /** The configurations the rows were made for, in row order. */
  function ConfigsOf(vs: seq<VlanNumbers>): (cs: seq<VlanConfig>)
    ensures |cs| == |vs| && forall i :: 0 <= i < |vs| ==> cs[i] == vs[i].config
  {
    seq(|vs|, i requires 0 <= i < |vs| => vs[i].config)
  }

  /** A placed block as a VLAN's numbers: `gateway = network + 1`,
      `first_host = network + 2`, the rest as in the VLSM row. */
  function VlanOf(c: VlanConfig, s: Slot): VlanNumbers
    requires Renderable(s)
  {
    var n := NumbersOf(c.requiredHosts, s);
    Pow2Monotone(2, s.hostBits);
    assert Pow2(2) == 4;
    VlanNumbers(c, n, n.firstHost + 1)
  }

  function VlansOf(sorted: seq<VlanConfig>, slots: seq<Slot>): (vs: seq<VlanNumbers>)
    requires |sorted| == |slots| && forall i :: 0 <= i < |slots| ==> Renderable(slots[i])
    ensures |vs| == |slots| && forall i :: 0 <= i < |slots| ==> vs[i] == VlanOf(sorted[i], slots[i])
  {
    seq(|slots|, i requires 0 <= i < |slots| => VlanOf(sorted[i], slots[i]))
  }

  /** The loop of `calculate_vlans` over the sorted configurations: a block
      that does not fit names the VLAN it was sized for. */
  function AllocateVlans(base: u32, sorted: seq<VlanConfig>, baseCidr: nat): (r: Result<seq<VlanNumbers>>)
    ensures r.Ok? ==> |r.value| == |sorted|
    ensures r.Ok? ==> forall i :: 0 <= i < |sorted| ==> r.value[i].config == sorted[i]
  {
    var needs := NeedsOf(sorted);
    var p := Place(base, needs, baseCidr);
    if p.Overflowed? then Err(Overflow)
    else if p.TooLarge? then
      RefusedRequirement(base, needs, baseCidr);
      var c := sorted[p.index];
      Err(CannotAllocateVlan(c.vlanId, c.requiredHosts, baseCidr))
    else
      SlotsRenderable(base, needs, baseCidr);
      Ok(VlansOf(sorted, p.slots))
  }

  /** The VLAN loop places exactly the blocks the VLSM loop places for the
      same requirements: the same success, the same rows, the same overflow,
      and a refusal of the same requirement. */
  lemma AllocateVlansIsAllocate(base: u32, sorted: seq<VlanConfig>, baseCidr: nat)
    ensures var r := AllocateVlans(base, sorted, baseCidr);
      var a := Allocate(base, NeedsOf(sorted), baseCidr);
      && (r.Ok? <==> a.Ok?)
      && (r.Ok? ==> forall i :: 0 <= i < |sorted| ==>
            r.value[i].subnet == a.value[i] && r.value[i].firstHost == a.value[i].firstHost + 1)
      && (r == Err(Overflow) <==> a == Err(Overflow))
      && (r.Err? && r.error.CannotAllocateVlan? ==>
            exists c :: c in sorted && r.error.vlanId == c.vlanId
              && a == Err(CannotAllocate(c.requiredHosts, baseCidr)) && r.error.requiredHosts == c.requiredHosts)
      && (a.Err? && a.error.CannotAllocate? ==> r.Err? && r.error.CannotAllocateVlan?)
  {
    var needs := NeedsOf(sorted);
    var p := Place(base, needs, baseCidr);
    if p.Placed? {
      SlotsRenderable(base, needs, baseCidr);
      assert AllocateVlans(base, sorted, baseCidr) == Ok(VlansOf(sorted, p.slots));
      assert Allocate(base, needs, baseCidr) == Ok(NumbersAll(needs, p.slots));
    } else if p.TooLarge? {
      RefusedRequirement(base, needs, baseCidr);
      var c := sorted[p.index];
      assert AllocateVlans(base, sorted, baseCidr) == Err(CannotAllocateVlan(c.vlanId, c.requiredHosts, baseCidr));
      assert Allocate(base, needs, baseCidr) == Err(CannotAllocate(needs[p.index], baseCidr));
    }
  }

  /** The numbers of `calculate_vlans`: the base prefix is checked first, then
      the base address is read (every part must be a number, at most 255),
      then the configurations are sorted by host requirement, largest first,
      and placed from the base address. */
  function VlanNumbersOf(baseNetwork: string, baseCidr: u32, configs: seq<VlanConfig>)
    : (r: Result<seq<VlanNumbers>>)
    ensures baseCidr > 32 ==> r == Err(PrefixOutOfRange)
    ensures baseCidr <= 32 && ParseAddress(baseNetwork, false).Err? ==>
      r == Err(ParseAddress(baseNetwork, false).error)
    ensures r.Ok? ==> |r.value| == |configs|
  {
    if baseCidr > 32 then Err(PrefixOutOfRange)
    else
      var o :- ParseAddress(baseNetwork, false);
      AllocateVlans(PackedOctets(o), SortDescending(configs, Required), baseCidr)
  }

  /** A VLAN's numbers in dotted-quad text; the gateway is the subnet's first
      host. */
  function WriteVlan(v: VlanNumbers): VlanAllocation {
    var n := v.subnet;
    VlanAllocation(v.config.vlanId, v.config.vlanName, Format(n.network), n.cidr, Format(n.netmask),
      Format(n.firstHost), Format(v.firstHost), Format(n.lastHost), Format(n.broadcast), n.usableHosts)
  }

  function WriteVlans(vs: seq<VlanNumbers>): (allocs: seq<VlanAllocation>)
    ensures |allocs| == |vs| && forall i :: 0 <= i < |vs| ==> allocs[i] == WriteVlan(vs[i])
  {
    seq(|vs|, i requires 0 <= i < |vs| => WriteVlan(vs[i]))
  }

  // ---------------------------------------------------------------------
  // The configuration script

  /** The section of the script for one VLAN: its lines, each ended by a
      line feed. */
  function Commands(a: VlanAllocation): string {
    Terminated(SectionLines(a))
  }

  /** The script: the sections of the allocations, in allocation order. */
  function Script(allocs: seq<VlanAllocation>): string {
    if |allocs| == 0 then "" else Commands(allocs[0]) + Script(allocs[1..])
  }

  /** The twelve lines of one section, without their line feeds; the last
      one is empty. */
  function SectionLines(a: VlanAllocation): (lines: seq<string>)
    ensures |lines| == 12
  {
    ["! Configuration for VLAN " + ToDecimal(a.vlanId) + " - " + a.vlanName,
     "enable",
     "configure terminal",
     "vlan " + ToDecimal(a.vlanId),
     "name " + a.vlanName,
     "exit",
     "interface vlan " + ToDecimal(a.vlanId),
     "ip address " + a.gateway + " " + a.subnetMask,
     "no shutdown",
     "exit",
     "exit",
     ""]
  }

  /** The lines of every section, in allocation order. */
  function ScriptLines(allocs: seq<VlanAllocation>): seq<string> {
    if |allocs| == 0 then [] else SectionLines(allocs[0]) + ScriptLines(allocs[1..])
  }

  /** Each line followed by a line feed. */
  function Terminated(lines: seq<string>): string {
    if |lines| == 0 then "" else lines[0] + "\n" + Terminated(lines[1..])
  }

  /** No line break inside the texts a section interpolates. */
  predicate SingleLine(a: VlanAllocation) {
    '\n' !in a.vlanName && '\n' !in a.gateway && '\n' !in a.subnetMask
  }

  /** Lines ended by line feeds, then more text: read line by line, the
      lines and then the lines of the text. */
  lemma {:induction false} SplitTerminated(lines: seq<string>, t: string)
    requires forall i :: 0 <= i < |lines| ==> '\n' !in lines[i]
    ensures Split(Terminated(lines) + t, '\n') == lines + Split(t, '\n')
    decreases |lines|
  {
    if |lines| > 0 {
      var rest := Terminated(lines[1..]) + t;
      assert Terminated(lines) + t == lines[0] + ['\n'] + rest;
      SplitPrefix(lines[0], rest, '\n');
      SplitTerminated(lines[1..], t);
      HeadThenTail(lines, Split(t, '\n'));
    } else {
      assert Terminated(lines) + t == t;
    }
  }

  lemma HeadThenTail<T>(x: seq<T>, u: seq<T>)
    requires |x| > 0
    ensures [x[0]] + (x[1..] + u) == x + u
  {
    assert x == [x[0]] + x[1..];
  }

  /** Decimal text has no line break. */
  lemma DecimalSingleLine(n: nat)
    ensures '\n' !in ToDecimal(n)
  {
  }

  /** No line of a section holds a line break. */
  lemma SectionSingleLines(a: VlanAllocation)
    requires SingleLine(a)
    ensures forall i :: 0 <= i < |SectionLines(a)| ==> '\n' !in SectionLines(a)[i]
  {
    DecimalSingleLine(a.vlanId);
  }

  /** Read line by line, the script is each allocation's twelve lines in
      turn, followed by the empty text after the last line feed. */
  lemma {:induction false} ScriptSplits(allocs: seq<VlanAllocation>)
    requires forall i :: 0 <= i < |allocs| ==> SingleLine(allocs[i])
    ensures Split(Script(allocs), '\n') == ScriptLines(allocs) + [""]
    decreases |allocs|
  {
    if |allocs| > 0 {
      var rest := allocs[1..];
      assert forall i :: 0 <= i < |rest| ==> SingleLine(rest[i]) by {
        forall i | 0 <= i < |rest|
          ensures SingleLine(rest[i])
        {
          assert rest[i] == allocs[i + 1];
        }
      }
      ScriptSplits(rest);
      SectionSingleLines(allocs[0]);
      SplitTerminated(SectionLines(allocs[0]), Script(rest));
      assert SectionLines(allocs[0]) + (ScriptLines(rest) + [""]) == ScriptLines(allocs) + [""];
    } else {
      assert Split("", '\n') == [""];
    }
  }

  // ---------------------------------------------------------------------
  // The command

  /** `calculate_vlans`: the allocations in text and their script. */
  function CalculateVlans(baseNetwork: string, baseCidr: u32, configs: seq<VlanConfig>)
    : (r: Result<(seq<VlanAllocation>, string)>)
    ensures var n := VlanNumbersOf(baseNetwork, baseCidr, configs);
      && (r.Ok? <==> n.Ok?)
      && (r.Err? ==> r.error == n.error)
      && (r.Ok? ==> r.value.0 == WriteVlans(n.value) && r.value.1 == Script(r.value.0))
  {
    var vs :- VlanNumbersOf(baseNetwork, baseCidr, configs);
    var allocs := WriteVlans(vs);
    Ok((allocs, Script(allocs)))
  }

  // ---------------------------------------------------------------------
  // What the allocations mean

  /** What a successful allocation returns: one row per configuration,
      sorted by host requirement, largest first, VLANs with equal
      requirements in their input order; each row the smallest block holding
      its requirement, no larger than the base prefix allows, with the
      gateway at `network + 1` and the first device at `network + 2`; the
      blocks back to back, the first one being the block of its size that
      contains the base address. */
  lemma VlanRows(baseNetwork: string, baseCidr: u32, configs: seq<VlanConfig>)
    requires VlanNumbersOf(baseNetwork, baseCidr, configs).Ok?
    ensures var vs := VlanNumbersOf(baseNetwork, baseCidr, configs).value;
      && multiset(ConfigsOf(vs)) == multiset(configs)
      && Descending(ConfigsOf(vs), Required)
      && (forall k: nat :: WithKey(ConfigsOf(vs), Required, k) == WithKey(configs, Required, k))
      && (forall i :: 0 <= i < |vs| ==> VlanBlock(vs[i], baseCidr))
      && BackToBack(vs)
      && StartsAt(vs, ValueOf4(ParseAddress(baseNetwork, false).value))
  {
    var o := ParseAddress(baseNetwork, false).value;
    var base := PackedOctets(o);
    assert VlanNumbersOf(baseNetwork, baseCidr, configs) == AllocateVlans(base, SortDescending(configs, Required), baseCidr);
    SortedLayout(base, configs, baseCidr);
  }

  /** `VlanRows` from a packed base address. */
  lemma SortedLayout(base: u32, configs: seq<VlanConfig>, baseCidr: nat)
    requires AllocateVlans(base, SortDescending(configs, Required), baseCidr).Ok?
    ensures var vs := AllocateVlans(base, SortDescending(configs, Required), baseCidr).value;
      && multiset(ConfigsOf(vs)) == multiset(configs)
      && Descending(ConfigsOf(vs), Required)
      && (forall k: nat :: WithKey(ConfigsOf(vs), Required, k) == WithKey(configs, Required, k))
      && (forall i :: 0 <= i < |vs| ==> VlanBlock(vs[i], baseCidr))
      && BackToBack(vs)
      && StartsAt(vs, base)
  {
    var sorted := SortDescending(configs, Required);
    var vs := AllocateVlans(base, sorted, baseCidr).value;
    assert ConfigsOf(vs) == sorted;
    forall k: nat
      ensures WithKey(sorted, Required, k) == WithKey(configs, Required, k)
    {
      SortIsStable(configs, Required, k);
    }
    AllocatedVlans(base, sorted, baseCidr);
  }

  /** A VLAN's block is the smallest that holds its requirement and no
      larger than the base prefix allows; its gateway is the block's first
      address after the network address and its first device the next one. */
  predicate VlanBlock(v: VlanNumbers, baseCidr: nat) {
    && Describes(v.subnet) && Sized(v.subnet, baseCidr)
    && v.subnet.requiredHosts == v.config.requiredHosts
    && v.subnet.firstHost == v.subnet.network + 1
    && v.firstHost == v.subnet.network + 2
  }

  /** The first block is the block of its size that contains `base`. */
  predicate StartsAt(vs: seq<VlanNumbers>, base: u32) {
    |vs| > 0 ==> vs[0].subnet.cidr <= 32 && vs[0].subnet.network == RoundDown(base, Pow2(32 - vs[0].subnet.cidr))
  }

  /** Every VLAN's block begins right after the previous VLAN's broadcast
      address. */
  predicate BackToBack(vs: seq<VlanNumbers>) {
    forall i, j :: 0 <= i < |vs| && 0 <= j < |vs| && j == i + 1 ==>
      vs[j].subnet.network == vs[i].subnet.broadcast + 1
  }

  /** The rows of a placement of sorted configurations. */
  lemma AllocatedVlans(base: u32, sorted: seq<VlanConfig>, baseCidr: nat)
    requires AllocateVlans(base, sorted, baseCidr).Ok? && Descending(sorted, Required)
    ensures var vs := AllocateVlans(base, sorted, baseCidr).value;
      && (forall i :: 0 <= i < |vs| ==> VlanBlock(vs[i], baseCidr))
      && BackToBack(vs)
      && StartsAt(vs, base)
  {
    var needs := NeedsOf(sorted);
    SortedNeedsOf(sorted);
    AllocateVlansIsAllocate(base, sorted, baseCidr);
    AllocatedRows(base, needs, baseCidr);
    var vs := AllocateVlans(base, sorted, baseCidr).value;
    var ns := Allocate(base, needs, baseCidr).value;
    forall i, j | 0 <= i < |vs| && 0 <= j < |vs| && j == i + 1
      ensures vs[j].subnet.network == vs[i].subnet.broadcast + 1
    {
      assert ns[j].network == ns[j - 1].broadcast + 1;
    }
    forall i | 0 <= i < |vs|
      ensures VlanBlock(vs[i], baseCidr)
    {
      assert Describes(ns[i]) && Sized(ns[i], baseCidr) && vs[i].subnet == ns[i];
    }
  }

  /** Sorted configurations have non-increasing requirements. */
  lemma SortedNeedsOf(sorted: seq<VlanConfig>)
    requires Descending(sorted, Required)
    ensures NonIncreasing(NeedsOf(sorted))
  {
    var needs := NeedsOf(sorted);
    forall i, j | 0 <= i < j < |needs|
      ensures needs[i] >= needs[j]
    {
      assert Required(sorted[i]) >= Required(sorted[j]);
    }
  }

  /** No VLAN asks for more hosts than the one at `j`. */
  predicate MostHosts(cs: seq<VlanConfig>, j: nat)
    requires j < |cs|
  {
    forall i :: 0 <= i < |cs| ==> cs[i].requiredHosts <= cs[j].requiredHosts
  }

  /** The first VLAN, in input order, sorted to the front: one with the most
      hosts, and no earlier VLAN asks for as many. */
  lemma {:induction false} SortedHead(configs: seq<VlanConfig>) returns (j: nat)
    requires |configs| > 0
    ensures j < |configs| && SortDescending(configs, Required)[0] == configs[j]
    ensures MostHosts(configs, j)
    ensures forall i :: 0 <= i < j ==> configs[i].requiredHosts < configs[j].requiredHosts
  {
    j := SortedFirst(configs, Required);
    forall i | 0 <= i < |configs|
      ensures configs[i].requiredHosts <= configs[j].requiredHosts
    {
      assert Required(configs[i]) <= Required(configs[j]);
    }
  }

  /** With a valid base prefix and address, the allocation is refused
      exactly when a VLAN with the most hosts needs a block larger than the
      base prefix allows, and the refusal names the first such VLAN in input
      order. */
  lemma VlanRefusal(baseNetwork: string, baseCidr: u32, configs: seq<VlanConfig>)
    requires baseCidr <= 32 && ParseAddress(baseNetwork, false).Ok?
    ensures var r := VlanNumbersOf(baseNetwork, baseCidr, configs);
      (r.Err? && r.error.CannotAllocateVlan?) <==>
        (exists j :: 0 <= j < |configs| && MostHosts(configs, j) && Oversized(configs[j].requiredHosts, baseCidr))
    ensures var r := VlanNumbersOf(baseNetwork, baseCidr, configs);
      r.Err? && r.error.CannotAllocateVlan? ==>
        exists j :: 0 <= j < |configs|
          && MostHosts(configs, j)
          && (forall i :: 0 <= i < j ==> configs[i].requiredHosts < configs[j].requiredHosts)
          && Oversized(configs[j].requiredHosts, baseCidr)
          && r.error == CannotAllocateVlan(configs[j].vlanId, configs[j].requiredHosts, baseCidr)
  {
    var o := ParseAddress(baseNetwork, false).value;
    var base := PackedOctets(o);
    var sorted := SortDescending(configs, Required);
    var needs := NeedsOf(sorted);
    assert VlanNumbersOf(baseNetwork, baseCidr, configs) == AllocateVlans(base, sorted, baseCidr);
    if |configs| > 0 {
      var j := SortedHead(configs);
      if exists j' :: 0 <= j' < |configs| && MostHosts(configs, j') && Oversized(configs[j'].requiredHosts, baseCidr) {
        var j' :| 0 <= j' < |configs| && MostHosts(configs, j') && Oversized(configs[j'].requiredHosts, baseCidr);
        assert configs[j].requiredHosts == configs[j'].requiredHosts;
        assert StepAt(base, needs[0], baseCidr).Refused?;
        assert Place(base, needs, baseCidr) == TooLarge(0);
      }
      var p := Place(base, needs, baseCidr);
      if p.TooLarge? {
        SortedNeedsOf(sorted);
        RefusedIsLargest(base, needs, baseCidr);
        RefusedRequirement(base, needs, baseCidr);
        assert AllocateVlans(base, sorted, baseCidr)
          == Err(CannotAllocateVlan(configs[j].vlanId, configs[j].requiredHosts, baseCidr));
      }
    } else {
      assert Place(base, needs, baseCidr) == Placed([]);
    }
  }

  /** No VLAN, no allocation and no script, once the base is valid. */
  lemma NoVlans(baseNetwork: string, baseCidr: u32)
    requires baseCidr <= 32 && ParseAddress(baseNetwork, false).Ok?
    ensures CalculateVlans(baseNetwork, baseCidr, []) == Ok(([], ""))
  {
    var o := ParseAddress(baseNetwork, false).value;
    assert SortDescending([], Required) == [];
    assert Place(PackedOctets(o), NeedsOf([]), baseCidr) == Placed([]);
  }

  /** Every address text of an allocation reads back, through the address
      parser, as the address it was written from. */
  lemma WriteVlanReadsBack(v: VlanNumbers)
    ensures var a := WriteVlan(v);
      && ParseAddress(a.network, false) == Ok(OctetsOf(v.subnet.network))
      && ParseAddress(a.subnetMask, false) == Ok(OctetsOf(v.subnet.netmask))
      && ParseAddress(a.gateway, false) == Ok(OctetsOf(v.subnet.firstHost))
      && ParseAddress(a.firstHost, false) == Ok(OctetsOf(v.firstHost))
      && ParseAddress(a.lastHost, false) == Ok(OctetsOf(v.subnet.lastHost))
      && ParseAddress(a.broadcast, false) == Ok(OctetsOf(v.subnet.broadcast))
  {
    ParseFormat(v.subnet.network, false);
    ParseFormat(v.subnet.netmask, false);
    ParseFormat(v.subnet.firstHost, false);
    ParseFormat(v.firstHost, false);
    ParseFormat(v.subnet.lastHost, false);
    ParseFormat(v.subnet.broadcast, false);
  }

  /** Dotted-quad text has no line break. */
  lemma FormatSingleLine(x: u32)
    ensures '\n' !in Format(x)
  {
    var o := OctetsOf(x);
    JoinFour(ToDecimal(o[0]), ToDecimal(o[1]), ToDecimal(o[2]), ToDecimal(o[3]), '.');
  }

  /** The script of a successful command: for each allocation in turn, its
      twelve lines, naming its id and name and configuring its gateway and
      mask; the names are taken as typed, so this holds when no name holds a
      line break. */
  lemma VlanScript(baseNetwork: string, baseCidr: u32, configs: seq<VlanConfig>)
    requires CalculateVlans(baseNetwork, baseCidr, configs).Ok?
    requires forall i :: 0 <= i < |configs| ==> '\n' !in configs[i].vlanName
    ensures var allocs := CalculateVlans(baseNetwork, baseCidr, configs).value.0;
      && Split(CalculateVlans(baseNetwork, baseCidr, configs).value.1, '\n') == ScriptLines(allocs) + [""]
      && |ScriptLines(allocs)| == 12 * |allocs|
      && forall i, k :: 0 <= i < |allocs| && 0 <= k < 12 ==>
           ScriptLines(allocs)[12 * i + k] == SectionLines(allocs[i])[k]
  {
    var vs := VlanNumbersOf(baseNetwork, baseCidr, configs).value;
    var allocs := WriteVlans(vs);
    assert CalculateVlans(baseNetwork, baseCidr, configs) == Ok((allocs, Script(allocs)));
    VlanRows(baseNetwork, baseCidr, configs);
    WrittenSingleLine(vs, configs);
    ScriptStructure(allocs);
  }

  /** The script's lines, section by section. */
  lemma ScriptStructure(allocs: seq<VlanAllocation>)
    requires forall i :: 0 <= i < |allocs| ==> SingleLine(allocs[i])
    ensures Split(Script(allocs), '\n') == ScriptLines(allocs) + [""]
    ensures |ScriptLines(allocs)| == 12 * |allocs|
    ensures forall i, k :: 0 <= i < |allocs| && 0 <= k < 12 ==>
      ScriptLines(allocs)[12 * i + k] == SectionLines(allocs[i])[k]
  {
    ScriptSplits(allocs);
    ScriptLinesAt(allocs);
  }

  /** The written allocations of configurations without line breaks in
      their names have no line break in what the script interpolates. */
  lemma WrittenSingleLine(vs: seq<VlanNumbers>, configs: seq<VlanConfig>)
    requires multiset(ConfigsOf(vs)) == multiset(configs)
    requires forall i :: 0 <= i < |configs| ==> '\n' !in configs[i].vlanName
    ensures forall i :: 0 <= i < |vs| ==> SingleLine(WriteVlans(vs)[i])
  {
    var cs := ConfigsOf(vs);
    forall i | 0 <= i < |vs|
      ensures SingleLine(WriteVlans(vs)[i])
    {
      assert cs[i] in multiset(configs);
      var j :| 0 <= j < |configs| && configs[j] == cs[i];
      FormatSingleLine(vs[i].subnet.firstHost);
      FormatSingleLine(vs[i].subnet.netmask);
    }
  }

  /** Section `i` occupies lines `12 i` to `12 i + 11`. */
  lemma {:induction false} ScriptLinesAt(allocs: seq<VlanAllocation>)
    ensures |ScriptLines(allocs)| == 12 * |allocs|
    ensures forall i, k :: 0 <= i < |allocs| && 0 <= k < 12 ==>
      ScriptLines(allocs)[12 * i + k] == SectionLines(allocs[i])[k]
    decreases |allocs|
  {
    if |allocs| > 0 {
      var rest := allocs[1..];
      var head := SectionLines(allocs[0]);
      ScriptLinesAt(rest);
      assert ScriptLines(allocs) == head + ScriptLines(rest);
      forall i, k | 0 <= i < |allocs| && 0 <= k < 12
        ensures ScriptLines(allocs)[12 * i + k] == SectionLines(allocs[i])[k]
      {
        if i > 0 {
          assert allocs[i] == rest[i - 1];
          assert 12 * i + k == 12 + (12 * (i - 1) + k);
        }
      }
    }
  }

  /** The backend never looks at VLAN ids: two VLANs sharing the id 0, which
      is both repeated and outside 1 to 4094, are allocated all the same. */
  lemma IdsUnchecked()
    ensures AllocateVlans(0, [VlanConfig(0, "a", 2), VlanConfig(0, "b", 2)], 24).Ok?
  {
    var cs := [VlanConfig(0, "a", 2), VlanConfig(0, "b", 2)];
    assert NeedsOf(cs) == [2, 2];
    TwoSmallBlocksFit();
    AllocateVlansIsAllocate(0, cs, 24);
  }

  /** Two blocks of 4 addresses from 0.0.0.0/24 fit. */
  lemma TwoSmallBlocksFit()
    ensures Allocate(0, [2, 2], 24).Ok?
  {
    HostBitsAre(2, 2);
    assert Pow2(2) == 4;
    assert Demand([2]) == 4;
    assert Demand([2, 2]) == 8;
    PlacedIffRoom(0, [2, 2], 24);
  }
}
