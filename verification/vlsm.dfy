/** The backend's VLSM allocator, `calculate_vlsm_subnets`, and the block
    sizing and placement it shares with the VLAN allocator.

    The requirements are sorted largest first.  Each gets the smallest block
    of at least four addresses that holds it plus a network and a broadcast
    address; the block is placed by masking a cursor, which starts at the
    base address and moves to the end of each block placed.  Masking rounds
    the cursor down, and nothing checks that a block stays inside the base
    network: the base prefix only bounds the size of each block.
 */
module Vlsm {
  import opened Results
  import opened Bits
  import opened Address
  import opened Subnet
  import opened Sorting

  // ---------------------------------------------------------------------
  // Sizing

  /** The least `r >= h` with `2^r >= needed`. */
  function SmallestBits(needed: nat, h: nat): (r: nat)
    ensures h <= r && needed <= Pow2(r)
    ensures r > h ==> Pow2(r - 1) < needed
    decreases needed - Pow2(h)
  {
    if needed <= Pow2(h) then h else SmallestBits(needed, h + 1)
  }

  /** The host bits of the smallest block of at least four addresses that
      holds `required` hosts plus network and broadcast. */
  function BlockBits(required: nat): (h: nat)
    ensures 2 <= h && required + 2 <= Pow2(h)
    ensures h > 2 ==> Pow2(h - 1) < required + 2
  {
    SmallestBits(required + 2, 2)
  }

  /** The block size for a requirement, `2^BlockBits(required)`. */
  function BlockSize(required: nat): nat {
    Pow2(BlockBits(required))
  }

  /** The sizing steps of one requirement: `required_hosts + 2` and the
      doubling of `subnet_size` stay within `u32` exactly when the block has
      at most 2^31 addresses; past that a debug build panics. */
  function HostBits(required: nat): (r: Result<nat>)
    ensures r.Ok? <==> required + 2 <= Pow2(31)
    ensures r.Ok? ==> r.value == BlockBits(required) && 2 <= r.value <= 31
    ensures r.Err? ==> r.error == Overflow
  {
    var h := BlockBits(required);
    FitsIn31Bits(required);
    if h <= 31 then Ok(h) else Err(Overflow)
  }

  lemma FitsIn31Bits(required: nat)
    ensures BlockBits(required) <= 31 <==> required + 2 <= Pow2(31)
  {
    LeastPowerBound(required + 2, BlockBits(required), 31);
  }

  /** The least power of two at or above `needed` is at most `2^k` exactly
      when `needed` is. */
  lemma LeastPowerBound(needed: nat, h: nat, k: nat)
    requires 2 <= h && k >= 2 && needed <= Pow2(h) && (h > 2 ==> Pow2(h - 1) < needed)
    ensures h <= k <==> needed <= Pow2(k)
  {
    if h <= k {
      Pow2Monotone(h, k);
    } else {
      Pow2Monotone(k, h - 1);
    }
  }

  /** The sizing loop as written: `total_needed = required_hosts + 2`, then
      `subnet_size` doubles from 4 until it holds `total_needed`, and the
      host bits are the base-2 logarithm of the size. */
  method SubnetSize(required: u32) returns (r: Result<nat>)
    ensures r == HostBits(required)
  {
    Pow2Values();
    if required + 2 >= TWO_32 {
      return Err(Overflow);
    }
    var totalNeeded := required + 2;
    var subnetSize := 4;
    var hostBits := 2;
    assert Pow2(2) == 4;
    while subnetSize < totalNeeded
      invariant 2 <= hostBits <= 31 && subnetSize == Pow2(hostBits)
      invariant hostBits > 2 ==> Pow2(hostBits - 1) < totalNeeded
      decreases TWO_32 - subnetSize
    {
      if subnetSize * 2 >= TWO_32 {
        return Err(Overflow);
      }
      subnetSize := subnetSize * 2;
      hostBits := hostBits + 1;
    }
    BitsDetermined(required, hostBits);
    Pow2Monotone(hostBits, 31);
    r := Ok(hostBits);
  }

  /** The least power satisfying the bound is unique. */
  lemma BitsDetermined(required: nat, h: nat)
    requires 2 <= h && required + 2 <= Pow2(h) && (h > 2 ==> Pow2(h - 1) < required + 2)
    ensures BlockBits(required) == h
  {
    var b := BlockBits(required);
    if b < h {
      Pow2Monotone(b, h - 1);
    } else if h < b {
      Pow2Monotone(h, b - 1);
    }
  }

  /** A larger requirement never gets a smaller block. */
  lemma BlockBitsMonotone(a: nat, b: nat)
    requires a >= b
    ensures BlockBits(a) >= BlockBits(b)
  {
    var ha, hb := BlockBits(a), BlockBits(b);
    if ha < hb {
      Pow2Monotone(ha, hb - 1);
    }
  }

  /** The block sizing promised to the caller: at most a /30, room for the
      requirement among the usable hosts, and no block twice as large would
      be needed: the next smaller block could not hold it. */
  lemma BlockSizing(required: nat)
    requires HostBits(required).Ok?
    ensures var h := HostBits(required).value;
      && 32 - h <= 30
      && required <= Pow2(h) - 2
      && (h > 2 ==> Pow2(h - 1) - 2 < required)
  {
  }

  // ---------------------------------------------------------------------
  // Placement

  /** A placed block: its host bits and its addresses. */
  datatype Slot = Slot(hostBits: nat, block: Block)

  /** Where the cursor goes after the block: `network + subnet_size`. */
  function End(s: Slot): int {
    s.block.network + Pow2(s.hostBits)
  }

  /** The outcome of the placement loop: every requirement placed, the
      requirement at `index` needing a block larger than the base prefix
      allows, or a `u32` overflow. */
  datatype Placement = Placed(slots: seq<Slot>) | TooLarge(index: nat) | Overflowed

  /** The slot the allocator gives a requirement when the cursor stands at
      `at`: the block of the requirement's size that contains `at`, no larger
      than the base prefix allows and ending within the `u32` range. */
  predicate SlotFits(need: nat, baseCidr: nat, at: int, s: Slot) {
    && HostBits(need) == Ok(s.hostBits)
    && baseCidr <= 32 - s.hostBits
    && 0 <= at < TWO_32
    && s.block == BlockOf(at, 32 - s.hostBits)
    && End(s) < TWO_32
  }

  /** Where the cursor stands when slot `i` is placed. */
  function CursorAt(cursor: u32, slots: seq<Slot>, i: nat): int
    requires i <= |slots|
  {
    if i == 0 then cursor else End(slots[i - 1])
  }

  /** The slots of a placement from `cursor`: the first block contains the
      cursor and each later block contains the end of the one before. */
  predicate PlacedFrom(cursor: u32, needs: seq<nat>, baseCidr: nat, slots: seq<Slot>) {
    && |slots| == |needs|
    && (|slots| > 0 ==> SlotFits(needs[0], baseCidr, cursor, slots[0]))
    && forall i, j :: 0 <= i < |slots| && 0 <= j < |slots| && j == i + 1 ==>
         SlotFits(needs[j], baseCidr, End(slots[i]), slots[j])
  }

  /** One pass of the allocation loop for one requirement. */
  datatype Step = Fits(slot: Slot) | Refused | Overflows

  /** Sizing the block, checking it against the base prefix, masking the
      cursor and advancing it past the block. */
  function StepAt(cursor: u32, need: nat, baseCidr: nat): (s: Step)
    ensures s.Fits? ==> SlotFits(need, baseCidr, cursor, s.slot)
    ensures s.Refused? <==> Oversized(need, baseCidr)
  {
    match HostBits(need)
    case Err(_) => Overflows
    case Ok(h) =>
      if 32 - h < baseCidr then Refused
      else
        var b := BlockOf(cursor, 32 - h);
        if b.network + Pow2(h) >= TWO_32 then Overflows else Fits(Slot(h, b))
  }

  /** The allocation loop, for the requirements in the order given, from the
      cursor.  After the last block the cursor still advances, so a block
      ending at 2^32 overflows. */
  function Place(cursor: u32, needs: seq<nat>, baseCidr: nat): (p: Placement)
    ensures p.Placed? ==> |p.slots| == |needs|
    decreases |needs|
  {
    if |needs| == 0 then Placed([])
    else
      match StepAt(cursor, needs[0], baseCidr)
      case Refused => TooLarge(0)
      case Overflows => Overflowed
      case Fits(s) =>
        match Place(End(s), needs[1..], baseCidr)
        case Placed(rest) => Placed([s] + rest)
        case TooLarge(i) => TooLarge(i + 1)
        case Overflowed => Overflowed
  }

  /** Every placed requirement sits in the block of its size that contains
      the cursor, and the cursor moves to the end of each block. */
  lemma {:induction false} PlacedSlots(cursor: u32, needs: seq<nat>, baseCidr: nat)
    requires Place(cursor, needs, baseCidr).Placed?
    ensures PlacedFrom(cursor, needs, baseCidr, Place(cursor, needs, baseCidr).slots)
    decreases |needs|
  {
    if |needs| > 0 {
      var step := StepAt(cursor, needs[0], baseCidr);
      assert step.Fits?;
      var next := End(step.slot);
      var inner := Place(next, needs[1..], baseCidr);
      assert inner.Placed?;
      var rest := inner.slots;
      var slots := Place(cursor, needs, baseCidr).slots;
      assert slots == [step.slot] + rest;
      PlacedSlots(next, needs[1..], baseCidr);
      forall i, j | 0 <= i < |slots| && 0 <= j < |slots| && j == i + 1
        ensures SlotFits(needs[j], baseCidr, End(slots[i]), slots[j])
      {
        assert needs[j] == needs[1..][j - 1] && slots[j] == rest[j - 1];
        if i > 0 {
          assert slots[i] == rest[i - 1];
        }
      }
    }
  }

  /** The slot at `i` of a placement, on its own. */
  lemma SlotAt(cursor: u32, needs: seq<nat>, baseCidr: nat, slots: seq<Slot>, i: nat)
    requires PlacedFrom(cursor, needs, baseCidr, slots) && i < |slots|
    ensures SlotFits(needs[i], baseCidr, CursorAt(cursor, slots, i), slots[i])
  {
    if i > 0 {
      var h := i - 1;
      assert SlotFits(needs[h + 1], baseCidr, End(slots[h]), slots[h + 1]);
    }
  }

  /** The requirement's block is no larger than the base prefix allows. */
  predicate Admitted(need: nat, baseCidr: nat) {
    HostBits(need).Ok? && baseCidr <= 32 - HostBits(need).value
  }

  /** The requirement's block is sized but larger than the base prefix
      allows. */
  predicate Oversized(need: nat, baseCidr: nat) {
    HostBits(need).Ok? && 32 - HostBits(need).value < baseCidr
  }

  /** A requirement is refused only when its block is larger than the base
      prefix allows, and every requirement before it fitted. */
  lemma {:induction false} RefusedRequirement(cursor: u32, needs: seq<nat>, baseCidr: nat)
    requires Place(cursor, needs, baseCidr).TooLarge?
    ensures var k := Place(cursor, needs, baseCidr).index;
      k < |needs| && Oversized(needs[k], baseCidr)
      && forall j :: 0 <= j < k ==> Admitted(needs[j], baseCidr)
    decreases |needs|
  {
    var step := StepAt(cursor, needs[0], baseCidr);
    if step.Fits? {
      var next := End(step.slot);
      RefusedRequirement(next, needs[1..], baseCidr);
      var k := Place(next, needs[1..], baseCidr).index;
      assert Place(cursor, needs, baseCidr).index == k + 1;
      assert Admitted(needs[0], baseCidr);
      forall j | 0 < j < k + 1
        ensures Admitted(needs[j], baseCidr)
      {
        assert needs[j] == needs[1..][j - 1];
      }
      assert needs[k + 1] == needs[1..][k];
    }
  }

  // ---------------------------------------------------------------------
  // Layout of the placed blocks

  /** Requirements never grow from left to right, as after the sort. */
  predicate NonIncreasing(needs: seq<nat>) {
    forall i, j :: 0 <= i < j < |needs| ==> needs[i] >= needs[j]
  }

  /** Every block starts where the one before it ends. */
  predicate Chained(slots: seq<Slot>) {
    forall i, j :: 0 <= i < |slots| && 0 <= j < |slots| && j == i + 1 ==> slots[j].block.network == End(slots[i])
  }

  /** A multiple of `2^a` is a multiple of every smaller power of two. */
  lemma AlignedToSmaller(m: nat, a: nat, b: nat)
    requires b <= a && m % Pow2(a) == 0
    ensures m % Pow2(b) == 0
  {
    Pow2Add(a - b, b);
    assert a - b + b == a;
    MultipleOfFactor(m, Pow2(a), Pow2(b), Pow2(a - b));
  }

  lemma MultipleOfFactor(m: nat, big: nat, small: nat, q: nat)
    requires small > 0 && big > 0 && big == q * small && m % big == 0
    ensures m % small == 0
  {
    var k := m / big;
    assert m == big * k;
    assert big * k == small * (q * k);
    DivModUnique(m, small, q * k, 0);
  }

  /** An aligned block ends on a multiple of its size. */
  lemma EndAligned(s: Slot)
    requires s.block.network % Pow2(s.hostBits) == 0
    ensures End(s) % Pow2(s.hostBits) == 0
  {
    var p := Pow2(s.hostBits);
    var k := s.block.network / p;
    assert End(s) == (k + 1) * p;
    MultipleMod(k + 1, p);
  }

  /** Sorted largest first, every block after the first starts exactly where
      the previous one ends: the end of a block is a multiple of its size,
      hence of every smaller size, so masking it changes nothing. */
  lemma Contiguous(cursor: u32, needs: seq<nat>, baseCidr: nat)
    requires Place(cursor, needs, baseCidr).Placed? && NonIncreasing(needs)
    ensures Chained(Place(cursor, needs, baseCidr).slots)
  {
    var slots := Place(cursor, needs, baseCidr).slots;
    PlacedSlots(cursor, needs, baseCidr);
    forall i, j | 0 <= i < |slots| && 0 <= j < |slots| && j == i + 1
      ensures slots[j].block.network == End(slots[i])
    {
      var prev, s := slots[i], slots[j];
      SlotAt(cursor, needs, baseCidr, slots, i);
      assert SlotFits(needs[j], baseCidr, End(prev), s);
      BlockBitsMonotone(needs[i], needs[j]);
      EndAligned(prev);
      AlignedToSmaller(End(prev), prev.hostBits, s.hostBits);
      RoundDownOf(End(prev), Pow2(s.hostBits), End(prev));
    }
  }

  /** Sorted largest first, only the first requirement can be refused: every
      later one needs a block no larger than it. */
  lemma RefusedIsLargest(cursor: u32, needs: seq<nat>, baseCidr: nat)
    requires Place(cursor, needs, baseCidr).TooLarge? && NonIncreasing(needs)
    ensures Place(cursor, needs, baseCidr).index == 0
  {
    RefusedRequirement(cursor, needs, baseCidr);
    var k := Place(cursor, needs, baseCidr).index;
    if k > 0 {
      SmallerAdmitted(needs[0], needs[k], baseCidr);
      assert false;
    }
  }

  /** A requirement no larger than an admitted one is admitted. */
  lemma SmallerAdmitted(a: nat, b: nat, baseCidr: nat)
    requires a >= b && Admitted(a, baseCidr)
    ensures Admitted(b, baseCidr)
  {
    BlockBitsMonotone(a, b);
  }

  // ---------------------------------------------------------------------
  // calculate_vlsm_subnets

  /** The numbers behind one row of the result. */
  datatype SubnetNumbers = SubnetNumbers(
    network: u32,
    cidr: nat,
    netmask: u32,
    firstHost: u32,
    lastHost: u32,
    broadcast: u32,
    requiredHosts: nat,
    usableHosts: nat)

  /** One row of the result, as the command returns it. */
  datatype VlsmSubnet = VlsmSubnet(
    network: string,
    cidr: nat,
    subnetMask: string,
    firstHost: string,
    lastHost: string,
    broadcast: string,
    requiredHosts: nat,
    usableHosts: nat)

  /** A slot as the allocator leaves it: a block of 4 to 2^31 addresses whose
      broadcast address ends it. */
  predicate Renderable(s: Slot) {
    2 <= s.hostBits <= 31 && s.block.broadcast == s.block.network + Pow2(s.hostBits) - 1
  }

  /** A block's row: `first_host = network + 1`, `last_host = broadcast - 1`,
      `usable_hosts = subnet_size - 2`, `cidr = 32 - host_bits`. */
  function NumbersOf(required: nat, s: Slot): SubnetNumbers
    requires Renderable(s)
  {
    Pow2Monotone(2, s.hostBits);
    assert Pow2(2) == 4;
    var b := s.block;
    SubnetNumbers(b.network, 32 - s.hostBits, b.netmask, b.network + 1, b.broadcast - 1,
      b.broadcast, required, Pow2(s.hostBits) - 2)
  }

  /** Every address of a row in dotted-quad text. */
  function WriteSubnet(n: SubnetNumbers): VlsmSubnet {
    VlsmSubnet(Format(n.network), n.cidr, Format(n.netmask), Format(n.firstHost),
      Format(n.lastHost), Format(n.broadcast), n.requiredHosts, n.usableHosts)
  }

  /** Every text of a row reads back, through the address parser, as the
      address it was written from. */
  lemma WriteReadsBack(n: SubnetNumbers)
    ensures var sub := WriteSubnet(n);
      && ParseAddress(sub.network, false) == Ok(OctetsOf(n.network))
      && ParseAddress(sub.subnetMask, false) == Ok(OctetsOf(n.netmask))
      && ParseAddress(sub.firstHost, false) == Ok(OctetsOf(n.firstHost))
      && ParseAddress(sub.lastHost, false) == Ok(OctetsOf(n.lastHost))
      && ParseAddress(sub.broadcast, false) == Ok(OctetsOf(n.broadcast))
  {
    ParseFormat(n.network, false);
    ParseFormat(n.netmask, false);
    ParseFormat(n.firstHost, false);
    ParseFormat(n.lastHost, false);
    ParseFormat(n.broadcast, false);
  }

  /** The sort key of a host requirement: the requirement itself. */
  function Requirement(x: u32): nat {
    x
  }

  /** The sorted requirements never grow from left to right. */
  lemma SortedNeeds(requirements: seq<u32>)
    ensures NonIncreasing(SortDescending(requirements, Requirement))
  {
    var sorted := SortDescending(requirements, Requirement);
    assert forall i, j :: 0 <= i < j < |sorted| ==> Requirement(sorted[i]) >= Requirement(sorted[j]);
  }

  /** The loop's outcome as the command's result: a block that does not fit
      names the sorted requirement it was sized for. */
  function Allocate(base: u32, sorted: seq<nat>, baseCidr: nat): (r: Result<seq<SubnetNumbers>>)
    ensures r.Ok? ==> |r.value| == |sorted|
    ensures r.Ok? ==> forall i :: 0 <= i < |sorted| ==> r.value[i].requiredHosts == sorted[i]
  {
    var p := Place(base, sorted, baseCidr);
    if p.Overflowed? then Err(Overflow)
    else if p.TooLarge? then
      RefusedRequirement(base, sorted, baseCidr);
      Err(CannotAllocate(sorted[p.index], baseCidr))
    else
      SlotsRenderable(base, sorted, baseCidr);
      Ok(NumbersAll(sorted, p.slots))
  }

  lemma SlotsRenderable(base: u32, sorted: seq<nat>, baseCidr: nat)
    requires Place(base, sorted, baseCidr).Placed?
    ensures var slots := Place(base, sorted, baseCidr).slots;
      forall i :: 0 <= i < |slots| ==> Renderable(slots[i])
  {
    var slots := Place(base, sorted, baseCidr).slots;
    PlacedSlots(base, sorted, baseCidr);
    forall i | 0 <= i < |slots|
      ensures Renderable(slots[i])
    {
      SlotAt(base, sorted, baseCidr, slots, i);
    }
  }

  function NumbersAll(sorted: seq<nat>, slots: seq<Slot>): (ns: seq<SubnetNumbers>)
    requires |sorted| == |slots| && forall i :: 0 <= i < |slots| ==> Renderable(slots[i])
    ensures |ns| == |slots|
    ensures forall i :: 0 <= i < |slots| ==> ns[i] == NumbersOf(sorted[i], slots[i])
  {
    seq(|slots|, i requires 0 <= i < |slots| => NumbersOf(sorted[i], slots[i]))
  }

  /** The numbers of `calculate_vlsm_subnets`: the base prefix is checked
      first, then the base address is read (every part must be a number, at
      most 255), then the requirements are sorted largest first and placed
      from the base address. */
  function VlsmNumbers(baseNetwork: string, baseCidr: u32, hostRequirements: seq<u32>)
    : (r: Result<seq<SubnetNumbers>>)
    ensures baseCidr > 32 ==> r == Err(PrefixOutOfRange)
    ensures baseCidr <= 32 && ParseAddress(baseNetwork, false).Err? ==>
      r == Err(ParseAddress(baseNetwork, false).error)
    ensures r.Ok? ==> |r.value| == |hostRequirements|
  {
    if baseCidr > 32 then Err(PrefixOutOfRange)
    else
      var o :- ParseAddress(baseNetwork, false);
      Allocate(PackedOctets(o), SortDescending(hostRequirements, Requirement), baseCidr)
  }

  function WriteAll(ns: seq<SubnetNumbers>): (subs: seq<VlsmSubnet>)
    ensures |subs| == |ns| && forall i :: 0 <= i < |ns| ==> subs[i] == WriteSubnet(ns[i])
  {
    seq(|ns|, i requires 0 <= i < |ns| => WriteSubnet(ns[i]))
  }

  /** `calculate_vlsm_subnets`: the rows of `VlsmNumbers`, written out. */
  function CalculateVlsmSubnets(baseNetwork: string, baseCidr: u32, hostRequirements: seq<u32>)
    : (r: Result<seq<VlsmSubnet>>)
    ensures var n := VlsmNumbers(baseNetwork, baseCidr, hostRequirements);
      && (r.Ok? <==> n.Ok?)
      && (r.Err? ==> r.error == n.error)
      && (r.Ok? ==> r.value == WriteAll(n.value))
  {
    var ns :- VlsmNumbers(baseNetwork, baseCidr, hostRequirements);
    Ok(WriteAll(ns))
  }

  // ---------------------------------------------------------------------
  // What the rows mean

  /** The row describes the aligned block of `2^(32 - cidr)` addresses at its
      network address: all but the first and last address are usable. */
  predicate Describes(n: SubnetNumbers) {
    && n.cidr <= 30
    && var size := Pow2(32 - n.cidr);
      && n.network % size == 0 && n.network + size <= TWO_32
      && n.netmask == TWO_32 - size
      && n.firstHost == n.network + 1
      && n.lastHost == n.network + size - 2
      && n.broadcast == n.network + size - 1
      && n.usableHosts == size - 2
  }

  /** The row's block is the smallest that holds its requirement, and no
      larger than the base prefix allows. */
  predicate Sized(n: SubnetNumbers, baseCidr: nat) {
    && baseCidr <= n.cidr <= 30
    && n.requiredHosts <= n.usableHosts
    && (n.cidr < 30 ==> Pow2(31 - n.cidr) - 2 < n.requiredHosts)
  }

  /** Every row's block begins right after the previous row's broadcast
      address. */
  predicate Adjacent(ns: seq<SubnetNumbers>) {
    forall i, j :: 0 <= i < |ns| && 0 <= j < |ns| && j == i + 1 ==> ns[j].network == ns[i].broadcast + 1
  }

  /** Every row describes its block and is sized for its requirement. */
  predicate RowsSized(ns: seq<SubnetNumbers>, baseCidr: nat) {
    forall i :: 0 <= i < |ns| ==> Describes(ns[i]) && Sized(ns[i], baseCidr)
  }

  /** The first row's block is the block of its size holding `base`. */
  predicate StartsAt(ns: seq<SubnetNumbers>, base: nat) {
    |ns| > 0 ==> ns[0].cidr <= 32 && ns[0].network == RoundDown(base, Pow2(32 - ns[0].cidr))
  }

  /** The requirements the rows were sized for, in row order. */
  function RequiredOf(ns: seq<SubnetNumbers>): (req: seq<nat>)
    ensures |req| == |ns| && forall i :: 0 <= i < |ns| ==> req[i] == ns[i].requiredHosts
  {
    seq(|ns|, i requires 0 <= i < |ns| => ns[i].requiredHosts)
  }

  /** A placed block's row describes the block. */
  lemma DescribesSlot(need: nat, baseCidr: nat, at: int, s: Slot)
    requires SlotFits(need, baseCidr, at, s)
    ensures var n := NumbersOf(need, s);
      && Describes(n) && Sized(n, baseCidr)
      && n.network == s.block.network && n.broadcast + 1 == End(s)
      && n.cidr <= 32 && n.network == RoundDown(at, Pow2(32 - n.cidr))
  {
    var h := s.hostBits;
    var n := NumbersOf(need, s);
    assert 32 - n.cidr == h && 31 - n.cidr == h - 1;
  }

  /** Adjacent rows are in ascending order and disjoint: each broadcast
      address lies below the network address of every later row. */
  lemma {:induction false} RowsAscending(ns: seq<SubnetNumbers>, i: nat, j: nat)
    requires Adjacent(ns) && forall k :: 0 <= k < |ns| ==> Describes(ns[k])
    requires i < j < |ns|
    ensures ns[i].broadcast < ns[j].network
    decreases j - i
  {
    if j > i + 1 {
      RowsAscending(ns, i, j - 1);
      var h := j - 1;
      assert Describes(ns[h]) && ns[j].network == ns[h].broadcast + 1;
    }
  }

  /** The rows of a placement of sorted requirements. */
  lemma AllocatedRows(base: u32, sorted: seq<nat>, baseCidr: nat)
    requires Allocate(base, sorted, baseCidr).Ok? && NonIncreasing(sorted)
    ensures var ns := Allocate(base, sorted, baseCidr).value;
      RowsSized(ns, baseCidr) && Adjacent(ns) && StartsAt(ns, base)
  {
    var p := Place(base, sorted, baseCidr);
    assert p.Placed?;
    SlotsRenderable(base, sorted, baseCidr);
    PlacedSlots(base, sorted, baseCidr);
    Contiguous(base, sorted, baseCidr);
    RowsOfSlots(base, sorted, baseCidr, p.slots);
    var ns := NumbersAll(sorted, p.slots);
    assert Allocate(base, sorted, baseCidr) == Ok(ns);
  }

  lemma RowsOfSlots(base: u32, sorted: seq<nat>, baseCidr: nat, slots: seq<Slot>)
    requires PlacedFrom(base, sorted, baseCidr, slots) && Chained(slots)
    requires forall i :: 0 <= i < |slots| ==> Renderable(slots[i])
    ensures var ns := NumbersAll(sorted, slots);
      RowsSized(ns, baseCidr) && Adjacent(ns) && StartsAt(ns, base)
  {
    var ns := NumbersAll(sorted, slots);
    forall i | 0 <= i < |ns|
      ensures Describes(ns[i]) && Sized(ns[i], baseCidr)
    {
      SlotAt(base, sorted, baseCidr, slots, i);
      DescribesSlot(sorted[i], baseCidr, CursorAt(base, slots, i), slots[i]);
    }
    RowsAdjacent(base, sorted, baseCidr, slots);
    if |ns| > 0 {
      SlotAt(base, sorted, baseCidr, slots, 0);
      DescribesSlot(sorted[0], baseCidr, base, slots[0]);
    }
  }

  lemma RowsAdjacent(base: u32, sorted: seq<nat>, baseCidr: nat, slots: seq<Slot>)
    requires PlacedFrom(base, sorted, baseCidr, slots) && Chained(slots)
    requires forall i :: 0 <= i < |slots| ==> Renderable(slots[i])
    ensures Adjacent(NumbersAll(sorted, slots))
  {
    var ns := NumbersAll(sorted, slots);
    forall h, i | 0 <= h < |ns| && 0 <= i < |ns| && i == h + 1
      ensures ns[i].network == ns[h].broadcast + 1
    {
      SlotAt(base, sorted, baseCidr, slots, h);
      DescribesSlot(sorted[h], baseCidr, CursorAt(base, slots, h), slots[h]);
      assert slots[i].block.network == End(slots[h]);
      assert ns[i].network == slots[i].block.network;
    }
  }

  /** What a successful allocation returns: one row per requirement, largest
      first; each row the smallest block holding its requirement, no larger
      than the base prefix allows; the blocks back to back, the first one
      being the block of its size that contains the base address. */
  lemma VlsmRows(baseNetwork: string, baseCidr: u32, hostRequirements: seq<u32>)
    requires VlsmNumbers(baseNetwork, baseCidr, hostRequirements).Ok?
    ensures var ns := VlsmNumbers(baseNetwork, baseCidr, hostRequirements).value;
      && multiset(RequiredOf(ns)) == multiset(hostRequirements)
      && NonIncreasing(RequiredOf(ns))
      && RowsSized(ns, baseCidr)
      && Adjacent(ns)
      && StartsAt(ns, ValueOf4(ParseAddress(baseNetwork, false).value))
  {
    var o := ParseAddress(baseNetwork, false).value;
    var sorted := SortDescending(hostRequirements, Requirement);
    var ns := Allocate(PackedOctets(o), sorted, baseCidr).value;
    assert RequiredOf(ns) == sorted;
    SortedNeeds(hostRequirements);
    AllocatedRows(PackedOctets(o), sorted, baseCidr);
  }

  /** No requirement is larger than `x`. */
  predicate Largest(x: nat, requirements: seq<u32>) {
    forall y :: y in requirements ==> y <= x
  }

  /** The first of a sorted list is the largest of its input. */
  lemma FirstIsLargest(requirements: seq<u32>)
    requires |requirements| > 0
    ensures var sorted := SortDescending(requirements, Requirement);
      sorted[0] in requirements && Largest(sorted[0], requirements)
  {
    var sorted := SortDescending(requirements, Requirement);
    SortedNeeds(requirements);
    assert sorted[0] in multiset(sorted);
    forall y | y in requirements
      ensures y <= sorted[0]
    {
      assert y in multiset(requirements);
      var j :| 0 <= j < |sorted| && sorted[j] == y;
      if j > 0 {
        assert sorted[0] >= sorted[j];
      }
    }
  }

  /** With a valid base prefix and address, the allocation is refused
      exactly when the largest requirement needs a block larger than the
      base prefix allows, and the refusal names that requirement. */
  lemma VlsmRefusal(baseNetwork: string, baseCidr: u32, hostRequirements: seq<u32>)
    requires baseCidr <= 32 && ParseAddress(baseNetwork, false).Ok?
    ensures var r := VlsmNumbers(baseNetwork, baseCidr, hostRequirements);
      (r.Err? && r.error.CannotAllocate?) <==>
        (exists x :: x in hostRequirements && Largest(x, hostRequirements) && Oversized(x, baseCidr))
    ensures var r := VlsmNumbers(baseNetwork, baseCidr, hostRequirements);
      r.Err? && r.error.CannotAllocate? ==>
        && r.error.baseCidr == baseCidr
        && r.error.requiredHosts in hostRequirements
        && Largest(r.error.requiredHosts, hostRequirements)
        && Oversized(r.error.requiredHosts, baseCidr)
  {
    var o := ParseAddress(baseNetwork, false).value;
    var base := PackedOctets(o);
    var sorted := SortDescending(hostRequirements, Requirement);
    SortedNeeds(hostRequirements);
    assert VlsmNumbers(baseNetwork, baseCidr, hostRequirements) == Allocate(base, sorted, baseCidr);
    if exists x :: x in hostRequirements && Largest(x, hostRequirements) && Oversized(x, baseCidr) {
      var x :| x in hostRequirements && Largest(x, hostRequirements) && Oversized(x, baseCidr);
      RefusesLargest(base, hostRequirements, baseCidr, x);
    }
    if Allocate(base, sorted, baseCidr).Err? && Allocate(base, sorted, baseCidr).error.CannotAllocate? {
      RefusalNamesLargest(base, hostRequirements, baseCidr);
    }
  }

  lemma RefusesLargest(base: u32, requirements: seq<u32>, baseCidr: nat, x: nat)
    requires x in requirements && Largest(x, requirements) && Oversized(x, baseCidr)
    ensures var sorted := SortDescending(requirements, Requirement);
      Allocate(base, sorted, baseCidr) == Err(CannotAllocate(x, baseCidr))
  {
    var sorted := SortDescending(requirements, Requirement);
    FirstIsLargest(requirements);
    assert x <= sorted[0] && sorted[0] <= x;
    assert StepAt(base, sorted[0], baseCidr).Refused?;
    assert Place(base, sorted, baseCidr) == TooLarge(0);
  }

  lemma RefusalNamesLargest(base: u32, requirements: seq<u32>, baseCidr: nat)
    requires var r := Allocate(base, SortDescending(requirements, Requirement), baseCidr);
      r.Err? && r.error.CannotAllocate?
    ensures var r := Allocate(base, SortDescending(requirements, Requirement), baseCidr);
      && r.error.baseCidr == baseCidr
      && r.error.requiredHosts in requirements
      && Largest(r.error.requiredHosts, requirements)
      && Oversized(r.error.requiredHosts, baseCidr)
  {
    var sorted := SortDescending(requirements, Requirement);
    var p := Place(base, sorted, baseCidr);
    assert p.TooLarge?;
    SortedNeeds(requirements);
    RefusedIsLargest(base, sorted, baseCidr);
    RefusedRequirement(base, sorted, baseCidr);
    FirstIsLargest(requirements);
    assert Allocate(base, sorted, baseCidr) == Err(CannotAllocate(sorted[0], baseCidr));
  }

  // ---------------------------------------------------------------------
  // When the allocation succeeds

  /** The addresses the blocks of the requirements take together. */
  function Demand(needs: seq<nat>): nat {
    if |needs| == 0 then 0 else BlockSize(needs[0]) + Demand(needs[1..])
  }

  /** Sorted largest first, every block admitted by the base prefix, and the
      cursor on a boundary of the first block: the placement succeeds
      exactly when the blocks end below 2^32, and overflows otherwise. */
  lemma {:induction false} PlacedIffRoom(cursor: u32, needs: seq<nat>, baseCidr: nat)
    requires NonIncreasing(needs)
    requires forall i :: 0 <= i < |needs| ==> Admitted(needs[i], baseCidr)
    requires |needs| > 0 ==> cursor % BlockSize(needs[0]) == 0
    ensures Place(cursor, needs, baseCidr).Placed? <==> cursor + Demand(needs) < TWO_32
    ensures !Place(cursor, needs, baseCidr).Placed? ==> Place(cursor, needs, baseCidr).Overflowed?
    decreases |needs|
  {
    if |needs| > 0 {
      assert Admitted(needs[0], baseCidr);
      var h := BlockBits(needs[0]);
      RoundDownOf(cursor, Pow2(h), cursor);
      var step := StepAt(cursor, needs[0], baseCidr);
      var next := cursor + Pow2(h);
      if next < TWO_32 {
        assert step.Fits? && End(step.slot) == next;
        var rest := needs[1..];
        assert NonIncreasing(rest) by {
          forall i, j | 0 <= i < j < |rest|
            ensures rest[i] >= rest[j]
          {
            assert rest[i] == needs[i + 1] && rest[j] == needs[j + 1];
          }
        }
        forall i | 0 <= i < |rest|
          ensures Admitted(rest[i], baseCidr)
        {
          assert rest[i] == needs[i + 1];
        }
        if |rest| > 0 {
          BlockBitsMonotone(needs[0], rest[0]);
          EndAligned(step.slot);
          AlignedToSmaller(next, h, BlockBits(rest[0]));
        }
        PlacedIffRoom(next, rest, baseCidr);
      } else {
        assert step.Overflows?;
      }
    }
  }

  /** Demand adds up over a concatenation. */
  lemma {:induction false} DemandConcat(u: seq<nat>, v: seq<nat>)
    ensures Demand(u + v) == Demand(u) + Demand(v)
    decreases |u|
  {
    if |u| == 0 {
      assert u + v == v;
    } else {
      assert (u + v)[0] == u[0] && (u + v)[1..] == u[1..] + v;
      DemandConcat(u[1..], v);
    }
  }

  /** The order of the requirements does not change their demand. */
  lemma {:induction false} DemandOfPermutation(a: seq<nat>, b: seq<nat>)
    requires multiset(a) == multiset(b)
    ensures Demand(a) == Demand(b)
    decreases |a|
  {
    if |a| == 0 {
      assert |b| == |multiset(b)| == 0;
    } else {
      var x := a[0];
      assert x in multiset(b);
      var j :| 0 <= j < |b| && b[j] == x;
      var rest := b[..j] + b[j + 1..];
      assert b == b[..j] + [x] + b[j + 1..];
      assert a == [x] + a[1..];
      assert multiset(b) == multiset(b[..j]) + multiset{x} + multiset(b[j + 1..]);
      assert multiset(a) == multiset{x} + multiset(a[1..]);
      assert multiset(rest) == multiset(b[..j]) + multiset(b[j + 1..]);
      assert multiset(a[1..]) == multiset(a) - multiset{x};
      assert multiset(a[1..]) == multiset(rest);
      DemandOfPermutation(a[1..], rest);
      DemandConcat(b[..j] + [x], b[j + 1..]);
      DemandConcat(b[..j], [x]);
      DemandConcat(b[..j], b[j + 1..]);
      assert Demand([x]) == BlockSize(x);
    }
  }

  /** With a valid base prefix and address, every requirement admitted by the
      base prefix and the base address on a boundary of every block: the
      allocation succeeds exactly when the blocks together end below 2^32,
      and otherwise fails with an overflow. */
  lemma VlsmSucceeds(baseNetwork: string, baseCidr: u32, hostRequirements: seq<u32>)
    requires baseCidr <= 32 && ParseAddress(baseNetwork, false).Ok?
    requires forall x :: x in hostRequirements ==> Admitted(x, baseCidr)
    requires forall x :: x in hostRequirements ==>
      ValueOf4(ParseAddress(baseNetwork, false).value) % BlockSize(x) == 0
    ensures var r := VlsmNumbers(baseNetwork, baseCidr, hostRequirements);
      && (r.Ok? <==> ValueOf4(ParseAddress(baseNetwork, false).value) + Demand(hostRequirements) < TWO_32)
      && (r.Err? ==> r.error == Overflow)
  {
    var o := ParseAddress(baseNetwork, false).value;
    var base := PackedOctets(o);
    var sorted := SortDescending(hostRequirements, Requirement);
    assert VlsmNumbers(baseNetwork, baseCidr, hostRequirements) == Allocate(base, sorted, baseCidr);
    SortedNeeds(hostRequirements);
    forall i | 0 <= i < |sorted|
      ensures Admitted(sorted[i], baseCidr)
    {
      assert sorted[i] in multiset(hostRequirements);
    }
    if |sorted| > 0 {
      assert sorted[0] in multiset(hostRequirements);
    }
    PlacedIffRoom(base, sorted, baseCidr);
    DemandOfPermutation(sorted, hostRequirements);
  }

  /** A row's prefix is the one its requirement is sized to. */
  lemma SizedPrefix(n: SubnetNumbers, baseCidr: nat)
    requires Describes(n) && Sized(n, baseCidr)
    ensures 32 - n.cidr == BlockBits(n.requiredHosts)
  {
    var h := 32 - n.cidr;
    assert h - 1 == 31 - n.cidr;
    BitsDetermined(n.requiredHosts, h);
  }

  // ---------------------------------------------------------------------
  // Worked examples

  /** A requirement's host bits, from the least power of two holding it. */
  lemma HostBitsAre(required: nat, h: nat)
    requires 2 <= h <= 31 && required + 2 <= Pow2(h) && (h > 2 ==> Pow2(h - 1) < required + 2)
    ensures HostBits(required) == Ok(h)
  {
    BitsDetermined(required, h);
    Pow2Monotone(h, 31);
  }

  /** A cursor already on a boundary of the block size is where the block
      goes. */
  lemma StepFromBoundary(cursor: u32, need: nat, baseCidr: nat, h: nat)
    requires HostBits(need) == Ok(h) && baseCidr <= 32 - h
    requires cursor % Pow2(h) == 0 && cursor + Pow2(h) < TWO_32
    ensures StepAt(cursor, need, baseCidr).Fits?
    ensures var s := StepAt(cursor, need, baseCidr).slot;
      s.hostBits == h && s.block.network == cursor && End(s) == cursor + Pow2(h)
  {
    RoundDownOf(cursor, Pow2(h), cursor);
  }

  /** Row `i` of a placement of sorted requirements: the block its
      requirement is sized to, the next row starting where it ends. */
  lemma RowAt(base: u32, sorted: seq<nat>, baseCidr: nat, i: nat)
    requires Allocate(base, sorted, baseCidr).Ok? && NonIncreasing(sorted) && i < |sorted|
    ensures var ns := Allocate(base, sorted, baseCidr).value;
      && ns[i].cidr == 32 - BlockBits(sorted[i])
      && ns[i].broadcast + 1 == ns[i].network + BlockSize(sorted[i])
      && (i + 1 < |ns| ==> ns[i + 1].network == ns[i].broadcast + 1)
  {
    AllocatedRows(base, sorted, baseCidr);
    var ns := Allocate(base, sorted, baseCidr).value;
    RowSize(ns[i], sorted[i], baseCidr);
  }

  lemma RowSize(n: SubnetNumbers, need: nat, baseCidr: nat)
    requires Describes(n) && Sized(n, baseCidr) && n.requiredHosts == need
    ensures n.cidr == 32 - BlockBits(need)
    ensures n.broadcast + 1 == n.network + BlockSize(need)
  {
    SizedPrefix(n, baseCidr);
  }

  /** The rows together span the blocks of the requirements: the last
      broadcast address of the first `k + 1` rows is the demand of their
      requirements past the first network address. */
  lemma {:induction false} RowsSpan(base: u32, sorted: seq<nat>, baseCidr: nat, k: nat)
    requires Allocate(base, sorted, baseCidr).Ok? && NonIncreasing(sorted) && k < |sorted|
    ensures var ns := Allocate(base, sorted, baseCidr).value;
      ns[k].broadcast + 1 == ns[0].network + Demand(sorted[..k + 1])
    decreases k
  {
    RowAt(base, sorted, baseCidr, k);
    DemandSnoc(sorted, k);
    if k > 0 {
      RowsSpan(base, sorted, baseCidr, k - 1);
      RowAt(base, sorted, baseCidr, k - 1);
    }
  }

  /** Demand grows by one block per requirement taken. */
  lemma DemandSnoc(needs: seq<nat>, k: nat)
    requires k < |needs|
    ensures Demand(needs[..k + 1]) == Demand(needs[..k]) + BlockSize(needs[k])
  {
    assert needs[..k + 1] == needs[..k] + [needs[k]];
    DemandConcat(needs[..k], [needs[k]]);
    assert Demand([needs[k]]) == BlockSize(needs[k]) + Demand([needs[k]][1..]);
  }

  /** Nothing keeps the blocks inside the base network: from a base address
      on a boundary of the base block, requirements whose blocks together
      exceed the base block are still placed when they end below 2^32, and
      the last block then ends outside the base block. */
  lemma LeavesBase(base: u32, sorted: seq<nat>, baseCidr: nat)
    requires NonIncreasing(sorted) && baseCidr <= 32
    requires forall i :: 0 <= i < |sorted| ==> Admitted(sorted[i], baseCidr)
    requires RoundDown(base, Pow2(32 - baseCidr)) == base
    requires Pow2(32 - baseCidr) < Demand(sorted) && base + Demand(sorted) < TWO_32
    ensures var r := Allocate(base, sorted, baseCidr);
      && r.Ok? && |r.value| > 0
      && !InBlock(r.value[|r.value| - 1].broadcast, base, baseCidr)
  {
    assert |sorted| > 0;
    AdmittedAligned(base, sorted[0], baseCidr);
    PlacedIffRoom(base, sorted, baseCidr);
    var ns := Allocate(base, sorted, baseCidr).value;
    var k := |sorted| - 1;
    RowsSpan(base, sorted, baseCidr, k);
    assert sorted[..k + 1] == sorted;
    AllocatedRows(base, sorted, baseCidr);
    FirstRowAtBase(base, sorted, baseCidr);
    OutsideBlock(ns[k].broadcast, base, Pow2(32 - baseCidr), baseCidr);
  }

  /** A base on a boundary of the base block is on a boundary of every block
      the base prefix admits. */
  lemma AdmittedAligned(base: u32, need: nat, baseCidr: nat)
    requires baseCidr <= 32 && Admitted(need, baseCidr) && RoundDown(base, Pow2(32 - baseCidr)) == base
    ensures base % BlockSize(need) == 0
  {
    var h := BlockBits(need);
    assert h <= 32 - baseCidr;
    AlignedToSmaller(base, 32 - baseCidr, h);
  }

  /** The first row starts at a base already on its boundary. */
  lemma FirstRowAtBase(base: u32, sorted: seq<nat>, baseCidr: nat)
    requires Allocate(base, sorted, baseCidr).Ok? && NonIncreasing(sorted) && |sorted| > 0
    requires base % BlockSize(sorted[0]) == 0
    ensures Allocate(base, sorted, baseCidr).value[0].network == base
  {
    AllocatedRows(base, sorted, baseCidr);
    var ns := Allocate(base, sorted, baseCidr).value;
    RowSize(ns[0], sorted[0], baseCidr);
    RoundDownOf(base, BlockSize(sorted[0]), base);
  }

  /** The cursor is rounded down, not up: from a base address off the
      boundary of the first block, the first block starts below the base
      address. */
  lemma FirstRowBelowBase(base: u32, sorted: seq<nat>, baseCidr: nat)
    requires Allocate(base, sorted, baseCidr).Ok? && NonIncreasing(sorted) && |sorted| > 0
    requires base % BlockSize(sorted[0]) != 0
    ensures Allocate(base, sorted, baseCidr).value[0].network < base
  {
    AllocatedRows(base, sorted, baseCidr);
    var ns := Allocate(base, sorted, baseCidr).value;
    RowSize(ns[0], sorted[0], baseCidr);
  }

  /** An address at or past the end of a block is not in it. */
  lemma OutsideBlock(x: u32, network: u32, size: nat, m: nat)
    requires m <= 32 && size == Pow2(32 - m) && network % size == 0 && network + size <= x
    ensures !InBlock(x, network, m)
  {
  }

  /** A block that ends at 2^32 overflows the cursor: 200 hosts from
      255.255.255.0/24 fill the /24 exactly, and the command fails. */
  lemma ExampleOverflow()
    ensures Allocate(0xFFFF_FF00, [200], 24) == Err(Overflow)
  {
    HostBitsAre(200, 8);
    assert Demand([200]) == 256;
    PlacedIffRoom(0xFFFF_FF00, [200], 24);
  }
}
