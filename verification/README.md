# dikaios network calculators in Dafny

A model of the address arithmetic behind dikaios's network calculators. The
model covers the Rust backend's four commands and the three pages that do
arithmetic of their own:

- **`calculate_ip_info`** builds the report for an address and a prefix:
  netmask, wildcard, network, broadcast, host min and max, host count, class,
  and whether the address is private.
- **`calculate_ips`** lists the hosts of a block.
- **`calculate_vlsm_subnets`** sorts host requirements largest first and
  places one block per requirement from a base address.
- **`calculate_vlans`** does the same for VLANs and also writes a Cisco
  command script.
- **`generate_subnet_references`** builds the static table of prefixes /31
  down to /16.
- **The IP calculator page** (`IpCalculator.tsx`) recomputes the
  `calculate_ip_info` report on JavaScript numbers.
- **The IP range page** (`IpRangeCalculator.tsx`) recomputes the host
  listing.
- **The VLAN page** (`VlanAllocationCalculator.tsx`) keeps the list of VLANs
  the user builds and checks the input before calling the backend.

Addresses are natural numbers below 2^32 (`Bits.u32`). The bitwise
operators are defined bit by bit on naturals, and lemmas connect them to
arithmetic: masking rounds down to a block boundary, and or-ing into zero
bits adds.

- **Rust.** A `u32` overflow, which panics in a debug build, becomes the
  error `Overflow`. This covers the shift `1u32 << 32` at prefix 0,
  `network + 1` and `broadcast - 1` at the ends of the address space, the
  doubling in block sizing, and the cursor's advance.
- **JavaScript.** The pages are modelled on JavaScript's 32-bit operator
  semantics: ToInt32, ToUint32, shift counts taken modulo 32, and signed
  loop bounds.
- **Results.** Every command returns a `Results.Result`. Its error names
  the refusal, and the refusal messages are identified by constructor
  rather than by text.

Modules, in dependency order:

| module | file | what |
|---|---|---|
| `Results` | results.dfy | `Option`, `Result` and the error values |
| `Bits` | bits.dfy | powers of two, `u32`, And/Or/Not/shift on naturals |
| `Decimal` | decimal.dfy | decimal text of naturals, and its parser |
| `Text` | text.dfy | `split` on a separator and its inverse |
| `Address` | address.dfy | the dotted-quad codec the backend inlines in every command |
| `Subnet` | subnet.dfy | `calculate_ip_info`, `generate_subnet_references` |
| `HostRange` | host_range.dfy | `calculate_ips` |
| `Js` | js.dfy | JavaScript number and bit-operator semantics |
| `IpPage` | ip_page.dfy | `IpCalculator.tsx` |
| `RangePage` | range_page.dfy | `IpRangeCalculator.tsx` |
| `Sorting` | sorting.dfy | the stable descending `sort_by` |
| `Vlsm` | vlsm.dfy | `calculate_vlsm_subnets`, and the block sizing and placement it shares |
| `Vlan` | vlan.dfy | `calculate_vlans` and its command script |
| `VlanList` | vlan_list.dfy | the VLAN page's list and its guards |

## Model

| member | source | states |
|---|---|---|
| Address.ParseU32 | src-tauri/src/lib.rs:209-210 | Rust's `parse::<u32>` accepts exactly the digit strings whose value is below 2^32, and returns that value |
| Address.PackOctets | src-tauri/src/lib.rs:175 | or-ing the shifted octets is their base-256 value, because the shifted octets occupy disjoint bits |
| Address.LowByteIsAnd | src-tauri/src/lib.rs:184-187 | `v & 255` is the remainder of `v` modulo 256 |
| Address.OctetsOf | src-tauri/src/lib.rs:183-188 | the four shifted-and-masked octets of an address have the address as their base-256 value |
| Address.OctetsOfPack | src-tauri/src/lib.rs:175 | unpacking a packed quadruple of octets gives the octets back |
| Address.OctetsDetermineValue | src-tauri/src/lib.rs:175 | two octet quadruples with the same packed value are equal |
| Address.PackOctetsOf | src-tauri/src/lib.rs:183-188 | packing the octets of an address gives the address back |
| Address.ParseOctet | src-tauri/src/lib.rs:163-172 | an empty part is 0 in `calculate_ips` and refused elsewhere; a part is accepted exactly when it is a number of at most 255; a number from 256 up to 2^32 - 1 is the range error; anything else is unreadable |
| Address.ParseOctets | src-tauri/src/lib.rs:220-227 | all parts are accepted exactly when each one is; the octets are the parts' values, in order; an error is the error of some refused part |
| Address.ParseAddress | src-tauri/src/lib.rs:215-227 | a split into anything but four parts is the part-count error; otherwise the address is accepted exactly when all four parts are, octet `i` being part `i`'s value, and a refused address gets the error of its first refused part |
| Address.SplitFormatOctets | src-tauri/src/lib.rs:250-251 | splitting a formatted quadruple on '.' gives its four decimal texts |
| Address.ParseFormatOctets | src-tauri/src/lib.rs:250-251 | round trip: the address parser reads a formatted quadruple back as the same octets, whether or not empty parts count as 0 |
| Address.ParseDecimals | src-tauri/src/lib.rs:220-227 | the four decimal texts of octets parse back to the octets |
| Address.ParseFormat | src-tauri/src/lib.rs:264-269 | round trip: parsing the dotted quad of an address gives its octets, and packing them gives the address |
| Address.FormatInjective | src-tauri/src/lib.rs:264-269 | distinct addresses are written as distinct text |
| Decimal.ParseNat | src-tauri/src/lib.rs:222-223 | a part reads as a number exactly when it is a non-empty string of decimal digits |
| Decimal.ToDecimal | src-tauri/src/lib.rs:251 | `{}` writes a number as digits with no leading zero |
| Decimal.ValueOfToDecimal | src-tauri/src/lib.rs:251 | the digits written for a number have that number as their value |
| Decimal.ParseToDecimal | src-tauri/src/lib.rs:251 | round trip: reading what `{}` wrote gives the number |
| Decimal.ToDecimalHasNoDot | src-tauri/src/lib.rs:251 | decimal text has no '.', so it cannot add a part to a dotted quad |
| Decimal.ToDecimalInjective | src-tauri/src/lib.rs:251 | distinct numbers have distinct decimal text |
| Text.Split | src-tauri/src/lib.rs:215 | `split('.')` gives at least one part, no part holds the separator, and joining the parts with it gives the input back |
| Text.SplitPrefix | src-tauri/src/lib.rs:215 | text before the first separator is the first part, and the rest splits on its own |
| Text.SplitJoin | src-tauri/src/lib.rs:215 | splitting undoes joining when no part holds the separator |
| Bits.RoundDown | src-tauri/src/lib.rs:232 | the network address is the greatest multiple of the block size not above the address |
| Bits.AndHighMask | src-tauri/src/lib.rs:232 | and-ing a 32-bit value with the netmask clears its low host bits: the value minus its remainder modulo the block size |
| Bits.AndLowMask | src-tauri/src/lib.rs:178 | and-ing with `size - 1` keeps the remainder modulo the block size |
| Bits.OrShifted | src-tauri/src/lib.rs:175 | or-ing a value into zero low bits adds it |
| Bits.OrBound | src-tauri/src/lib.rs:233 | or-ing two 32-bit values stays within 32 bits |
| Bits.ShlAllOnes | src/pages/IpCalculator.tsx:64 | all ones shifted left by `h` leaves the top `32 - h` bits set |
| Bits.BitsOfHighMask | src-tauri/src/lib.rs:230 | the netmask has exactly the bits from `h` up to 31 set |
| Subnet.MaskFor | src-tauri/src/lib.rs:230 | `!((1 << h) - 1)` is 2^32 - 2^h |
| Subnet.OneShl | src-tauri/src/lib.rs:177 | `1u32 << k` below 32 is 2^k |
| Subnet.MaskHasTopBits | src-tauri/src/lib.rs:230 | the netmask of prefix `m` has bit `k` set exactly when `k >= 32 - m` |
| Subnet.BlockOf | src-tauri/src/lib.rs:230-233 | netmask plus block size is 2^32; the wildcard is the complement of the netmask; the network is the address rounded down to the block size; the broadcast is the network plus the size minus 1 |
| Subnet.BlockParts | src-tauri/src/lib.rs:230-233 | the mask, wildcard, `&` and `\|` steps, each in arithmetic terms |
| Subnet.BroadcastOf | src-tauri/src/lib.rs:233 | or-ing the wildcard into an aligned network fills the host bits: network plus size minus 1, still below 2^32 |
| Subnet.NetworkIdempotent | src-tauri/src/lib.rs:232 | masking a network address again leaves it unchanged |
| Subnet.NetworkBracketsAddress | src-tauri/src/lib.rs:232-233 | the address lies between its network and broadcast addresses |
| Subnet.SameNetwork | src-tauri/src/lib.rs:232-233 | an address masks to the network of a block exactly when it lies between that block's network and broadcast |
| Subnet.ClassMatchesLeadingBits | src-tauri/src/lib.rs:238-244 | the threshold `match` on the first octet is the classful rule read from its leading bits: 0 for A, 10 for B, 110 for C, 1110 for D, otherwise E |
| Subnet.PrivateIsRfc1918 | src-tauri/src/lib.rs:246-248 | the private test holds exactly for addresses in 10.0.0.0/8, 172.16.0.0/12 or 192.168.0.0/16, the three blocks of section 3 of RFC 1918 |
| Subnet.ParsePrefix | src-tauri/src/lib.rs:209-213 | the prefix is accepted exactly when it reads as a number of at most 32; text that is not a `u32` is unreadable, and anything else is out of range |
| Subnet.InfoOf | src-tauri/src/lib.rs:229-248 | the report fails, with `Overflow`, exactly at prefix 0 and at 0.0.0.0/32 and 255.255.255.255/32. Otherwise it holds the block of the address, host min one past the network, host max one before the broadcast, the count of addresses strictly inside the block up to /30 and 0 beyond, and the class and private flag of the octets |
| Subnet.PackedOctets | src-tauri/src/lib.rs:229 | the packed address is the octets' base-256 value |
| Subnet.OverflowCases | src-tauri/src/lib.rs:234-235 | `network + 1` or `broadcast - 1` leaves the `u32` range exactly for the two /32 blocks at the ends of the address space |
| Subnet.CalculateIpInfo | src-tauri/src/lib.rs:208-292 | a prefix error comes first, then an address error, then the report's overflow; on success the report is the block's numbers as text |
| Subnet.ReportReadsBack | src-tauri/src/lib.rs:250-275 | the address, network, broadcast and netmask texts of a report parse back to the numbers they were written from |
| Subnet.ReferenceRowFor | src-tauri/src/lib.rs:114-130 | a row holds 2^(32 - prefix) addresses, of which all are usable at /31 and two fewer otherwise; its label is "/" and the prefix; its mask is the prefix's netmask |
| Subnet.SubnetReferences | src-tauri/src/lib.rs:110-134 | the table has 16 rows, /31 first and /16 last |
| Subnet.ReferenceRowsAreMasks | src-tauri/src/lib.rs:114-129 | row `i` has 2^(i + 1) addresses and a mask with exactly the top `31 - i` bits set; its usable count follows the /31 rule |
| Subnet.ReferenceRowFor24 | src-tauri/src/lib.rs:113-130 | the /24 row reads 256 addresses, 254 usable, mask 255.255.255.0 |
| HostRange.HostOctets | src-tauri/src/lib.rs:182-189 | the octets of `lo` up to `hi - 1`, one per address, in order |
| HostRange.Hosts | src-tauri/src/lib.rs:182-189 | the listing holds `hi - lo` texts, the i-th being the address `lo + i`, and nothing when `hi <= lo` |
| HostRange.HostsAreTexts | src-tauri/src/lib.rs:182-189 | writing out the octets of the range gives the same listing |
| HostRange.ListHosts | src-tauri/src/lib.rs:181-189 | the push loop builds one text per address of `lo..hi`, in order |
| HostRange.ListHostsIsHosts | src-tauri/src/lib.rs:181-189 | the loop's output equals the reference listing |
| HostRange.HostsMembership | src-tauri/src/lib.rs:182-189 | a text is listed exactly when it is the text of an address in `[lo, hi)` |
| HostRange.HostsDistinct | src-tauri/src/lib.rs:182-189 | no address is listed twice |
| HostRange.HostsBetween | src-tauri/src/lib.rs:182 | a block lists `broadcast - network - 1` hosts, or none when the broadcast is not above the network |
| HostRange.HostsBetweenMembership | src-tauri/src/lib.rs:182-189 | a text is listed exactly when it is an address strictly between network and broadcast |
| HostRange.ListedHost | src-tauri/src/lib.rs:182-189 | every listed text is the text of an address strictly inside the block |
| HostRange.HostsBetweenAt | src-tauri/src/lib.rs:182-189 | an address strictly inside the block is listed at its offset from the network, less one |
| HostRange.CalculateIps | src-tauri/src/lib.rs:150-192 | a prefix error comes first, then an address error in which an empty part counts as 0. The listing fails with `Overflow` exactly at prefix 0 and for 255.255.255.255/32; otherwise it holds the hosts strictly between the network and broadcast of the input's block |
| HostRange.ListedHostsInBlock | src-tauri/src/lib.rs:176-189 | every listed address masks to the input's network, and is neither the network nor the broadcast |
| HostRange.HostsCount | src-tauri/src/lib.rs:176-189 | the listing has 2^(32 - m) - 2 addresses up to /30, and none at /31 and /32 |
| Js.Conversions | src/pages/IpCalculator.tsx:63-67 | ToUint32 keeps the residue modulo 2^32, and ToInt32 gives a signed 32-bit value with the same bit pattern |
| Js.ToInt32OfPattern | src/pages/IpCalculator.tsx:63 | a 32-bit pattern reads as itself below 2^31, and 2^32 less from there up |
| Js.Pattern | src/pages/IpCalculator.tsx:64-67 | `>>> 0` is the identity on a bit pattern, and ToInt32 does not change the pattern |
| Js.BitAndPattern | src/pages/IpCalculator.tsx:66 | `a & b` has the 32-bit and of the operands' patterns as its pattern |
| Js.BitOrPattern | src/pages/IpCalculator.tsx:67 | `a \| b` has the 32-bit or of the patterns as its pattern |
| Js.BitNotPattern | src/pages/IpCalculator.tsx:65 | `~a` has the 32-bit complement of the pattern as its pattern |
| Js.ShiftLeftPattern | src/pages/IpCalculator.tsx:64 | `a << k` shifts the pattern by `k` modulo 32 and keeps the low 32 bits |
| Js.ShiftLeftOf | src/pages/IpCalculator.tsx:63 | shifting a pattern by a count below 32 |
| Js.LowOctetOfAnd | src/pages/IpCalculator.tsx:91 | `v & 255` is the low octet of `v`'s pattern, whatever `v`'s sign |
| Js.NumberOperand | src/pages/IpRangeCalculator.tsx:46-47 | `Number` of a part used as a bitwise operand: its value when it is digits, and 0 otherwise, because NaN becomes 0; values from 2^53 up are not rounded as `Number` rounds them |
| Js.ElementOperand | src/pages/IpRangeCalculator.tsx:47 | a missing array element used as an operand counts as 0 |
| Js.SignedOctetsOfPattern | src/pages/IpRangeCalculator.tsx:57 | the octets written for a signed value are the octets of its 32-bit pattern |
| IpPage.ParseMaskBits | src/pages/IpCalculator.tsx:44-47 | the page accepts exactly the prefixes the backend accepts, with the same value |
| IpPage.PageOctet | src/pages/IpCalculator.tsx:54-60 | a part is accepted exactly when the backend's strict parser accepts it, with the same octet |
| IpPage.PageOctets | src/pages/IpCalculator.tsx:54-60 | all parts are accepted exactly when each one is, and the octets are the backend's |
| IpPage.PageOctetsAsBackend | src/pages/IpCalculator.tsx:54-60 | the page reads the same octets as `calculate_ip_info`, and refuses the same parts |
| IpPage.GetIpClass | src/pages/IpCalculator.tsx:94-100 | the page's class thresholds give the backend's class |
| IpPage.CheckIfPrivate | src/pages/IpCalculator.tsx:102-108 | the page's private test is the backend's |
| IpPage.ParseAndCalculate | src/pages/IpCalculator.tsx:42-88 | an unreadable prefix, a split into anything but four parts, and a refused part are the three refusals, checked in that order |
| IpPage.IpIntValue | src/pages/IpCalculator.tsx:63 | the signed packing has the octets' value as its pattern, and is negative exactly when the first octet is 128 or more |
| IpPage.MaskIntValue | src/pages/IpCalculator.tsx:64 | at /0 the shift count is taken modulo 32, so the mask is all ones; from /1 to /32 it is the backend's netmask |
| IpPage.PageBlock | src/pages/IpCalculator.tsx:63-67 | from /1 to /32 the page's netmask, wildcard, network and broadcast are the backend's block |
| IpPage.PageBlockAtZero | src/pages/IpCalculator.tsx:64-67 | at /0 the mask is all ones and the wildcard is 0, so network and broadcast are the address itself |
| IpPage.PageHostCount | src/pages/IpCalculator.tsx:70 | the unclamped host count is the number of addresses strictly inside the block up to /30, 0 at /31 and -1 at /32 |
| IpPage.IpToStringIsFormat | src/pages/IpCalculator.tsx:90-92 | `ipToString` writes the dotted quad of the value's 32-bit pattern, for any number |
| IpPage.IpToStringReadsBack | src/pages/IpCalculator.tsx:90-92 | every text the page writes parses back to the octets of the value's pattern |
| IpPage.AddressTextOfOctets | src/pages/IpCalculator.tsx:77 | the address is written back as the octets it was read from |
| IpPage.PageRefusesAsBackend | src/pages/IpCalculator.tsx:42-60 | the page refuses an input exactly when the backend's prefix or address parser does |
| IpPage.PageAgreesWithBackend | src/pages/IpCalculator.tsx:42-88 | where the backend reports a block of /1 to /31, the page's report is identical |
| IpPage.PageAtSlash32 | src/pages/IpCalculator.tsx:70 | at /32 the page shows the backend's report except for a host count of -1 where the backend has 0 |
| IpPage.PageAtSlash0 | src/pages/IpCalculator.tsx:64-70 | at /0 the backend fails with `Overflow`, while the page reports the address as its own network and broadcast, an all-ones mask, a zero wildcard and 2^32 - 2 hosts |
| IpPage.PageHostMinWraps | src/pages/IpCalculator.tsx:68 | for 255.255.255.255/32 the backend fails with `Overflow`, while the page's host min wraps to 0.0.0.0 |
| IpPage.PageNumbersAsBackend | src/pages/IpCalculator.tsx:63-74 | where the backend has a report, the page's block, host min and max, class and private flag are the backend's, and the host count is too, except at /32 |
| IpPage.SameText | src/pages/IpCalculator.tsx:78-83 | numbers that agree with the backend's are written as the same texts |
| IpPage.OctetsOfValueFormat | src/pages/IpCalculator.tsx:77 | the dotted quad of the octets' value is the octets joined with dots |
| RangePage.Zeroed | src/pages/IpRangeCalculator.tsx:41 | every empty part becomes "0" and every other part is kept |
| RangePage.ParseInput | src/pages/IpRangeCalculator.tsx:29-43 | a prefix that is not a number from 0 to 32 is refused first; then an address that is not four parts, each a number or empty, is refused; otherwise the start address is the parts with empty ones zeroed |
| RangePage.Operands | src/pages/IpRangeCalculator.tsx:46 | `map(Number)` gives each part's operand value, exact below 2^53 |
| RangePage.SignedOctetsFrom | src/pages/IpRangeCalculator.tsx:56-58 | the signed loop writes one quadruple per value from `lo` to `hi - 1` |
| RangePage.LowMask | src/pages/IpRangeCalculator.tsx:49-53 | `(1 << hostBits) - 1` has the pattern 2^(hostBits mod 32) - 1 |
| RangePage.CalculateValidIps | src/pages/IpRangeCalculator.tsx:13-27 | an empty field is refused before anything else; then the input's refusal is passed on; a listing means the input was read |
| RangePage.PageListsBlock | src/pages/IpRangeCalculator.tsx:45-61 | at /0 the page lists nothing; otherwise it lists exactly the backend's hosts for the block of the address the parts spell, even when a part exceeds 255, as long as it stays below 2^53 |
| RangePage.ValidIpsAtZero | src/pages/IpRangeCalculator.tsx:49-56 | at /0 the block degenerates to one address and nothing is listed |
| RangePage.ValidIpsOfBlock | src/pages/IpRangeCalculator.tsx:45-61 | from /1 to /32 the page lists the hosts strictly inside the block |
| RangePage.StartOfInput | src/pages/IpRangeCalculator.tsx:41-47 | the start address is the value of the parts the page accepted |
| RangePage.PageBoundsZero | src/pages/IpRangeCalculator.tsx:49-53 | at /0 the network and broadcast are both the address |
| RangePage.PageBoundsBlock | src/pages/IpRangeCalculator.tsx:49-53 | from /1 to /32 the page's network and broadcast are the backend's |
| RangePage.SignedBlock | src/pages/IpRangeCalculator.tsx:56-58 | on an aligned block of at most 2^31 addresses, the signed loop lists the same hosts as the unsigned one |
| RangePage.SignedShift | src/pages/IpRangeCalculator.tsx:52-56 | such a block's bounds are read as signed values shifted by 0 or by 2^32 together |
| RangePage.SignedListing | src/pages/IpRangeCalculator.tsx:56-58 | looping over bounds shifted by 0 or 2^32 writes the same octets |
| RangePage.PageAgreesWithBackend | src/pages/IpRangeCalculator.tsx:13-61 | wherever the backend lists a block from two filled-in fields, the page lists the same addresses |
| RangePage.PageAddressOfOctets | src/pages/IpRangeCalculator.tsx:46-47 | for parts the backend accepts, the page computes the same address |
| RangePage.ZeroPrefixDiffers | src/pages/IpRangeCalculator.tsx:50 | at /0 the backend fails with `Overflow`, while the page lists nothing |
| RangePage.BroadcastHostDiffers | src/pages/IpRangeCalculator.tsx:56 | for 255.255.255.255/32 the backend fails with `Overflow`, while the page lists nothing |
| RangePage.NonEmptyAddress | src/pages/IpRangeCalculator.tsx:14 | an address the backend parses is not empty |
| RangePage.PageInputOfBackendInput | src/pages/IpRangeCalculator.tsx:13-43 | input the backend reads passes the page's emptiness check and its parser |
| RangePage.PageAcceptsWideParts | src/pages/IpRangeCalculator.tsx:37 | a part above 255 is refused by the backend but taken by the page |
| RangePage.LastPartCarries | src/pages/IpRangeCalculator.tsx:47 | when the parts before it are 0, such a last part is taken modulo 2^32, so 0.0.0.256 names 0.0.1.0 |
| RangePage.LastPartOred | src/pages/IpRangeCalculator.tsx:47 | in general the last part is or-ed into the bits of the parts before it, not added to them |
| RangePage.OredPartOverlaps | src/pages/IpRangeCalculator.tsx:47 | 0.0.1.256 names 0.0.1.0, not 0.0.2.0: a wide part does not carry when its bits overlap the earlier parts' |
| Sorting.Insert | src-tauri/src/lib.rs:331 | inserting adds exactly one element and keeps all the others |
| Sorting.SortDescending | src-tauri/src/lib.rs:330-331 | the sort is a permutation of its input, with keys never increasing |
| Sorting.InsertKeepsOrder | src-tauri/src/lib.rs:331 | inserting into a descending list keeps it descending |
| Sorting.InsertWithKey | src-tauri/src/lib.rs:331 | the inserted element goes in front of every element with the same key |
| Sorting.SortIsStable | src-tauri/src/lib.rs:446-447 | the sort is stable: the elements of each key keep their input order |
| Sorting.WithKeyHead | src-tauri/src/lib.rs:446-447 | the elements of a key begin with the first element carrying it |
| Sorting.FirstWithKey | src-tauri/src/lib.rs:446-447 | an element carrying a key has a first such element at or before it |
| Sorting.SortedFirst | src-tauri/src/lib.rs:446-447 | the element sorted to the front is the input's first element with the largest key, and no element has a larger key |
| Vlsm.SmallestBits | src-tauri/src/lib.rs:341-344 | the least exponent from `h` up whose power of two holds the need |
| Vlsm.BlockBits | src-tauri/src/lib.rs:338-348 | the smallest block of at least four addresses that holds the requirement plus network and broadcast |
| Vlsm.HostBits | src-tauri/src/lib.rs:338-347 | the sizing stays within `u32` exactly when the requirement plus 2 is at most 2^31; the host bits are then 2 to 31, and otherwise the result is `Overflow` |
| Vlsm.SubnetSize | src-tauri/src/lib.rs:338-347 | the doubling loop, taking the base-2 logarithm at the end, gives the host bits of the reference sizing |
| Vlsm.BitsDetermined | src-tauri/src/lib.rs:341-347 | the least power of two satisfying the bound is unique |
| Vlsm.BlockBitsMonotone | src-tauri/src/lib.rs:341-344 | a larger requirement never gets a smaller block |
| Vlsm.BlockSizing | src-tauri/src/lib.rs:337-348 | a sized block is at most a /30; it has room for the requirement among its usable hosts; and the next smaller block could not hold the requirement |
| Vlsm.StepAt | src-tauri/src/lib.rs:338-359 | one pass is refused exactly when the block is larger than the base prefix allows; when it fits, the block is the one of its size containing the cursor and it ends below 2^32 |
| Vlsm.Place | src-tauri/src/lib.rs:336-403 | a complete placement has one block per requirement |
| Vlsm.PlacedSlots | src-tauri/src/lib.rs:350-402 | every placed block is the block of its size containing the cursor, and the cursor moves to the end of each block |
| Vlsm.SlotAt | src-tauri/src/lib.rs:357-402 | the block at position `i` contains the cursor at `i` |
| Vlsm.RefusedRequirement | src-tauri/src/lib.rs:350-352 | a refused requirement's block is larger than the base prefix allows, and every requirement before it was admitted |
| Vlsm.Contiguous | src-tauri/src/lib.rs:357-402 | with the requirements sorted largest first, every block starts exactly where the previous one ends |
| Vlsm.RefusedIsLargest | src-tauri/src/lib.rs:331-352 | with the requirements sorted largest first, only the first one can be refused |
| Vlsm.SmallerAdmitted | src-tauri/src/lib.rs:350 | a requirement no larger than an admitted one is admitted |
| Vlsm.AlignedToSmaller | src-tauri/src/lib.rs:357 | an address on a boundary of a block is on a boundary of every smaller block |
| Vlsm.EndAligned | src-tauri/src/lib.rs:402 | an aligned block ends on a multiple of its size |
| Vlsm.WriteReadsBack | src-tauri/src/lib.rs:363-396 | every address text of a row parses back to the address it was written from |
| Vlsm.SortedNeeds | src-tauri/src/lib.rs:330-331 | after the sort the requirements never grow from left to right |
| Vlsm.Allocate | src-tauri/src/lib.rs:336-405 | on success there is one row per sorted requirement, row `i` being sized for requirement `i` |
| Vlsm.SlotsRenderable | src-tauri/src/lib.rs:355-361 | every placed block has 4 to 2^31 addresses and its broadcast ends it |
| Vlsm.NumbersAll | src-tauri/src/lib.rs:359-361 | one row per block, from the block and its requirement |
| Vlsm.VlsmNumbers | src-tauri/src/lib.rs:308-327 | a base prefix above 32 is refused first, then an unreadable base address; on success there is one row per requirement |
| Vlsm.WriteAll | src-tauri/src/lib.rs:370-399 | every row written as text |
| Vlsm.CalculateVlsmSubnets | src-tauri/src/lib.rs:308-406 | the command succeeds exactly when the numbers do, with the same error, and the rows are the numbers as text |
| Vlsm.RequiredOf | src-tauri/src/lib.rs:397 | the requirement of each row, in row order |
| Vlsm.DescribesSlot | src-tauri/src/lib.rs:355-361 | a placed block's row describes the block. It is aligned, with network, first host, last host, broadcast and usable count in place, and with the smallest size that holds the requirement and is no larger than the base prefix allows. Its network is the cursor rounded down to the block size |
| Vlsm.RowsAscending | src-tauri/src/lib.rs:402 | back-to-back rows are disjoint and ascending: every broadcast lies below every later network |
| Vlsm.AllocatedRows | src-tauri/src/lib.rs:336-403 | the rows of sorted requirements describe their blocks, each the smallest that holds its requirement and no larger than the base prefix allows, placed back to back, and the first block contains the base address |
| Vlsm.RowsOfSlots | src-tauri/src/lib.rs:355-402 | the rows of chained placed blocks describe them, back to back |
| Vlsm.RowsAdjacent | src-tauri/src/lib.rs:402 | the rows of chained blocks are back to back |
| Vlsm.VlsmRows | src-tauri/src/lib.rs:308-406 | on success the rows' requirements are a permutation of the input, largest first. Each row is the smallest block holding its requirement, and no larger than the base prefix allows. The blocks lie back to back, and the first is the block of its size that contains the base address |
| Vlsm.FirstIsLargest | src-tauri/src/lib.rs:330-331 | the first sorted requirement is an input requirement no smaller than any other |
| Vlsm.VlsmRefusal | src-tauri/src/lib.rs:350-352 | with a valid base prefix and address, the allocation is refused exactly when the largest requirement's block is larger than the base prefix allows, and the refusal names that requirement and the base prefix |
| Vlsm.RefusesLargest | src-tauri/src/lib.rs:350-352 | an oversized largest requirement is the one refused |
| Vlsm.RefusalNamesLargest | src-tauri/src/lib.rs:350-352 | a refusal names an input requirement that is the largest, and oversized |
| Vlsm.PlacedIffRoom | src-tauri/src/lib.rs:336-403 | with the requirements sorted, all admitted, and the cursor on a boundary of the first block, the placement succeeds exactly when the blocks end below 2^32; otherwise it overflows |
| Vlsm.DemandConcat | src-tauri/src/lib.rs:402 | the addresses the blocks take add up over a concatenation |
| Vlsm.DemandOfPermutation | src-tauri/src/lib.rs:330-331 | the order of the requirements does not change the addresses their blocks take |
| Vlsm.VlsmSucceeds | src-tauri/src/lib.rs:308-406 | with a valid base, every requirement admitted and the base on every block's boundary, the command succeeds exactly when the blocks together end below 2^32, and otherwise fails with `Overflow` |
| Vlsm.SizedPrefix | src-tauri/src/lib.rs:347-348 | a row's prefix is the one its requirement is sized to |
| Vlsm.HostBitsAre | src-tauri/src/lib.rs:341-347 | a requirement's host bits are the least power of two that holds it |
| Vlsm.StepFromBoundary | src-tauri/src/lib.rs:357-402 | a cursor already on a boundary of the block size is where the block goes, and the cursor then moves by one block |
| Vlsm.RowAt | src-tauri/src/lib.rs:355-402 | row `i` has the prefix its requirement is sized to, spans exactly one block of that size, and the next row starts where it ends |
| Vlsm.RowSize | src-tauri/src/lib.rs:347-348 | a sized row has the requirement's prefix and spans its block size |
| Vlsm.RowsSpan | src-tauri/src/lib.rs:402 | the first `k + 1` rows together span exactly the addresses their requirements' blocks take |
| Vlsm.LeavesBase | src-tauri/src/lib.rs:350-402 | nothing keeps the blocks inside the base network: requirements whose blocks together exceed the base block are still placed, and the last block ends outside the base block |
| Vlsm.AdmittedAligned | src-tauri/src/lib.rs:350-357 | a base on a boundary of the base block is on a boundary of every block the base prefix admits |
| Vlsm.FirstRowAtBase | src-tauri/src/lib.rs:357 | the first row starts at a base address that is already on its block boundary |
| Vlsm.FirstRowBelowBase | src-tauri/src/lib.rs:357 | masking rounds the cursor down: from a base off the first block's boundary, the first block starts below the base address |
| Vlsm.OutsideBlock | src-tauri/src/lib.rs:357 | an address at or past the end of a block is not in it |
| Vlsm.ExampleOverflow | src-tauri/src/lib.rs:402 | 200 hosts from 255.255.255.0/24 fill the /24 up to 2^32, so the cursor's advance overflows and the allocation fails |
| Vlan.NeedsOf | src-tauri/src/lib.rs:455 | the host requirement of each VLAN, in order |
| Vlan.ConfigsOf | src-tauri/src/lib.rs:493-494 | the VLAN of each allocation, in order |
| Vlan.VlansOf | src-tauri/src/lib.rs:470-476 | one allocation per placed block, from the block and its VLAN |
| Vlan.AllocateVlans | src-tauri/src/lib.rs:453-540 | on success there is one allocation per sorted VLAN, allocation `i` being for VLAN `i` |
| Vlan.AllocateVlansIsAllocate | src-tauri/src/lib.rs:453-476 | the VLAN loop places blocks exactly as the VLSM allocator does for the VLANs' requirements. It succeeds when that does, with the same rows, the gateway at the first host and the first host one after it. It overflows when that does, and its refusal names a VLAN with the refused requirement |
| Vlan.VlanNumbersOf | src-tauri/src/lib.rs:424-447 | a base prefix above 32 is refused first, then an unreadable base address; on success there is one allocation per VLAN |
| Vlan.WriteVlans | src-tauri/src/lib.rs:485-523 | every allocation written as text |
| Vlan.SectionLines | src-tauri/src/lib.rs:526-537 | each VLAN's section of the script is twelve lines |
| Vlan.SplitTerminated | src-tauri/src/lib.rs:526-537 | lines each ended by a line break split back into those lines |
| Vlan.DecimalSingleLine | src-tauri/src/lib.rs:526 | a decimal VLAN id holds no line break |
| Vlan.FormatSingleLine | src-tauri/src/lib.rs:533 | an address text holds no line break |
| Vlan.SectionSingleLines | src-tauri/src/lib.rs:526-537 | no line of a section holds a line break when the name, gateway and mask hold none |
| Vlan.ScriptSplits | src-tauri/src/lib.rs:526-537 | the script splits on line breaks into the sections' lines, in order, followed by an empty last piece |
| Vlan.CalculateVlans | src-tauri/src/lib.rs:424-543 | the command succeeds exactly when the allocation does, with the same error; its allocations are the numbers as text and its script is the script of those allocations |
| Vlan.VlanRows | src-tauri/src/lib.rs:445-540 | on success the allocations' VLANs are a permutation of the input, ordered by hosts, largest first, with VLANs of equal hosts in input order. Each allocation is the smallest block holding its VLAN, and no larger than the base prefix allows, with the gateway at the first usable address and the first host at the second. The blocks lie back to back, the first being the block of its size containing the base address |
| Vlan.SortedLayout | src-tauri/src/lib.rs:446-540 | the same, stated for an already packed base address |
| Vlan.AllocatedVlans | src-tauri/src/lib.rs:453-540 | the allocations of VLANs sorted by hosts describe their blocks, with gateway and first host, back to back from the base address |
| Vlan.SortedNeedsOf | src-tauri/src/lib.rs:447 | VLANs sorted by hosts have non-increasing requirements |
| Vlan.SortedHead | src-tauri/src/lib.rs:446-447 | the first sorted VLAN is the input's first VLAN with the most hosts |
| Vlan.VlanRefusal | src-tauri/src/lib.rs:465-468 | with a valid base prefix and address, the allocation is refused exactly when a VLAN with the most hosts needs a block larger than the base prefix allows. The refusal names the first such VLAN in input order, its hosts and the base prefix |
| Vlan.NoVlans | src-tauri/src/lib.rs:449-542 | with a valid base and no VLANs, the command returns no allocations and an empty script |
| Vlan.WriteVlanReadsBack | src-tauri/src/lib.rs:485-521 | every address text of an allocation parses back to its address |
| Vlan.IdsUnchecked | src-tauri/src/lib.rs:445-540 | the backend allocates two VLANs that share the id 0, repeated and outside 1 to 4094: it never checks the ids the page guarantees |
| Vlan.VlanScript | src-tauri/src/lib.rs:526-537 | when no VLAN name holds a line break, the script splits on line breaks into twelve lines per allocation, in allocation order, each line being that allocation's section line, followed by an empty last piece |
| Vlan.ScriptStructure | src-tauri/src/lib.rs:526-537 | the script of single-line allocations is their sections' lines, twelve per allocation, in order |
| Vlan.WrittenSingleLine | src-tauri/src/lib.rs:494-530 | allocations of VLANs whose names hold no line break are written without line breaks |
| Vlan.ScriptLinesAt | src-tauri/src/lib.rs:526-537 | line `12 i + k` of the script is line `k` of allocation `i`'s section |
| VlanList.AddVlan | src/pages/VlanAllocationCalculator.tsx:38-62 | with a field empty nothing happens; an id outside 1 to 4094 is refused, and then an id already listed; a refusal leaves the form as it is. Otherwise exactly the new VLAN is appended at the end, the three fields are cleared, and the base fields are kept |
| VlanList.Without | src/pages/VlanAllocationCalculator.tsx:65 | the filter keeps exactly the VLANs whose id differs |
| VlanList.RemoveVlan | src/pages/VlanAllocationCalculator.tsx:64-66 | removing keeps exactly the VLANs with another id, leaves none with that id, and changes nothing else |
| VlanList.RemoveDeletesOne | src/pages/VlanAllocationCalculator.tsx:64-66 | in a list without repeated ids, removing a listed id deletes exactly that one VLAN and keeps the others in order |
| VlanList.NoneRemoved | src/pages/VlanAllocationCalculator.tsx:65 | removing an id no VLAN carries changes nothing |
| VlanList.WithoutValid | src/pages/VlanAllocationCalculator.tsx:64-66 | removing keeps ids in range and distinct |
| VlanList.AddKeepsValid | src/pages/VlanAllocationCalculator.tsx:38-62 | adding keeps ids in range and distinct |
| VlanList.RunKeepsValid | src/pages/VlanAllocationCalculator.tsx:38-66 | whatever the user types, adds and removes, a list with ids in range and distinct stays so |
| VlanList.CalculateRequest | src/pages/VlanAllocationCalculator.tsx:68-85 | a request is sent exactly when the base network and prefix are filled in and the list is not empty, and it carries them and the list |
| VlanList.ToConfigs | src/pages/VlanAllocationCalculator.tsx:82-83 | the backend reads the list exactly when every id and host count fits an unsigned 32-bit field, and then reads each VLAN as it is |
| VlanList.RequestsAreValid | src/pages/VlanAllocationCalculator.tsx:38-85 | every request sent from the page has a base network, at least one VLAN, and ids in 1 to 4094 and distinct: the assumptions the backend makes without checking |

## Left out

- The Tauri command wrappers `calculate_ip_range`, `calculate_network_info`, `calculate_vlsm` and `calculate_vlan_allocation` (src-tauri/src/lib.rs:136-148, 194-206, 294-306, 408-422) only move a `Result` into a response record; `exit_app` and `run` (545-564) start and stop the application. None of them computes anything.
- Serialisation of requests and responses, and the pages' rendering, alerts, clipboard and navigation, are presentation. The wireless setup page has no address arithmetic.
- Error messages are identified by `Results.Error` constructors, not by their text.
- Rust integer overflow is modelled as the `Overflow` error, which is what a debug build's panic amounts to. A release build would wrap instead.
- `(subnet_size as f64).log2() as u32` is modelled as the exact base-2 logarithm. The size is a power of two from 4 to 2^31, where the `f64` logarithm is exact.
- Decimal parsing, whether Rust's `parse`, JavaScript's `parseInt` or `Number`, is modelled as reading a non-empty string of digits. `parseInt` also accepts leading blanks, signs and trailing garbage, `parse` accepts a leading `+`, and `Number` accepts blanks, signs, fractions and exponents. The range page calls `parseInt` without a radix (src/pages/IpRangeCalculator.tsx:37) and `Number` (line 46), so both read a `0x` prefix as hexadecimal: that page lists the block of 192.168.1.16 for "192.168.1.0x10" at /28, where the model refuses the address as badly formed. None of these is modelled.
- The VLAN page's number fields are modelled as empty or a whole number. Fractional values are not modelled.
- Js.NumberOperand: reads a digit string as its exact value. `Number` rounds values from 2^53 up to the nearest double, and the model does not, because it has no floating point.
- RangePage.Operands: inherits this, so an operand from 2^53 up is its exact value modulo 2^32, not that of the rounded double.
- RangePage.PageListsBlock: holds for the page only while every part is below 2^53. For "0.9007199254740993.0.0" at /30 the page rounds the second part to 2^53, whose low 32 bits are 0, and lists 0.0.0.1 and 0.0.0.2. The model lists 0.1.0.1 and 0.1.0.2.
- Vlan.VlanScript: states the script's line structure only for VLAN names without line breaks. A name with one adds lines to its section.

Behaviour a reader might not expect, each proved as a lemma:

- Allocations come out sorted largest first (Vlsm.VlsmRows, Vlan.VlanRows), not in input order.
- The cursor is rounded down to the block boundary, not up, so a first block can start below the base address (Vlsm.FirstRowBelowBase).
- Nothing checks that the blocks fit inside the base network; the base prefix only bounds each block's size (Vlsm.LeavesBase).
- VLAN ids are checked only by the page (VlanList.RequestsAreValid), not by the backend, which allocates a repeated, out-of-range id as readily as any other (Vlan.IdsUnchecked).
- /31 and /32 report no hosts in the backend (Subnet.InfoOf); the reference table counts both /31 addresses as usable (Subnet.ReferenceRowFor); the IP page reports 0 at /31 and -1 at /32 (IpPage.PageHostCount).
