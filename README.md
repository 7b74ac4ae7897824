# IPv4 subnet calculator

This project models `IPv4SubnetCalculator`, the calculation half of the visual
subnet page. The calculator takes a CIDR text such as `192.168.1.0/24` and does
the following:

- checks the text against the pattern `d.d.d.d/p`, where each `d` has 1–3 digits
  and `p` has 1–2 digits, and checks that every octet is at most 255 and the
  prefix at most 32;
- splits the text into octets and a prefix;
- builds the subnet mask as a text of `prefix` ones and `32 - prefix` zeros,
  read back eight bits at a time;
- takes the network address as the address AND the mask;
- takes the broadcast address as the network address OR the complement of the
  mask;
- counts the addresses as `2^(32 - prefix)`, and the usable ones as that count
  minus the network and broadcast addresses (0 when the count is at most 2);
- writes octets back in dotted notation.

Every operation is stateless, and the model keeps that form. Parsing, masking,
counting and formatting are Dafny functions. The mask derivation is a method
with the source's loop over the mask text, and `calculateSubnet` is a method
that calls it. Both methods are proved equal to specification functions
(`PrefixMask`, `SubnetOf`), and the lemmas state what those functions mean.

The project has four modules:

- `Bits` (`bits.dfy`): JavaScript's `&` and `|` on non-negative numbers,
  defined bit by bit by halving, with their bit-level laws.
- `JsText` (`jstext.dfy`): the JavaScript string built-ins the calculator uses
  on its inputs:
  - `split` and `join` on one character;
  - `Number` and `parseInt` on a digit string;
  - `parseInt(s, 2)`;
  - `repeat`;
  - the decimal rendering of a number.
- `SubnetCalculator` (`subnet.dfy`): the calculator itself.
- `SubnetExamples` (`examples_cidr.dfy`): the calculator on concrete inputs.

Octets are natural numbers below 256. An address is a sequence of four octets,
and bit `k` of an address counts from its most significant bit. JavaScript's
`null` result is `None` of an `Option`.

## Model

| member | source | states |
|---|---|---|
| `SubnetCalculator.ParseCidr` | subnet.js:11-17 | on a text of the pattern's shape, parsing gives four octet values below 1000 and a prefix below 100 |
| `SubnetCalculator.ParseAssembled` | subnet.js:11-17 | a text written as four digit groups, dots, `/` and a prefix group matches the pattern, and parses to the decimal values of its groups |
| `SubnetCalculator.MatchesPatternIff` | subnet.js:25-26 | the split-based test accepts exactly the texts that are four 1–3 digit groups joined by dots, then `/` and a 1–2 digit group |
| `SubnetCalculator.IsValidIff` | subnet.js:24-37 | `isValid` holds exactly for the texts of that shape whose four groups are worth at most 255 and whose prefix group is worth at most 32 |
| `SubnetCalculator.SubnetMaskOctets` | subnet.js:44-56 | the loop that reads the mask text eight characters at a time produces exactly the mask of the prefix |
| `SubnetCalculator.MaskTextOctet` | subnet.js:50-53 | each 8-character piece of the mask text, read in base 2, is the matching octet of the mask |
| `SubnetCalculator.MaskBits` | subnet.js:46 | the mask of prefix `p` has its first `p` bits set and the other `32 - p` bits clear |
| `SubnetCalculator.MaskValue` | subnet.js:44-56 | read as a 32-bit number, the mask is `2^32 - 2^(32 - p)` |
| `SubnetCalculator.NetworkOctetsBits` | subnet.js:64-66 | a bit of the network address is set exactly when it is set in both the address and the mask |
| `SubnetCalculator.NetworkBits` | subnet.js:64-66 | under the mask of prefix `p`, the network address keeps the first `p` bits of the address and clears the rest |
| `SubnetCalculator.NetworkMasked` | subnet.js:64-66 | each network octet is at most the address octet, no network bit lies outside the mask, and masking the network address again changes nothing |
| `SubnetCalculator.Complement` | subnet.js:75 | `~m & 255` on an octet is `255 - m` |
| `SubnetCalculator.ComplementBits` | subnet.js:75 | `~m & 255` has exactly the bits the octet `m` lacks |
| `SubnetCalculator.BroadcastOctetsBits` | subnet.js:74-76 | a bit of the broadcast address is set exactly when the network address has it or the mask lacks it |
| `SubnetCalculator.BroadcastBits` | subnet.js:74-76 | under the mask of prefix `p`, the broadcast address keeps the first `p` bits of the address and sets the rest |
| `SubnetCalculator.BroadcastAgreesWithNetwork` | subnet.js:64-76 | octet by octet, broadcast AND mask is the network address, broadcast OR mask is 255, and network ≤ address ≤ broadcast |
| `SubnetCalculator.OctetRange` | subnet.js:64-76 | in one octet, the broadcast octet is the network octet plus `255 - mask`, and the two bound the address octet |
| `SubnetCalculator.SingleHostSubnet` | subnet.js:44-76 | for prefix 32 the mask is 255.255.255.255, and both the network and the broadcast address are the address itself |
| `SubnetCalculator.WholeSpaceSubnet` | subnet.js:44-76 | for prefix 0 the mask is 0.0.0.0, the network address is 0.0.0.0 and the broadcast address is 255.255.255.255 |
| `SubnetCalculator.UsableAddresses` | subnet.js:83-88 | usable < total; usable is 0 exactly for prefixes 31 and 32; otherwise usable is total − 2 |
| `SubnetCalculator.TotalHalves` | subnet.js:84 | a prefix one bit longer halves the total |
| `SubnetCalculator.TotalIsRange` | subnet.js:64-88 | network ≤ address ≤ broadcast as 32-bit numbers, and the total is exactly the number of addresses from network to broadcast inclusive |
| `SubnetCalculator.DotNotationRoundTrip` | subnet.js:95-97 | the dotted text of some octets splits at its dots into 1–3 digit groups whose values are the octets |
| `SubnetCalculator.CidrTextRoundTrip` | subnet.js:11-37 | the dotted text of an address, then `/` and the prefix in decimal, is valid and parses back to the same octets and prefix |
| `SubnetCalculator.CalculateSubnet` | subnet.js:104-124 | the result is `None` exactly when the text is not valid; otherwise it is the record of the parsed address and prefix |
| `SubnetCalculator.SubnetOfMeaning` | subnet.js:104-124 | the record has the parsed address and prefix and a mask with `prefix` leading ones; network and broadcast keep the network bits and clear or set the host bits; they bound the address; total counts the addresses between them; usable < total |
| `Bits.AndBit` | subnet.js:65 | a bit of `a & b` is set exactly when it is set in both `a` and `b` |
| `Bits.OrBit` | subnet.js:75 | a bit of `a \| b` is set exactly when it is set in `a` or in `b` |
| `Bits.OrBound` | subnet.js:75 | `\|` of two numbers below `2^n` stays below `2^n`, so the broadcast octets are octets |
| `Bits.OrDisjoint` | subnet.js:75 | on operands with no common bit, `\|` is addition |
| `Bits.ComplementBit` | subnet.js:75 | `2^n - 1 - m` is `m` with its low `n` bits inverted |
| `Bits.HighOnesBit` | subnet.js:46 | `2^w - 2^z` has exactly bits `z` to `w - 1` set |
| `JsText.DecimalValue` | subnet.js:14-15 | `Number` or `parseInt` of a string of `k` digits is below `10^k` |
| `JsText.DecimalString` | subnet.js:96 | the decimal text of a number is a non-empty digit string that reads back as the number |
| `JsText.DecimalStringLength` | subnet.js:96 | a number below `10^k` is written in at most `k` digits |
| `JsText.OnesThenZerosValue` | subnet.js:46-53 | `a` ones followed by `b` zeros, read in base 2, is `(2^a - 1) * 2^b` |
| `JsText.Split` | subnet.js:12-14 | a split has at least one part, and no part contains the separator |
| `JsText.JoinSplit` | subnet.js:12-14 | joining the parts of a split with the same separator gives the text back |
| `JsText.SplitJoin` | subnet.js:96 | splitting a join of separator-free parts gives the parts back |
| `SubnetExamples.ClassCText` | subnet.js:173 | `192.168.1.0/24` is valid and parses to 192.168.1.0 and 24 |
| `SubnetExamples.ClassCNetwork` | subnet.js:104-124 | 192.168.1.0/24 gives mask 255.255.255.0, network 192.168.1.0, broadcast 192.168.1.255, 256 addresses and 254 usable |
| `SubnetExamples.Slash24` | subnet.js:44-76 | under a /24 mask the network address clears the last octet and the broadcast address fills it |
| `SubnetExamples.ClassAText` | subnet.js:24-37 | `10.0.0.5/8` is valid and parses to 10.0.0.5 and 8 |
| `SubnetExamples.ClassANetwork` | subnet.js:104-124 | 10.0.0.5/8 gives mask 255.0.0.0, network 10.0.0.0, broadcast 10.255.255.255, 16777216 addresses and 16777214 usable |
| `SubnetExamples.Slash8` | subnet.js:44-76 | under a /8 mask the network address keeps only the first octet and the broadcast address fills the other three |
| `SubnetExamples.SingleHostText` | subnet.js:24-37 | `192.168.1.1/32` is valid and parses to 192.168.1.1 and 32 |
| `SubnetExamples.SingleHost` | subnet.js:104-124 | 192.168.1.1/32 gives mask 255.255.255.255, network and broadcast 192.168.1.1, 1 address and 0 usable |
| `SubnetExamples.WholeSpaceText` | subnet.js:24-37 | `0.0.0.0/0` is valid and parses to 0.0.0.0 and 0 |
| `SubnetExamples.WholeSpace` | subnet.js:104-124 | 0.0.0.0/0 gives mask 0.0.0.0, network 0.0.0.0, broadcast 255.255.255.255, 4294967296 addresses and 4294967294 usable |
| `SubnetExamples.OctetOutOfRange` | subnet.js:31 | `999.1.1.1/24` matches the pattern but is not valid |
| `SubnetExamples.PrefixOutOfRange` | subnet.js:34 | `10.0.0.1/33` matches the pattern but is not valid |
| `SubnetExamples.MissingPrefix` | subnet.js:25-26 | `192.168.1.0`, which has no `/`, is not valid |

## Left out

- `SubnetVisualizer` (subnet.js:131-250) is left out: it handles the DOM, the input form, alerts, rendering and the `DOMContentLoaded` hook, and none of it is calculation.
- `toLocaleString` formatting of the counts (subnet.js:243-244) is left out. It belongs to the visualizer and depends on the locale.
- `Math.pow` works in floating point. `AddressCounts` uses exact integers, which agree with the source here because every count is a power of two no larger than `2^32`.
- `ParseCidr` is defined only on texts that match the pattern. `calculateSubnet` and `isValid` call it only on such texts; on other texts the source yields `NaN` or `undefined` values, which the model does not represent.
- `IsValid` omits the source's `octet < 0` and `prefix < 0` tests. A digit string never reads as a negative number, so these tests cannot fire.
- `Bits.And`, `Bits.Or`: JavaScript's `&` and `|` act on 32-bit two's-complement values, but they are modelled only for non-negative operands. The calculator applies them only to octets. `~` appears only in `~m & 255`, which `Complement` models with its two's-complement remainder.
- `SubnetMaskOctets`: the source builds the mask with `'1'.repeat(prefix)` for any numeric prefix. The model takes `prefix` in 0..32, the only range `calculateSubnet` passes after validation.
