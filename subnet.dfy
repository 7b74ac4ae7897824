/**
 * The IPv4 subnet calculator: from a CIDR text such as `192.168.1.0/24` it
 * derives the subnet mask, the network and broadcast addresses and the
 * address counts, or rejects the text.
 *
 * The calculator keeps no state, so its operations are functions; the one
 * operation that builds its result step by step, the mask derivation, is a
 * method with a loop, proved equal to the closed form `PrefixMask`.
 */
module SubnetCalculator {
  import opened Bits
  import opened JsText

  datatype Option<T> = None | Some(value: T)

  /** An octet: a JavaScript number in [0, 255]. */
  type Octet = x: nat | x < 256

  /** An IPv4 address or mask: four octets, most significant first. */
  type Address = a: seq<Octet> | |a| == 4 witness [0, 0, 0, 0]

  /** A prefix length: the number of leading one-bits of the mask. */
  type Prefix = p: nat | p <= 32

  /** What `parseCIDR` returns: the octet values and the prefix, not yet range-checked. */
  datatype Cidr = Cidr(octets: seq<nat>, prefix: nat)

  /** What `calculateSubnet` returns for a valid CIDR text. */
  datatype SubnetInfo = SubnetInfo(
    ipOctets: Address,
    maskOctets: Address,
    networkOctets: Address,
    broadcastOctets: Address,
    prefix: Prefix,
    totalAddresses: nat,
    usableAddresses: nat)

  /** What `calculateAddressCounts` returns. */
  datatype Counts = Counts(total: nat, usable: nat)

  // ---------------------------------------------------------------------------
  // Addresses as 32-bit words

  /**
   * Bit `k` of an address read as a 32-bit big-endian word, counting from the
   * most significant bit (k = 0) to the least significant (k = 31).
   */
  predicate Bit(a: Address, k: nat)
    requires k < 32
  {
    TestBit(a[k / 8], 7 - k % 8)
  }

  /** The address read as an unsigned 32-bit big-endian number. */
  function WordValue(a: Address): nat {
    a[0] as nat * 0x100_0000 + a[1] as nat * 0x1_0000 + a[2] as nat * 0x100 + a[3]
  }

  // ---------------------------------------------------------------------------
  // isValid and parseCIDR (subnet.js:11-37)

  /** `\d{1,n}`: one to `maxLength` decimal digits. */
  predicate DigitGroup(g: string, maxLength: nat) {
    1 <= |g| <= maxLength && AllDigits(g)
  }

  /**
   * The regular expression of `isValid` matches `s`: exactly one `/`, exactly
   * three `.` before it, and digit groups of the admitted lengths between them.
   */
  predicate MatchesPattern(s: string) {
    var halves := Split(s, '/');
    |halves| == 2 && DigitGroup(halves[1], 2) &&
    (var groups := Split(halves[0], '.');
     |groups| == 4 && forall i :: 0 <= i < 4 ==> DigitGroup(groups[i], 3))
  }

  /** The text `g0.g1.g2.g3/prefix`. */
  function Assemble(groups: seq<string>, prefix: string): string {
    Join(groups, '.') + "/" + prefix
  }

  /** Four groups of 1-3 digits and a group of 1-2 digits. */
  predicate CidrGroups(groups: seq<string>, prefix: string) {
    |groups| == 4 && (forall i :: 0 <= i < 4 ==> DigitGroup(groups[i], 3)) && DigitGroup(prefix, 2)
  }

  /** The language of the pattern, stated directly. */
  ghost predicate PatternShape(s: string) {
    exists groups, prefix :: CidrGroups(groups, prefix) && s == Assemble(groups, prefix)
  }

  lemma Pow10Bounds()
    ensures Pow10(2) == 100 && Pow10(3) == 1000
  {
  }

  /**
   * `parseCIDR`: split at `/`, split the address part at `.`, read every part
   * as a decimal number. The calculator only calls it on texts that match the
   * pattern, which is what the precondition says.
   */
  function ParseCidr(s: string): (c: Cidr)
    requires MatchesPattern(s)
    ensures |c.octets| == 4 && (forall i :: 0 <= i < 4 ==> c.octets[i] < 1000)
    ensures c.prefix < 100
  {
    var halves := Split(s, '/');
    var groups := Split(halves[0], '.');
    Pow10Bounds();
    Cidr(seq(4, i requires 0 <= i < 4 => DecimalValue(groups[i])), DecimalValue(halves[1]))
  }

  /**
   * `isValid`: the text matches the pattern, every octet is at most 255 and
   * the prefix at most 32. (The source's `< 0` tests cannot fire: a digit
   * string never reads as a negative number.)
   */
  predicate IsValid(s: string) {
    MatchesPattern(s) &&
    var c := ParseCidr(s);
    (forall i :: 0 <= i < |c.octets| ==> c.octets[i] <= 255) && c.prefix <= 32
  }

  /** The texts `isValid` accepts, stated directly. */
  ghost predicate ValidText(s: string) {
    exists groups, prefix ::
      && CidrGroups(groups, prefix)
      && (forall i :: 0 <= i < 4 ==> DecimalValue(groups[i]) <= 255)
      && DecimalValue(prefix) <= 32
      && s == Assemble(groups, prefix)
  }

  /** The parsed octets of a valid text, as an address. */
  function ToAddress(octets: seq<nat>): (a: Address)
    requires |octets| == 4 && forall i :: 0 <= i < 4 ==> octets[i] <= 255
    ensures a == octets
  {
    seq(4, i requires 0 <= i < 4 => octets[i] as Octet)
  }

  // ---------------------------------------------------------------------------
  // calculateSubnetMaskOctets (subnet.js:44-56)

  function Clamp8(x: int): (n: nat)
    ensures n <= 8
  {
    if x < 0 then 0 else if x > 8 then 8 else x
  }

  /** The octet with `n` leading one-bits and `8 - n` trailing zero-bits, 2^8 - 2^(8-n). */
  function OnesOctet(n: nat): Octet
    requires n <= 8
  {
    Pow2Monotone(8 - n, 8);
    Pow2Octets();
    0x100 - Pow2(8 - n)
  }

  /** The mask of prefix `p`: octet `i` holds the part of the `p` ones that falls in bits 8i..8i+7. */
  function PrefixMask(p: Prefix): Address {
    seq(4, i requires 0 <= i < 4 => OnesOctet(Clamp8(p - 8 * i)))
  }

  /** The text `'1'.repeat(prefix) + '0'.repeat(32 - prefix)` the source builds. */
  function MaskText(p: Prefix): (s: string)
    ensures |s| == 32 && AllBinary(s)
  {
    OnesThenZeros(p, 32 - p)
  }

  /**
   * `calculateSubnetMaskOctets`: cut the mask text into four 8-character
   * pieces and read each in base 2.
   */
  method SubnetMaskOctets(prefix: Prefix) returns (octets: seq<Octet>)
    ensures octets == PrefixMask(prefix)
  {
    var binaryMask := MaskText(prefix);
    ghost var mask := PrefixMask(prefix);
    octets := [];
    var i := 0;
    ghost var k := 0;
    while i < 32
      invariant 0 <= k <= 4 && i == 8 * k
      invariant octets == mask[..k]
    {
      MaskTextOctet(prefix, k);
      var octet := BinaryValue(binaryMask[i..i + 8]);
      assert mask[..k + 1] == mask[..k] + [octet];
      octets := octets + [octet];
      i := i + 8;
      k := k + 1;
    }
  }

  /** Piece `k` of the mask text reads in base 2 as octet `k` of the mask. */
  lemma MaskTextOctet(p: Prefix, k: nat)
    requires k < 4
    ensures AllBinary(MaskText(p)[8 * k..8 * k + 8])
    ensures BinaryValue(MaskText(p)[8 * k..8 * k + 8]) == PrefixMask(p)[k]
  {
    var n := Clamp8(p - 8 * k);
    MaskTextPiece(p, k);
    OnesOctetText(n);
    assert PrefixMask(p)[k] == OnesOctet(n);
  }

  /** Piece `k` of the mask text is the part of the `p` ones that falls in it, then zeros. */
  lemma MaskTextPiece(p: Prefix, k: nat)
    requires k < 4
    ensures MaskText(p)[8 * k..8 * k + 8] == OnesThenZeros(Clamp8(p - 8 * k), 8 - Clamp8(p - 8 * k))
  {
    var n := Clamp8(p - 8 * k);
    var piece := MaskText(p)[8 * k..8 * k + 8];
    forall j | 0 <= j < 8
      ensures piece[j] == OnesThenZeros(n, 8 - n)[j]
    {
      assert piece[j] == MaskText(p)[8 * k + j];
    }
  }

  /** `n` ones then `8 - n` zeros, read in base 2, is the octet with `n` leading ones. */
  lemma OnesOctetText(n: nat)
    requires n <= 8
    ensures BinaryValue(OnesThenZeros(n, 8 - n)) == OnesOctet(n)
  {
    var a, b := Pow2(n), Pow2(8 - n);
    OnesThenZerosValue(n, 8 - n);
    Pow2Add(n, 8 - n);
    Pow2Octets();
    ProductLessOne(a, b);
  }

  lemma ProductLessOne(a: int, b: int)
    ensures (a - 1) * b == a * b - b
  {
  }

  /** Bit `j` (from the most significant) of the octet with `n` leading ones is set exactly when j < n. */
  lemma OnesOctetBit(n: nat, j: nat)
    requires n <= 8 && j < 8
    ensures TestBit(OnesOctet(n), 7 - j) <==> j < n
  {
    assert OnesOctet(n) == Pow2(8) - Pow2(8 - n) by {
      Pow2Octets();
    }
    HighOnesBit(8, 8 - n, 7 - j);
  }

  /** The mask of prefix `p` has exactly `p` leading one-bits, the remaining `32 - p` bits zero. */
  lemma MaskBits(p: Prefix)
    ensures forall k :: 0 <= k < 32 ==> (Bit(PrefixMask(p), k) <==> k < p)
  {
    forall k | 0 <= k < 32
      ensures Bit(PrefixMask(p), k) <==> k < p
    {
      OnesOctetBit(Clamp8(p - 8 * (k / 8)), k % 8);
    }
  }

  /** Read as a 32-bit number, the mask is 2^32 - 2^(32 - p): all addresses minus the host range. */
  lemma MaskValue(p: Prefix)
    ensures WordValue(PrefixMask(p)) == Pow2(32) - Pow2(32 - p)
  {
    Pow2Octets();
    if p <= 8 {
      MaskValueFirstOctet(p);
    } else if p <= 16 {
      MaskValueSecondOctet(p);
    } else if p <= 24 {
      MaskValueThirdOctet(p);
    } else {
      MaskValueFourthOctet(p);
    }
  }

  lemma OnesOctetEnds()
    ensures OnesOctet(0) == 0 && OnesOctet(8) == 0xFF
  {
    Pow2Octets();
  }

  lemma MaskValueFirstOctet(p: Prefix)
    requires p <= 8
    ensures WordValue(PrefixMask(p)) == 0x1_0000_0000 - Pow2(32 - p)
  {
    var m := PrefixMask(p);
    assert m[0] == OnesOctet(p) && m[1] == 0 && m[2] == 0 && m[3] == 0 by {
      OnesOctetEnds();
    }
    assert Pow2(8 - p) * 0x100_0000 == Pow2(32 - p) by {
      Pow2Add(8 - p, 24);
      Pow2Octets();
    }
  }

  lemma MaskValueSecondOctet(p: Prefix)
    requires 8 < p <= 16
    ensures WordValue(PrefixMask(p)) == 0x1_0000_0000 - Pow2(32 - p)
  {
    var m := PrefixMask(p);
    assert m[0] == 0xFF && m[1] == OnesOctet(p - 8) && m[2] == 0 && m[3] == 0 by {
      OnesOctetEnds();
    }
    assert Pow2(16 - p) * 0x1_0000 == Pow2(32 - p) by {
      Pow2Add(16 - p, 16);
      Pow2Octets();
    }
  }

  lemma MaskValueThirdOctet(p: Prefix)
    requires 16 < p <= 24
    ensures WordValue(PrefixMask(p)) == 0x1_0000_0000 - Pow2(32 - p)
  {
    var m := PrefixMask(p);
    assert m[0] == 0xFF && m[1] == 0xFF && m[2] == OnesOctet(p - 16) && m[3] == 0 by {
      OnesOctetEnds();
    }
    assert Pow2(24 - p) * 0x100 == Pow2(32 - p) by {
      Pow2Add(24 - p, 8);
      Pow2Octets();
    }
  }

  lemma MaskValueFourthOctet(p: Prefix)
    requires 24 < p
    ensures WordValue(PrefixMask(p)) == 0x1_0000_0000 - Pow2(32 - p)
  {
    var m := PrefixMask(p);
    assert m[0] == 0xFF && m[1] == 0xFF && m[2] == 0xFF && m[3] == OnesOctet(p - 24) by {
      OnesOctetEnds();
    }
  }

  // ---------------------------------------------------------------------------
  // calculateNetworkOctets (subnet.js:64-66)

  /** `ipOctets.map((octet, index) => octet & maskOctets[index])`. */
  function NetworkOctets(ip: Address, mask: Address): (network: Address)
    ensures forall i :: 0 <= i < 4 ==> network[i] <= ip[i] && network[i] <= mask[i]
  {
    seq(4, i requires 0 <= i < 4 => And(ip[i], mask[i]))
  }

  /** Bit by bit, an octet of `a & b` is set where both operands are set. */
  lemma AndOctetBits(a: Octet, b: Octet)
    ensures forall j :: 0 <= j < 8 ==> (TestBit(And(a, b), j) <==> TestBit(a, j) && TestBit(b, j))
  {
    forall j | 0 <= j < 8 {
      AndBit(a, b, j);
    }
  }

  /** Every bit of the network address is set exactly where it is set in both the address and the mask. */
  lemma NetworkOctetsBits(ip: Address, mask: Address)
    ensures forall k :: 0 <= k < 32 ==> (Bit(NetworkOctets(ip, mask), k) <==> Bit(ip, k) && Bit(mask, k))
  {
    forall k | 0 <= k < 32
      ensures Bit(NetworkOctets(ip, mask), k) <==> Bit(ip, k) && Bit(mask, k)
    {
      AndOctetBits(ip[k / 8], mask[k / 8]);
    }
  }

  /** Under the mask of prefix `p` the network address keeps the first `p` bits of the address and clears the rest. */
  lemma NetworkBits(ip: Address, p: Prefix)
    ensures forall k :: 0 <= k < 32 ==>
      (Bit(NetworkOctets(ip, PrefixMask(p)), k) <==> k < p && Bit(ip, k))
  {
    MaskBits(p);
    NetworkOctetsBits(ip, PrefixMask(p));
  }

  /** An octet masked once is unchanged by the same mask. */
  lemma AndIdempotent(x: Octet, m: Octet)
    ensures And(And(x, m), m) == And(x, m)
  {
    var n: Octet := And(x, m);
    AndOctetBits(x, m);
    AndOctetBits(n, m);
    Pow2Octets();
    BitsDetermine(And(n, m), n, 8);
  }

  /**
   * The network address is octet by octet at most the address and has no bit
   * outside the mask, so applying the mask a second time changes nothing.
   */
  lemma NetworkMasked(ip: Address, mask: Address)
    ensures forall i :: 0 <= i < 4 ==> NetworkOctets(ip, mask)[i] <= ip[i]
    ensures forall k :: 0 <= k < 32 ==> (Bit(NetworkOctets(ip, mask), k) ==> Bit(mask, k))
    ensures NetworkOctets(NetworkOctets(ip, mask), mask) == NetworkOctets(ip, mask)
  {
    NetworkOctetsBits(ip, mask);
    forall i | 0 <= i < 4 {
      AndIdempotent(ip[i], mask[i]);
    }
  }

  // ---------------------------------------------------------------------------
  // calculateBroadcastOctets (subnet.js:74-76)

  /**
   * `~m & 255` for an octet `m`: JavaScript's `~` maps `m` to `-m - 1`, and
   * `& 255` keeps the low eight bits of that two's-complement value, its
   * remainder modulo 256.
   */
  function Complement(m: Octet): (c: Octet)
    ensures c == 0xFF - m
  {
    (-(m as int) - 1) % 0x100
  }

  /** The complement of an octet has exactly the bits the octet lacks. */
  lemma ComplementBits(m: Octet)
    ensures forall j :: 0 <= j < 8 ==> (TestBit(Complement(m), j) <==> !TestBit(m, j))
  {
    Pow2Octets();
    forall j | 0 <= j < 8 {
      ComplementBit(m, 8, j);
    }
  }

  /** `a | b` on two octets. */
  function OctetOr(a: Octet, b: Octet): (r: Octet)
    ensures a <= r && b <= r
  {
    Pow2Octets();
    OrBound(a, b, 8);
    Or(a, b)
  }

  /** Bit by bit, an octet of `a | b` is set where either operand is set. */
  lemma OrOctetBits(a: Octet, b: Octet)
    ensures forall j :: 0 <= j < 8 ==> (TestBit(OctetOr(a, b), j) <==> TestBit(a, j) || TestBit(b, j))
  {
    forall j | 0 <= j < 8 {
      OrBit(a, b, j);
    }
  }

  /** `networkOctets.map((octet, index) => octet | (~maskOctets[index] & 255))`. */
  function BroadcastOctets(network: Address, mask: Address): (broadcast: Address)
    ensures forall i :: 0 <= i < 4 ==> network[i] <= broadcast[i] && 0xFF - mask[i] <= broadcast[i]
  {
    seq(4, i requires 0 <= i < 4 => OctetOr(network[i], Complement(mask[i])))
  }

  /** Every bit of the broadcast address is set exactly where the network address has it or the mask lacks it. */
  lemma BroadcastOctetsBits(network: Address, mask: Address)
    ensures forall k :: 0 <= k < 32 ==> (Bit(BroadcastOctets(network, mask), k) <==> Bit(network, k) || !Bit(mask, k))
  {
    forall k | 0 <= k < 32
      ensures Bit(BroadcastOctets(network, mask), k) <==> Bit(network, k) || !Bit(mask, k)
    {
      OrOctetBits(network[k / 8], Complement(mask[k / 8]));
      ComplementBits(mask[k / 8]);
    }
  }

  /** Under the mask of prefix `p` the broadcast address keeps the first `p` bits of the address and sets the rest. */
  lemma BroadcastBits(ip: Address, p: Prefix)
    ensures forall k :: 0 <= k < 32 ==>
      (Bit(BroadcastOctets(NetworkOctets(ip, PrefixMask(p)), PrefixMask(p)), k) <==> (k < p ==> Bit(ip, k)))
  {
    MaskBits(p);
    NetworkOctetsBits(ip, PrefixMask(p));
    BroadcastOctetsBits(NetworkOctets(ip, PrefixMask(p)), PrefixMask(p));
  }

  /** Bits 0 to 7 of 255 are set and those of 0 clear. */
  lemma OctetExtremes()
    ensures forall j :: 0 <= j < 8 ==> TestBit(0xFF, j) && !TestBit(0, j)
  {
    Pow2Octets();
    forall j | 0 <= j < 8
      ensures TestBit(0xFF, j) && !TestBit(0, j)
    {
      ComplementBit(0, 8, j);
      ZeroBits(j);
    }
  }

  /** The broadcast octet agrees with the network octet under the mask. */
  lemma BroadcastOctetMasked(x: Octet, m: Octet)
    ensures And(OctetOr(And(x, m), Complement(m)), m) == And(x, m)
  {
    var n: Octet := And(x, m);
    var b := OctetOr(n, Complement(m));
    AndOctetBits(x, m);
    AndOctetBits(b, m);
    OrOctetBits(n, Complement(m));
    ComplementBits(m);
    Pow2Octets();
    BitsDetermine(And(b, m), n, 8);
  }

  /** The broadcast octet is all ones outside the mask, so with the mask added it is 255. */
  lemma BroadcastOctetFull(x: Octet, m: Octet)
    ensures OctetOr(OctetOr(And(x, m), Complement(m)), m) == 0xFF
  {
    var n: Octet := And(x, m);
    var b := OctetOr(n, Complement(m));
    OrOctetBits(n, Complement(m));
    OrOctetBits(b, m);
    ComplementBits(m);
    OctetExtremes();
    Pow2Octets();
    BitsDetermine(OctetOr(b, m), 0xFF, 8);
  }

  /** An octet splits into its part under a mask and its part under the complement, which share no bit. */
  lemma OctetParts(x: Octet, m: Octet)
    ensures And(And(x, m), Complement(m)) == 0
    ensures And(And(x, m), And(x, Complement(m))) == 0
    ensures x == And(x, m) + And(x, Complement(m))
  {
    var c := Complement(m);
    var n: Octet := And(x, m);
    var h: Octet := And(x, c);
    AndOctetBits(x, m);
    AndOctetBits(x, c);
    AndOctetBits(n, c);
    AndOctetBits(n, h);
    ComplementBits(m);
    OctetExtremes();
    Pow2Octets();
    BitsDetermine(And(n, c), 0, 8);
    BitsDetermine(And(n, h), 0, 8);
    OrDisjoint(n, h);
    OrOctetBits(n, h);
    BitsDetermine(OctetOr(n, h), x, 8);
  }

  /**
   * In one octet, the broadcast octet is the network octet plus the host part
   * of the mask, and the two bound the address octet.
   */
  lemma OctetRange(x: Octet, m: Octet)
    ensures OctetOr(And(x, m), Complement(m)) == And(x, m) + 0xFF - m
    ensures And(x, m) <= x <= OctetOr(And(x, m), Complement(m))
  {
    OctetParts(x, m);
    OrDisjoint(And(x, m), Complement(m));
  }

  /**
   * Octet by octet, the broadcast address agrees with the network address
   * under the mask, is all ones outside it, and bounds the address from above
   * as the network address bounds it from below.
   */
  lemma BroadcastAgreesWithNetwork(ip: Address, mask: Address)
    ensures forall i :: 0 <= i < 4 ==>
      && And(BroadcastOctets(NetworkOctets(ip, mask), mask)[i], mask[i]) == NetworkOctets(ip, mask)[i]
      && OctetOr(BroadcastOctets(NetworkOctets(ip, mask), mask)[i], mask[i]) == 0xFF
      && NetworkOctets(ip, mask)[i] <= ip[i] <= BroadcastOctets(NetworkOctets(ip, mask), mask)[i]
  {
    var network := NetworkOctets(ip, mask);
    var broadcast := BroadcastOctets(network, mask);
    forall i | 0 <= i < 4
      ensures And(broadcast[i], mask[i]) == network[i] && OctetOr(broadcast[i], mask[i]) == 0xFF
      ensures network[i] <= ip[i] <= broadcast[i]
    {
      BroadcastOctetMasked(ip[i], mask[i]);
      BroadcastOctetFull(ip[i], mask[i]);
      OctetRange(ip[i], mask[i]);
    }
  }

  /** Under a mask octet of 255 an octet passes through both the network and the broadcast step. */
  lemma FullMaskOctet(x: Octet)
    ensures And(x, 0xFF) == x
    ensures OctetOr(x, Complement(0xFF)) == x
  {
    AndOctetBits(x, 0xFF);
    OctetExtremes();
    Pow2Octets();
    BitsDetermine(And(x, 0xFF), x, 8);
  }

  /** Under a mask octet of 0 the network octet is 0 and the broadcast octet 255. */
  lemma EmptyMaskOctet(x: Octet)
    ensures And(x, 0) == 0
    ensures OctetOr(0, Complement(0)) == 0xFF
  {
  }

  /** A /32 subnet is the address alone: network and broadcast are the address itself. */
  lemma SingleHostSubnet(ip: Address)
    ensures PrefixMask(32) == [0xFF, 0xFF, 0xFF, 0xFF]
    ensures NetworkOctets(ip, PrefixMask(32)) == ip
    ensures BroadcastOctets(NetworkOctets(ip, PrefixMask(32)), PrefixMask(32)) == ip
  {
    assert PrefixMask(32) == [0xFF, 0xFF, 0xFF, 0xFF] by {
      Pow2Octets();
    }
    FullMaskOctet(ip[0]);
    FullMaskOctet(ip[1]);
    FullMaskOctet(ip[2]);
    FullMaskOctet(ip[3]);
  }

  /** A /0 subnet is the whole address space: network 0.0.0.0, broadcast 255.255.255.255. */
  lemma WholeSpaceSubnet(ip: Address)
    ensures PrefixMask(0) == [0, 0, 0, 0]
    ensures NetworkOctets(ip, PrefixMask(0)) == [0, 0, 0, 0]
    ensures BroadcastOctets(NetworkOctets(ip, PrefixMask(0)), PrefixMask(0)) == [0xFF, 0xFF, 0xFF, 0xFF]
  {
    assert PrefixMask(0) == [0, 0, 0, 0] by {
      Pow2Octets();
    }
  }

  // ---------------------------------------------------------------------------
  // calculateAddressCounts (subnet.js:83-88)

  /** `total = 2^(32 - prefix)`, `usable = total > 2 ? total - 2 : 0`. */
  function AddressCounts(prefix: Prefix): Counts {
    var total := Pow2(32 - prefix);
    Counts(total, if total > 2 then total - 2 else 0)
  }

  /**
   * `usable` is `total` less the network and broadcast addresses, except for
   * /31 and /32, where it is 0; it is always below `total`.
   */
  lemma UsableAddresses(p: Prefix)
    ensures AddressCounts(p).usable < AddressCounts(p).total
    ensures AddressCounts(p).usable == 0 <==> p >= 31
    ensures p <= 30 ==> AddressCounts(p).usable == AddressCounts(p).total - 2
  {
    if p <= 30 {
      Pow2Add(2, 30 - p);
    } else {
      assert Pow2(32 - p) <= 2;
    }
  }

  /** Lengthening the prefix by one bit halves the subnet. */
  lemma TotalHalves(p: Prefix)
    requires p < 32
    ensures AddressCounts(p).total == 2 * AddressCounts(p + 1).total
  {
  }

  /**
   * The total is exactly the number of addresses from the network address to
   * the broadcast address, both included, and the address lies between them.
   */
  lemma TotalIsRange(ip: Address, p: Prefix)
    ensures WordValue(NetworkOctets(ip, PrefixMask(p))) <= WordValue(ip)
    ensures WordValue(ip) <= WordValue(BroadcastOctets(NetworkOctets(ip, PrefixMask(p)), PrefixMask(p)))
    ensures WordValue(BroadcastOctets(NetworkOctets(ip, PrefixMask(p)), PrefixMask(p)))
      - WordValue(NetworkOctets(ip, PrefixMask(p))) + 1 == AddressCounts(p).total
  {
    var mask := PrefixMask(p);
    OctetRange(ip[0], mask[0]);
    OctetRange(ip[1], mask[1]);
    OctetRange(ip[2], mask[2]);
    OctetRange(ip[3], mask[3]);
    MaskValue(p);
    Pow2Octets();
  }

  // ---------------------------------------------------------------------------
  // octetsToDotNotation (subnet.js:95-97)

  /** `octets.join('.')`: each octet in decimal, separated by dots. */
  function OctetsToDotNotation(octets: seq<Octet>): string {
    Join(seq(|octets|, i requires 0 <= i < |octets| => DecimalString(octets[i])), '.')
  }

  /** Digit groups hold neither of the separators. */
  lemma DigitsAvoid(g: string)
    requires AllDigits(g)
    ensures '.' !in g && '/' !in g
  {
  }

  /** The dotted text splits back, at its dots, into the decimal texts of the octets. */
  lemma DotNotationRoundTrip(octets: seq<Octet>)
    requires |octets| >= 1
    ensures |Split(OctetsToDotNotation(octets), '.')| == |octets|
    ensures forall i :: 0 <= i < |octets| ==>
      DigitGroup(Split(OctetsToDotNotation(octets), '.')[i], 3)
      && DecimalValue(Split(OctetsToDotNotation(octets), '.')[i]) == octets[i]
  {
    var parts := seq(|octets|, i requires 0 <= i < |octets| => DecimalString(octets[i]));
    Pow10Bounds();
    forall i | 0 <= i < |parts|
      ensures DigitGroup(parts[i], 3) && '.' !in parts[i]
    {
      DecimalStringLength(octets[i], 3);
      DigitsAvoid(parts[i]);
    }
    SplitJoin(parts, '.');
  }

  // ---------------------------------------------------------------------------
  // The pattern, the parse and the validity gate, characterised

  /** An assembled text splits at `/` into its address part and its prefix, and the address part at `.` into its groups. */
  lemma AssembledSplits(groups: seq<string>, prefix: string)
    requires CidrGroups(groups, prefix)
    ensures Split(Assemble(groups, prefix), '/') == [Join(groups, '.'), prefix]
    ensures Split(Join(groups, '.'), '.') == groups
  {
    forall i | 0 <= i < 4
      ensures '/' !in groups[i] && '.' !in groups[i]
    {
      DigitsAvoid(groups[i]);
    }
    DigitsAvoid(prefix);
    JoinAvoids(groups, '.', '/');
    SplitAtFirst(Join(groups, '.'), '/', prefix);
    SplitNoSeparator(prefix, '/');
    SplitJoin(groups, '.');
  }

  /** `parseCIDR` on an assembled text returns the decimal values of its groups. */
  lemma ParseAssembled(groups: seq<string>, prefix: string)
    requires CidrGroups(groups, prefix)
    ensures MatchesPattern(Assemble(groups, prefix))
    ensures ParseCidr(Assemble(groups, prefix))
      == Cidr(seq(4, i requires 0 <= i < 4 => DecimalValue(groups[i])), DecimalValue(prefix))
  {
    AssembledSplits(groups, prefix);
  }

  /** The split-based test accepts exactly the language of the regular expression. */
  lemma MatchesPatternIff(s: string)
    ensures MatchesPattern(s) <==> PatternShape(s)
  {
    if MatchesPattern(s) {
      var halves := Split(s, '/');
      var groups := Split(halves[0], '.');
      JoinSplit(s, '/');
      JoinSplit(halves[0], '.');
      assert s == Assemble(groups, halves[1]);
    }
    if PatternShape(s) {
      var groups, prefix :| CidrGroups(groups, prefix) && s == Assemble(groups, prefix);
      ParseAssembled(groups, prefix);
    }
  }

  /**
   * `isValid` accepts exactly the texts made of four groups of 1-3 digits,
   * each worth at most 255, separated by dots, then `/` and a group of 1-2
   * digits worth at most 32.
   */
  lemma IsValidIff(s: string)
    ensures IsValid(s) <==> ValidText(s)
  {
    if IsValid(s) {
      var halves := Split(s, '/');
      var groups := Split(halves[0], '.');
      JoinSplit(s, '/');
      JoinSplit(halves[0], '.');
      assert s == Assemble(groups, halves[1]);
      assert CidrGroups(groups, halves[1]);
      var c := ParseCidr(s);
      assert forall i :: 0 <= i < 4 ==> DecimalValue(groups[i]) == c.octets[i] <= 255;
      assert DecimalValue(halves[1]) <= 32;
    }
    if ValidText(s) {
      var groups, prefix :|
        && CidrGroups(groups, prefix)
        && (forall i :: 0 <= i < 4 ==> DecimalValue(groups[i]) <= 255)
        && DecimalValue(prefix) <= 32
        && s == Assemble(groups, prefix);
      ParseAssembled(groups, prefix);
      var c := ParseCidr(s);
      assert forall i :: 0 <= i < 4 ==> c.octets[i] == DecimalValue(groups[i]);
    }
  }

  /** The canonical text of an address and a prefix, `octetsToDotNotation(octets) + '/' + prefix`. */
  function CidrText(octets: Address, prefix: Prefix): string {
    OctetsToDotNotation(octets) + "/" + DecimalString(prefix)
  }

  /** The canonical text is valid and parses back to the same octets and prefix. */
  lemma CidrTextRoundTrip(octets: Address, prefix: Prefix)
    ensures IsValid(CidrText(octets, prefix))
    ensures ParseCidr(CidrText(octets, prefix)) == Cidr(octets, prefix)
  {
    var groups := seq(4, i requires 0 <= i < 4 => DecimalString(octets[i]));
    var p := DecimalString(prefix);
    Pow10Bounds();
    forall i | 0 <= i < 4
      ensures DigitGroup(groups[i], 3)
    {
      DecimalStringLength(octets[i], 3);
    }
    DecimalStringLength(prefix, 2);
    assert CidrText(octets, prefix) == Assemble(groups, p);
    ParseAssembled(groups, p);
  }

  // ---------------------------------------------------------------------------
  // calculateSubnet (subnet.js:104-124)

  /** The record `calculateSubnet` builds from a parsed address and prefix. */
  function SubnetOf(ip: Address, prefix: Prefix): SubnetInfo {
    var mask := PrefixMask(prefix);
    var network := NetworkOctets(ip, mask);
    var counts := AddressCounts(prefix);
    SubnetInfo(ip, mask, network, BroadcastOctets(network, mask), prefix, counts.total, counts.usable)
  }

  /**
   * `calculateSubnet`: `None` (the source's `null`) exactly when the text is
   * not valid; otherwise the subnet of the parsed address and prefix.
   */
  method CalculateSubnet(s: string) returns (r: Option<SubnetInfo>)
    ensures r.None? <==> !IsValid(s)
    ensures r.Some? ==> r.value == SubnetOf(ToAddress(ParseCidr(s).octets), ParseCidr(s).prefix)
  {
    if !IsValid(s) {
      return None;
    }
    var c := ParseCidr(s);
    var ipOctets := ToAddress(c.octets);
    var prefix: Prefix := c.prefix;
    var maskOctets := SubnetMaskOctets(prefix);
    var networkOctets := NetworkOctets(ipOctets, maskOctets);
    var broadcastOctets := BroadcastOctets(networkOctets, maskOctets);
    var counts := AddressCounts(prefix);
    r := Some(SubnetInfo(ipOctets, maskOctets, networkOctets, broadcastOctets, prefix, counts.total, counts.usable));
  }

  /**
   * What the record says: the address keeps its octets, the mask has
   * `prefix` leading ones, the network and broadcast addresses keep the
   * network bits of the address and clear or set its host bits, they bound
   * the address, and the total counts the addresses between them.
   */
  lemma SubnetOfMeaning(ip: Address, prefix: Prefix)
    ensures var info := SubnetOf(ip, prefix);
      && info.ipOctets == ip && info.prefix == prefix
      && (forall k :: 0 <= k < 32 ==> (Bit(info.maskOctets, k) <==> k < prefix))
      && (forall k :: 0 <= k < 32 ==> (Bit(info.networkOctets, k) <==> k < prefix && Bit(ip, k)))
      && (forall k :: 0 <= k < 32 ==> (Bit(info.broadcastOctets, k) <==> (k < prefix ==> Bit(ip, k))))
      && WordValue(info.networkOctets) <= WordValue(ip) <= WordValue(info.broadcastOctets)
      && info.totalAddresses == WordValue(info.broadcastOctets) - WordValue(info.networkOctets) + 1
      && info.usableAddresses < info.totalAddresses
  {
    MaskBits(prefix);
    NetworkBits(ip, prefix);
    BroadcastBits(ip, prefix);
    TotalIsRange(ip, prefix);
    UsableAddresses(prefix);
  }
}
