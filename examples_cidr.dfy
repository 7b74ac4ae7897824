/**
 * The calculator on concrete inputs: the form's default `192.168.1.0/24`, a
 * class A network, a single host, the whole address space, and two texts
 * the validity gate turns away.
 */
module SubnetExamples {
  import opened Bits
  import opened JsText
  import opened SubnetCalculator

  lemma DecimalValues()
    ensures DecimalValue("0") == 0 && DecimalValue("1") == 1 && DecimalValue("5") == 5
    ensures DecimalValue("8") == 8 && DecimalValue("10") == 10 && DecimalValue("24") == 24
    ensures DecimalValue("32") == 32 && DecimalValue("33") == 33
    ensures DecimalValue("168") == 168 && DecimalValue("192") == 192 && DecimalValue("999") == 999
  {
    assert "10"[..1] == "1";
    assert "24"[..1] == "2";
    assert "32"[..1] == "3";
    assert "33"[..1] == "3";
    assert "168"[..2] == "16" && "16"[..1] == "1";
    assert "192"[..2] == "19" && "19"[..1] == "1";
    assert "999"[..2] == "99" && "99"[..1] == "9";
  }

  /** The text of four groups and a prefix group, and what `parseCIDR` reads from it. */
  lemma Parses(s: string, groups: seq<string>, prefix: string, octets: seq<nat>, p: nat)
    requires CidrGroups(groups, prefix) && s == Assemble(groups, prefix)
    requires |octets| == 4 && forall i :: 0 <= i < 4 ==> DecimalValue(groups[i]) == octets[i]
    requires DecimalValue(prefix) == p
    ensures MatchesPattern(s) && ParseCidr(s) == Cidr(octets, p)
  {
    ParseAssembled(groups, prefix);
  }

  /** A text that parses to octets and a prefix in range is valid. */
  lemma ValidWhenInRange(s: string, octets: seq<nat>, p: nat)
    requires MatchesPattern(s) && ParseCidr(s) == Cidr(octets, p)
    requires forall i :: 0 <= i < |octets| ==> octets[i] <= 255
    requires p <= 32
    ensures IsValid(s)
  {
  }

  /** `192.168.1.0/24` is valid and parses to the address 192.168.1.0 and the prefix 24. */
  lemma ClassCText(groups: seq<string>, text: string)
    requires groups == ["192", "168", "1", "0"] && text == Assemble(groups, "24")
    ensures IsValid(text) && ParseCidr(text) == Cidr([192, 168, 1, 0], 24)
  {
    DecimalValues();
    Parses(text, groups, "24", [192, 168, 1, 0], 24);
    ValidWhenInRange(text, [192, 168, 1, 0], 24);
  }

  /** Under a /24 mask the network address clears the last octet and the broadcast address fills it. */
  lemma Slash24(ip: Address)
    ensures PrefixMask(24) == [0xFF, 0xFF, 0xFF, 0]
    ensures NetworkOctets(ip, PrefixMask(24)) == [ip[0], ip[1], ip[2], 0]
    ensures BroadcastOctets(NetworkOctets(ip, PrefixMask(24)), PrefixMask(24)) == [ip[0], ip[1], ip[2], 0xFF]
  {
    assert PrefixMask(24) == [0xFF, 0xFF, 0xFF, 0] by {
      Pow2Octets();
    }
    FullMaskOctet(ip[0]);
    FullMaskOctet(ip[1]);
    FullMaskOctet(ip[2]);
    EmptyMaskOctet(ip[3]);
  }

  /** 192.168.1.0/24: mask 255.255.255.0, network 192.168.1.0, broadcast 192.168.1.255, 256 addresses, 254 usable. */
  lemma ClassCNetwork(ip: Address)
    requires ip == [192, 168, 1, 0]
    ensures SubnetOf(ip, 24)
      == SubnetInfo(ip, [255, 255, 255, 0], [192, 168, 1, 0], [192, 168, 1, 255], 24, 256, 254)
  {
    Slash24(ip);
    assert AddressCounts(24) == Counts(256, 254) by {
      Pow2Octets();
    }
  }

  /** `10.0.0.5/8` is valid and parses to the address 10.0.0.5 and the prefix 8. */
  lemma ClassAText(groups: seq<string>, text: string)
    requires groups == ["10", "0", "0", "5"] && text == Assemble(groups, "8")
    ensures IsValid(text) && ParseCidr(text) == Cidr([10, 0, 0, 5], 8)
  {
    DecimalValues();
    Parses(text, groups, "8", [10, 0, 0, 5], 8);
    ValidWhenInRange(text, [10, 0, 0, 5], 8);
  }

  /** Under a /8 mask the network address keeps the first octet and clears the rest; the broadcast address fills the rest. */
  lemma Slash8(ip: Address)
    ensures PrefixMask(8) == [0xFF, 0, 0, 0]
    ensures NetworkOctets(ip, PrefixMask(8)) == [ip[0], 0, 0, 0]
    ensures BroadcastOctets(NetworkOctets(ip, PrefixMask(8)), PrefixMask(8)) == [ip[0], 0xFF, 0xFF, 0xFF]
  {
    assert PrefixMask(8) == [0xFF, 0, 0, 0] by {
      Pow2Octets();
    }
    FullMaskOctet(ip[0]);
    EmptyMaskOctet(ip[1]);
    EmptyMaskOctet(ip[2]);
    EmptyMaskOctet(ip[3]);
  }

  /** 10.0.0.5/8: mask 255.0.0.0, network 10.0.0.0, broadcast 10.255.255.255, 2^24 addresses. */
  lemma ClassANetwork(ip: Address)
    requires ip == [10, 0, 0, 5]
    ensures SubnetOf(ip, 8)
      == SubnetInfo(ip, [255, 0, 0, 0], [10, 0, 0, 0], [10, 255, 255, 255], 8, 16777216, 16777214)
  {
    Slash8(ip);
    assert AddressCounts(8) == Counts(16777216, 16777214) by {
      Pow2Octets();
    }
  }

  /** `192.168.1.1/32` is valid and parses to the address 192.168.1.1 and the prefix 32. */
  lemma SingleHostText(groups: seq<string>, text: string)
    requires groups == ["192", "168", "1", "1"] && text == Assemble(groups, "32")
    ensures IsValid(text) && ParseCidr(text) == Cidr([192, 168, 1, 1], 32)
  {
    DecimalValues();
    Parses(text, groups, "32", [192, 168, 1, 1], 32);
    ValidWhenInRange(text, [192, 168, 1, 1], 32);
  }

  /** 192.168.1.1/32: the host alone, one address and none usable. */
  lemma SingleHost(ip: Address)
    requires ip == [192, 168, 1, 1]
    ensures SubnetOf(ip, 32) == SubnetInfo(ip, [255, 255, 255, 255], ip, ip, 32, 1, 0)
  {
    SingleHostSubnet(ip);
  }

  /** `0.0.0.0/0` is valid and parses to the address 0.0.0.0 and the prefix 0. */
  lemma WholeSpaceText(groups: seq<string>, text: string)
    requires groups == ["0", "0", "0", "0"] && text == Assemble(groups, "0")
    ensures IsValid(text) && ParseCidr(text) == Cidr([0, 0, 0, 0], 0)
  {
    DecimalValues();
    Parses(text, groups, "0", [0, 0, 0, 0], 0);
    ValidWhenInRange(text, [0, 0, 0, 0], 0);
  }

  /** 0.0.0.0/0: the whole space, network 0.0.0.0, broadcast 255.255.255.255, 2^32 addresses. */
  lemma WholeSpace(ip: Address)
    requires ip == [0, 0, 0, 0]
    ensures SubnetOf(ip, 0)
      == SubnetInfo(ip, [0, 0, 0, 0], [0, 0, 0, 0], [255, 255, 255, 255], 0, 4294967296, 4294967294)
  {
    WholeSpaceSubnet(ip);
    assert AddressCounts(0) == Counts(4294967296, 4294967294) by {
      Pow2Octets();
    }
  }

  /** `999.1.1.1/24` has the shape of the pattern but an octet above 255. */
  lemma OctetOutOfRange(groups: seq<string>, text: string)
    requires groups == ["999", "1", "1", "1"] && text == Assemble(groups, "24")
    ensures MatchesPattern(text) && !IsValid(text)
  {
    DecimalValues();
    Parses(text, groups, "24", [999, 1, 1, 1], 24);
  }

  /** `10.0.0.1/33` has the shape of the pattern but a prefix above 32. */
  lemma PrefixOutOfRange(groups: seq<string>, text: string)
    requires groups == ["10", "0", "0", "1"] && text == Assemble(groups, "33")
    ensures MatchesPattern(text) && !IsValid(text)
  {
    DecimalValues();
    Parses(text, groups, "33", [10, 0, 0, 1], 33);
  }

  /** A text without a prefix does not match the pattern. */
  lemma MissingPrefix(text: string)
    requires text == "192.168.1.0"
    ensures !IsValid(text)
  {
    SplitNoSeparator(text, '/');
  }
}
