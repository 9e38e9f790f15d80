/**
 * The pure parts of WifiUtil: rendering an Android little-endian IPv4 int as a
 * dotted quad, and choosing a broadcast address from the enumerated interfaces.
 */
module WifiUtil {
  import opened Wrappers
  import opened JavaStrings
  import opened Net

  /** A Java int. */
  type Int32 = i: int | -0x8000_0000 <= i < 0x8000_0000

  /**
   * (i >> 8k) & 0xFF. An arithmetic right shift by 8k is floor division by 2^(8k), which is
   * what Dafny's / does for a positive divisor; & 0xFF on two's complement is % 256.
   */
  function Octet(i: int, k: nat): (o: nat)
    requires k < 4
    ensures o < 256
  {
    var shifted := if k == 0 then i else if k == 1 then i / 0x100 else if k == 2 then i / 0x1_0000 else i / 0x100_0000;
    shifted % 0x100
  }

  function Octets(i: int): seq<nat> {
    [Octet(i, 0), Octet(i, 1), Octet(i, 2), Octet(i, 3)]
  }

  /** intToIp: the four octets, least significant first, in decimal, separated by dots. */
  function IntToIp(i: Int32): (r: string)
    ensures 7 <= |r| <= 15
  {
    var ds := [NatToDecimal(Octet(i, 0)), NatToDecimal(Octet(i, 1)), NatToDecimal(Octet(i, 2)), NatToDecimal(Octet(i, 3))];
    ByteDecimalLength(Octet(i, 0));
    ByteDecimalLength(Octet(i, 1));
    ByteDecimalLength(Octet(i, 2));
    ByteDecimalLength(Octet(i, 3));
    assert ds[1..][1..][1..] == [ds[3]];
    assert |Join(ds[1..][1..], '.')| == |ds[2]| + 1 + |ds[3]|;
    assert |Join(ds[1..], '.')| == |ds[1]| + 1 + |ds[2]| + 1 + |ds[3]|;
    Join(ds, '.')
  }

  /** An octet is written with one to three digits. */
  lemma ByteDecimalLength(n: nat)
    requires n < 256
    ensures 1 <= |NatToDecimal(n)| <= 3
  {
    if n >= 10 {
      assert |NatToDecimal(n / 10)| <= 2 by {
        if n / 10 >= 10 {
          assert NatToDecimal(n / 10) == NatToDecimal(n / 100) + [DigitChar(n / 10 % 10)];
        }
      }
    }
  }

  /** Reads a dotted quad back: four dot-separated runs of digits. */
  function ParseDottedQuad(s: string): Option<seq<nat>> {
    var fields := SplitOn(s, '.');
    if |fields| == 4 && forall j :: 0 <= j < 4 ==> fields[j] != "" && AllDigits(fields[j]) then
      Some([DigitsValue(fields[0]), DigitsValue(fields[1]), DigitsValue(fields[2]), DigitsValue(fields[3])])
    else
      None
  }

  /** Four decimal numbers joined by dots read back as those numbers. */
  lemma DottedQuadRoundTrip(a: nat, b: nat, c: nat, d: nat)
    ensures ParseDottedQuad(Join([NatToDecimal(a), NatToDecimal(b), NatToDecimal(c), NatToDecimal(d)], '.')) == Some([a, b, c, d])
  {
    var ds := [NatToDecimal(a), NatToDecimal(b), NatToDecimal(c), NatToDecimal(d)];
    forall j | 0 <= j < 4 ensures '.' !in ds[j] {
      DecimalHasNoDot(ds[j]);
    }
    SplitOnJoin(ds, '.');
    var fields := SplitOn(Join(ds, '.'), '.');
    assert fields == ds;
    assert forall j :: 0 <= j < 4 ==> fields[j] != "" && AllDigits(fields[j]);
    DecimalRoundTrip(a);
    DecimalRoundTrip(b);
    DecimalRoundTrip(c);
    DecimalRoundTrip(d);
    assert [DigitsValue(fields[0]), DigitsValue(fields[1]), DigitsValue(fields[2]), DigitsValue(fields[3])] == [a, b, c, d];
  }

  lemma DecimalHasNoDot(s: string)
    requires AllDigits(s)
    ensures '.' !in s
  {
    forall p | 0 <= p < |s| ensures s[p] != '.' {
      assert IsDigit(s[p]);
    }
  }

  /** The text intToIp writes is a dotted quad whose fields are the four octets, each below 256. */
  lemma IntToIpParses(i: Int32)
    ensures ParseDottedQuad(IntToIp(i)) == Some(Octets(i))
    ensures forall k :: 0 <= k < 4 ==> Octets(i)[k] < 256
  {
    DottedQuadRoundTrip(Octet(i, 0), Octet(i, 1), Octet(i, 2), Octet(i, 3));
  }

  /** The octets, weighted by their byte position, add up to i taken modulo 2^32. */
  lemma OctetsReassemble(i: Int32)
    ensures Octet(i, 0) + 0x100 * Octet(i, 1) + 0x1_0000 * Octet(i, 2) + 0x100_0000 * Octet(i, 3) == i % 0x1_0000_0000
  {
    var q1, q2, q3 := i / 0x100, i / 0x1_0000, i / 0x100_0000;
    assert q2 == q1 / 0x100;
    assert q3 == q2 / 0x100;
  }

  /** Distinct ints give distinct dotted quads. */
  lemma IntToIpInjective(i: Int32, j: Int32)
    requires IntToIp(i) == IntToIp(j)
    ensures i == j
  {
    IntToIpParses(i);
    IntToIpParses(j);
    assert Octets(i) == Octets(j);
    OctetsReassemble(i);
    OctetsReassemble(j);
    SameLowWord(i, j);
  }

  lemma SameLowWord(i: Int32, j: Int32)
    requires i % 0x1_0000_0000 == j % 0x1_0000_0000
    ensures i == j
  {
  }

  /** -1 is all ones. */
  lemma IntToIpAllOnes()
    ensures IntToIp(-1) == "255.255.255.255"
  {
    assert Octets(-1) == [255, 255, 255, 255];
    var t := NatToDecimal(255);
    assert t == "255" by {
      assert NatToDecimal(2) == "2";
      assert NatToDecimal(25) == "25";
    }
    assert IntToIp(-1) == Join([t, t, t, t], '.');
  }

  /** The first byte in memory comes first: 0x0100A8C0 is 192.168.0.1. */
  lemma IntToIpLittleEndian()
    ensures IntToIp(0x0100A8C0) == "192.168.0.1"
  {
    assert Octets(0x0100A8C0) == [192, 168, 0, 1];
    var a, b, c, d := NatToDecimal(192), NatToDecimal(168), NatToDecimal(0), NatToDecimal(1);
    assert a == "192" by {
      assert NatToDecimal(1) == "1";
      assert NatToDecimal(19) == "19";
    }
    assert b == "168" by {
      assert NatToDecimal(1) == "1";
      assert NatToDecimal(16) == "16";
    }
    assert c == "0" && d == "1";
    assert IntToIp(0x0100A8C0) == Join([a, b, c, d], '.');
  }

  /**
   * An address getBroadcastAddress(name) may answer with: not loopback, and no ':' after the
   * first character of its text (indexOf(":") > 0 marks IPv6).
   */
  predicate Qualifies(a: InterfaceAddress) {
    !a.address.isLoopback && !(IndexOf(a.address.hostAddress, ':') > 0)
  }

  function QualifyingAddresses(addrs: seq<InterfaceAddress>): seq<InterfaceAddress> {
    if addrs == [] then []
    else (if Qualifies(addrs[0]) then [addrs[0]] else []) + QualifyingAddresses(addrs[1..])
  }

  /** The qualifying addresses of the interfaces whose display name starts with name, in enumeration order. */
  function Candidates(interfaces: seq<NetworkInterface>, name: string): seq<InterfaceAddress> {
    if interfaces == [] then []
    else
      (if StartsWith(interfaces[0].displayName, name) then QualifyingAddresses(interfaces[0].addresses) else [])
        + Candidates(interfaces[1..], name)
  }

  /**
   * getBroadcastAddress(name) as a value: the broadcast of the first candidate. A missing
   * enumeration, no candidate, or a first candidate without broadcast address (getBroadcast()
   * is null, the call throws and the catch returns null) all give None.
   */
  function BroadcastAddressOf(interfaces: Option<seq<NetworkInterface>>, name: string): Option<string> {
    if interfaces.None? then None
    else
      var c := Candidates(interfaces.value, name);
      if c == [] || c[0].broadcast.None? then None else Some(c[0].broadcast.value.hostAddress)
  }

  lemma {:induction false} QualifyingAddressesMembers(addrs: seq<InterfaceAddress>, a: InterfaceAddress)
    ensures a in QualifyingAddresses(addrs) <==> a in addrs && Qualifies(a)
  {
    if addrs != [] {
      QualifyingAddressesMembers(addrs[1..], a);
      assert addrs == [addrs[0]] + addrs[1..];
    }
  }

  /** The candidates are exactly the qualifying addresses of interfaces whose display name starts with name. */
  lemma {:induction false} CandidatesMembers(interfaces: seq<NetworkInterface>, name: string, a: InterfaceAddress)
    ensures a in Candidates(interfaces, name) <==>
      exists i :: 0 <= i < |interfaces| && StartsWith(interfaces[i].displayName, name)
        && a in interfaces[i].addresses && Qualifies(a)
  {
    if interfaces != [] {
      CandidatesMembers(interfaces[1..], name, a);
      QualifyingAddressesMembers(interfaces[0].addresses, a);
      if a in Candidates(interfaces[1..], name) {
        var i :| 0 <= i < |interfaces[1..]| && StartsWith(interfaces[1..][i].displayName, name)
          && a in interfaces[1..][i].addresses && Qualifies(a);
        assert interfaces[i + 1] == interfaces[1..][i];
      }
      if exists i :: (0 < i < |interfaces| && StartsWith(interfaces[i].displayName, name)
        && a in interfaces[i].addresses && Qualifies(a))
      {
        var i :| 0 < i < |interfaces| && StartsWith(interfaces[i].displayName, name)
          && a in interfaces[i].addresses && Qualifies(a);
        assert interfaces[1..][i - 1] == interfaces[i];
      }
    }
  }

  /**
   * getBroadcastAddress(netCardName): walks the interfaces and, inside each one whose display
   * name starts with netCardName, its addresses; returns at the first address that is neither
   * loopback nor IPv6. A null enumeration (or any exception) gives None.
   */
  method GetBroadcastAddress(interfaces: Option<seq<NetworkInterface>>, netCardName: string) returns (r: Option<string>)
    ensures r == BroadcastAddressOf(interfaces, netCardName)
  {
    if interfaces.None? {
      return None;
    }
    var eni := interfaces.value;
    var i := 0;
    while i < |eni|
      invariant 0 <= i <= |eni|
      invariant Candidates(eni, netCardName) == Candidates(eni[i..], netCardName)
    {
      var networkCard := eni[i];
      assert eni[i..][1..] == eni[i + 1..];
      if StartsWith(networkCard.displayName, netCardName) {
        var addrs := networkCard.addresses;
        var j := 0;
        while j < |addrs|
          invariant 0 <= j <= |addrs|
          invariant QualifyingAddresses(addrs) == QualifyingAddresses(addrs[j..])
        {
          var networkCardAddress := addrs[j];
          assert addrs[j..][1..] == addrs[j + 1..];
          var address := networkCardAddress.address;
          if !address.isLoopback && !(IndexOf(address.hostAddress, ':') > 0) {
            // IPv4: its broadcast address, or None when getBroadcast() is null
            assert Candidates(eni, netCardName)[0] == networkCardAddress;
            if networkCardAddress.broadcast.None? {
              return None;
            }
            return Some(networkCardAddress.broadcast.value.hostAddress);
          }
          j := j + 1;
        }
      }
      i := i + 1;
    }
    return None;
  }

  /** getBroadcastAddress(): the p2p interface's broadcast address if there is one, otherwise wlan0's. */
  function PreferredBroadcastAddress(interfaces: Option<seq<NetworkInterface>>): (r: Option<string>)
    ensures r.Some? ==> interfaces.Some? && exists a ::
      (a in Candidates(interfaces.value, "p2p") || a in Candidates(interfaces.value, "wlan0"))
      && a.broadcast.Some? && a.broadcast.value.hostAddress == r.value
    ensures BroadcastAddressOf(interfaces, "p2p").Some? ==> r == BroadcastAddressOf(interfaces, "p2p")
    ensures BroadcastAddressOf(interfaces, "p2p").None? ==> r == BroadcastAddressOf(interfaces, "wlan0")
  {
    var broadcast := BroadcastAddressOf(interfaces, "p2p");
    if broadcast.None? then BroadcastAddressOf(interfaces, "wlan0") else broadcast
  }

  /** The same fallback written as getBroadcastAddress() is: two searches through the method. */
  method GetPreferredBroadcastAddress(interfaces: Option<seq<NetworkInterface>>) returns (r: Option<string>)
    ensures r == PreferredBroadcastAddress(interfaces)
  {
    r := GetBroadcastAddress(interfaces, "p2p");
    if r.None? {
      r := GetBroadcastAddress(interfaces, "wlan0");
    }
  }
}
