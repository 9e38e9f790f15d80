/**
 * The pure fragments of DeviceUtil: the MAC address text of the wlan0 interface, the
 * third '_'-separated field of the hq ROM version, the cpu[0-9] core count and the
 * null-context guard of getDeviceId. The Android and OS lookups behind them are inputs.
 */
module DeviceUtil {
  import opened Wrappers
  import opened JavaStrings
  import opened Net

  // ---------------------------------------------------------------- MAC address

  function HexDigit(v: nat): (c: char)
    requires v < 16
  {
    if v < 10 then DigitChar(v) else (v - 10 + 'A' as int) as char
  }

  /** The value an upper-case hex digit stands for. */
  function HexValue(c: char): int {
    if '0' <= c <= '9' then c as int - '0' as int
    else if 'A' <= c <= 'F' then c as int - 'A' as int + 10
    else -1
  }

  /** String.format("%02X", b): two upper-case hex digits of the byte's unsigned value. */
  function Hex2(b: JByte): (s: string)
    ensures |s| == 2 && ':' !in s
    ensures 0 <= HexValue(s[0]) < 16 && 0 <= HexValue(s[1]) < 16
    ensures HexValue(s[0]) * 16 + HexValue(s[1]) == (b + 256) % 256
  {
    var u := (b + 256) % 256;
    [HexDigit(u / 16), HexDigit(u % 16)]
  }

  /** Distinct bytes have distinct unsigned values. */
  lemma UnsignedInjective(a: JByte, b: JByte)
    requires (a + 256) % 256 == (b + 256) % 256
    ensures a == b
  {
    assert (a + 256) % 256 == if a >= 0 then a else a + 256;
    assert (b + 256) % 256 == if b >= 0 then b else b + 256;
  }

  /** Two bytes with the same two hex digits are the same byte. */
  lemma Hex2Injective(a: JByte, b: JByte)
    requires Hex2(a) == Hex2(b)
    ensures a == b
  {
    var s := Hex2(a);
    assert (a + 256) % 256 == HexValue(s[0]) * 16 + HexValue(s[1]) == (b + 256) % 256;
    UnsignedInjective(a, b);
  }

  /** The MAC text: each byte as Hex2, with ':' between consecutive bytes. */
  function MacText(mac: seq<JByte>): string {
    if |mac| == 0 then ""
    else if |mac| == 1 then Hex2(mac[0])
    else Hex2(mac[0]) + ":" + MacText(mac[1..])
  }

  /**
   * For n >= 1 bytes the text has length 3n - 1: byte k at positions 3k and 3k+1, a ':' at
   * 3k+2 after every byte but the last, and no trailing colon.
   */
  lemma {:induction false} MacTextShape(mac: seq<JByte>)
    requires |mac| >= 1
    ensures |MacText(mac)| == 3 * |mac| - 1
    ensures forall k :: 0 <= k < |mac| ==> MacText(mac)[3 * k..3 * k + 2] == Hex2(mac[k])
    ensures forall k :: 0 <= k < |mac| - 1 ==> MacText(mac)[3 * k + 2] == ':'
  {
    if |mac| > 1 {
      var rest := MacText(mac[1..]);
      MacTextShape(mac[1..]);
      var s := MacText(mac);
      assert s == Hex2(mac[0]) + ":" + rest;
      forall k | 0 < k < |mac| ensures s[3 * k..3 * k + 2] == Hex2(mac[k]) {
        assert s[3 * k..3 * k + 2] == rest[3 * (k - 1)..3 * (k - 1) + 2];
        assert mac[1..][k - 1] == mac[k];
      }
      forall k | 0 < k < |mac| - 1 ensures s[3 * k + 2] == ':' {
        assert s[3 * k + 2] == rest[3 * (k - 1) + 2];
      }
    }
  }

  /** Different MAC addresses give different texts. */
  lemma MacTextInjective(a: seq<JByte>, b: seq<JByte>)
    requires MacText(a) == MacText(b)
    ensures a == b
  {
    if |a| == 0 || |b| == 0 {
      if |a| != 0 { MacTextShape(a); }
      if |b| != 0 { MacTextShape(b); }
    } else {
      MacTextShape(a);
      MacTextShape(b);
      forall k | 0 <= k < |a| ensures a[k] == b[k] {
        Hex2Injective(a[k], b[k]);
      }
    }
  }

  /** What the StringBuilder holds after the append loop: every byte as "%02X:". */
  function ColonTerminated(mac: seq<JByte>): string {
    if mac == [] then "" else ColonTerminated(mac[..|mac| - 1]) + Hex2(mac[|mac| - 1]) + ":"
  }

  lemma {:induction false} ColonTerminatedIsMacText(mac: seq<JByte>)
    requires |mac| >= 1
    ensures ColonTerminated(mac) == MacText(mac) + ":"
  {
    if |mac| > 1 {
      var init := mac[..|mac| - 1];
      ColonTerminatedIsMacText(init);
      MacTextAppend(init, mac[|mac| - 1]);
      assert init + [mac[|mac| - 1]] == mac;
    }
  }

  lemma {:induction false} MacTextAppend(mac: seq<JByte>, b: JByte)
    requires |mac| >= 1
    ensures MacText(mac + [b]) == MacText(mac) + ":" + Hex2(b)
  {
    if |mac| > 1 {
      MacTextAppend(mac[1..], b);
      assert (mac + [b])[1..] == mac[1..] + [b];
    } else {
      assert (mac + [b])[1..] == [b];
    }
  }

  /** The formatting loop of getWifiMacAddress: append "%02X:" per byte, then drop the last character. */
  method FormatMac(mac: seq<JByte>) returns (s: string)
    ensures s == MacText(mac)
  {
    var buf := "";
    var i := 0;
    while i < |mac|
      invariant 0 <= i <= |mac|
      invariant buf == ColonTerminated(mac[..i])
    {
      assert mac[..i + 1][..i] == mac[..i];
      buf := buf + Hex2(mac[i]) + ":";
      i := i + 1;
    }
    assert mac[..|mac|] == mac;
    if |buf| > 0 {
      ColonTerminatedIsMacText(mac);
      buf := buf[..|buf| - 1];
    }
    s := buf;
  }

  /** The first interface whose name equals name ignoring case, in enumeration order. */
  function FirstNamed(interfaces: seq<NetworkInterface>, name: string): Option<NetworkInterface> {
    if interfaces == [] then None
    else if EqualsIgnoreCase(interfaces[0].name, name) then Some(interfaces[0])
    else FirstNamed(interfaces[1..], name)
  }

  lemma {:induction false} FirstNamedIsFirst(interfaces: seq<NetworkInterface>, name: string)
    ensures FirstNamed(interfaces, name).None? <==>
      forall i :: 0 <= i < |interfaces| ==> !EqualsIgnoreCase(interfaces[i].name, name)
    ensures FirstNamed(interfaces, name).Some? ==> exists i :: (0 <= i < |interfaces|
      && FirstNamed(interfaces, name) == Some(interfaces[i]) && EqualsIgnoreCase(interfaces[i].name, name)
      && forall j :: 0 <= j < i ==> !EqualsIgnoreCase(interfaces[j].name, name))
  {
    if interfaces != [] && !EqualsIgnoreCase(interfaces[0].name, name) {
      var rest := interfaces[1..];
      FirstNamedIsFirst(rest, name);
      if FirstNamed(rest, name).Some? {
        var i :| 0 <= i < |rest| && FirstNamed(rest, name) == Some(rest[i]) && EqualsIgnoreCase(rest[i].name, name)
          && forall j :: 0 <= j < i ==> !EqualsIgnoreCase(rest[j].name, name);
        assert interfaces[i + 1] == rest[i];
        forall j | 0 <= j < i + 1 ensures !EqualsIgnoreCase(interfaces[j].name, name) {
          if j > 0 { assert interfaces[j] == rest[j - 1]; }
        }
      } else {
        forall i | 0 <= i < |interfaces| ensures !EqualsIgnoreCase(interfaces[i].name, name) {
          if i > 0 { assert interfaces[i] == rest[i - 1]; }
        }
      }
    }
  }

  /** getWifiMacAddress as a value: the MAC text of the first wlan0, or "" for none, a null address or a failed enumeration. */
  function WifiMacAddressOf(interfaces: Option<seq<NetworkInterface>>): string {
    if interfaces.None? then ""
    else match FirstNamed(interfaces.value, "wlan0")
      case None => ""
      case Some(nic) => if nic.hardwareAddress.None? then "" else MacText(nic.hardwareAddress.value)
  }

  /**
   * getWifiMacAddress: scans the interfaces for the name wlan0 (ignoring case) and formats the
   * hardware address of the first match. A null enumeration throws and the catch gives "".
   */
  method GetWifiMacAddress(interfaces: Option<seq<NetworkInterface>>) returns (s: string)
    ensures s == WifiMacAddressOf(interfaces)
  {
    if interfaces.None? {
      return "";
    }
    var ifs := interfaces.value;
    var i := 0;
    while i < |ifs|
      invariant 0 <= i <= |ifs|
      invariant FirstNamed(ifs, "wlan0") == FirstNamed(ifs[i..], "wlan0")
    {
      var intf := ifs[i];
      assert ifs[i..][1..] == ifs[i + 1..];
      if EqualsIgnoreCase(intf.name, "wlan0") {
        if intf.hardwareAddress.None? {
          return "";
        }
        s := FormatMac(intf.hardwareAddress.value);
        return;
      }
      i := i + 1;
    }
    return "";
  }

  // ---------------------------------------------------------------- hq ROM version

  /**
   * getShowhqRomVersion, given what getprop printed for the hq ROM version (None for a null
   * line): the third field of split("_") when there are at least three, otherwise "hq".
   */
  function ShowhqRomVersion(hqRomVer: Option<string>): (r: string)
    ensures '_' !in r
    ensures IsEmpty(hqRomVer) ==> r == "hq"
  {
    if IsEmpty(hqRomVer) then "hq"
    else
      var s := JavaSplit(hqRomVer.value, '_');
      if |s| >= 3 then s[2] else "hq"
  }

  /**
   * In terms of all '_'-separated fields: the third field is shown exactly when some field from
   * the third on is non-empty (split drops trailing empty fields), so it may itself be empty.
   */
  lemma ShowhqRomVersionField(s: string)
    requires s != ""
    ensures var fields := SplitOn(s, '_');
      ShowhqRomVersion(Some(s)) == if NonEmptyAfterSecond(fields) then fields[2] else "hq"
  {
    var fields := SplitOn(s, '_');
    if '_' !in s {
      assert fields == [s];
    } else {
      var r := DropTrailingEmpty(fields);
      assert JavaSplit(s, '_') == r;
      assert !IsEmpty(Some(s));
      ThirdOfSplit(fields);
    }
  }

  /** Some field from the third on is non-empty. */
  predicate NonEmptyAfterSecond(fields: seq<string>) {
    exists j :: 2 <= j < |fields| && fields[j] != ""
  }

  /** After the trailing empty fields are dropped, a third field remains exactly when a non-empty one follows the second. */
  lemma ThirdOfSplit(fields: seq<string>)
    ensures var r := DropTrailingEmpty(fields);
      (|r| >= 3 <==> NonEmptyAfterSecond(fields)) && (|r| >= 3 ==> r[2] == fields[2])
  {
    var r := DropTrailingEmpty(fields);
    if |r| >= 3 {
      assert fields[|r| - 1] == r[|r| - 1] != "";
    } else {
      forall j | 2 <= j < |fields| ensures fields[j] == "" {
      }
    }
  }

  /** A three-part version shows its third part. */
  lemma ShowhqRomVersionThirdPart()
    ensures ShowhqRomVersion(Some("a_b_c")) == "c"
  {
    var fields := ["a", "b", "c"];
    assert Join(fields[2..], '_') == "c";
    assert Join(fields[1..], '_') == "b_c";
    assert Join(fields, '_') == "a_b_c";
    assert forall j :: 0 <= j < |fields| ==> '_' !in fields[j];
    SplitOnJoin(fields, '_');
    assert "a_b_c"[1] == '_';
  }

  /** A trailing separator leaves only two parts after split, so the default is shown. */
  lemma ShowhqRomVersionTrailingSeparator()
    ensures ShowhqRomVersion(Some("a_b_")) == "hq"
  {
    var fields := ["a", "b", ""];
    assert Join(fields[2..], '_') == "";
    assert Join(fields[1..], '_') == "b_";
    assert Join(fields, '_') == "a_b_";
    assert forall j :: 0 <= j < |fields| ==> '_' !in fields[j];
    SplitOnJoin(fields, '_');
    assert "a_b_"[1] == '_';
    assert fields[..2] == ["a", "b"];
  }

  // ---------------------------------------------------------------- CPU cores

  /** Pattern.matches("cpu[0-9]", name): the whole name is "cpu" and one decimal digit. */
  predicate IsCpuName(name: string) {
    |name| == 4 && name[..3] == "cpu" && IsDigit(name[3])
  }

  const CpuNames: set<string> := {"cpu0", "cpu1", "cpu2", "cpu3", "cpu4", "cpu5", "cpu6", "cpu7", "cpu8", "cpu9"}

  /** The filter accepts exactly ten names. */
  lemma CpuNamesExactly(name: string)
    ensures IsCpuName(name) <==> name in CpuNames
    ensures |CpuNames| == 10
  {
    if IsCpuName(name) {
      assert name == "cpu" + [name[3]];
      if name[3] == '0' { assert name == "cpu0"; }
      else if name[3] == '1' { assert name == "cpu1"; }
      else if name[3] == '2' { assert name == "cpu2"; }
      else if name[3] == '3' { assert name == "cpu3"; }
      else if name[3] == '4' { assert name == "cpu4"; }
      else if name[3] == '5' { assert name == "cpu5"; }
      else if name[3] == '6' { assert name == "cpu6"; }
      else if name[3] == '7' { assert name == "cpu7"; }
      else if name[3] == '8' { assert name == "cpu8"; }
      else if name[3] == '9' { assert name == "cpu9"; }
    }
  }

  function CountCpuNames(names: seq<string>): (n: nat)
    ensures n <= |names|
  {
    if names == [] then 0 else (if IsCpuName(names[0]) then 1 else 0) + CountCpuNames(names[1..])
  }

  /**
   * getCPUNumCores given the names listFiles finds in /sys/devices/system/cpu/ (None when
   * listFiles returns null and the length read throws): the number of cpu[0-9] names, else 1.
   */
  function GetCPUNumCores(listing: Option<seq<string>>): (n: nat)
    ensures listing.Some? ==> n <= |listing.value|
  {
    if listing.None? then 1 else CountCpuNames(listing.value)
  }

  predicate Distinct(names: seq<string>) {
    forall i, j :: 0 <= i < j < |names| ==> names[i] != names[j]
  }

  lemma {:induction false} CountCpuNamesIsSetSize(names: seq<string>)
    requires Distinct(names)
    ensures CountCpuNames(names) == |set n | n in names && IsCpuName(n)|
  {
    if names != [] {
      var rest := names[1..];
      CountCpuNamesIsSetSize(rest);
      var all := set n | n in names && IsCpuName(n);
      var tail := set n | n in rest && IsCpuName(n);
      assert names[0] !in rest;
      if IsCpuName(names[0]) {
        assert all == tail + {names[0]};
      } else {
        assert all == tail;
      }
    }
  }

  /** A directory lists each name once, so at most ten cores are ever counted. */
  lemma CpuCoresAtMostTen(listing: Option<seq<string>>)
    requires listing.Some? ==> Distinct(listing.value)
    ensures listing.None? ==> GetCPUNumCores(listing) == 1
    ensures GetCPUNumCores(listing) <= 10
  {
    if listing.Some? {
      var names := listing.value;
      CountCpuNamesIsSetSize(names);
      var found := set n | n in names && IsCpuName(n);
      forall n | n in found ensures n in CpuNames {
        CpuNamesExactly(n);
      }
      CpuNamesExactly("");
      assert found <= CpuNames;
      SubsetSize(found, CpuNames);
    }
  }

  lemma SubsetSize<T>(a: set<T>, b: set<T>)
    requires a <= b
    ensures |a| <= |b|
  {
    assert b == a + (b - a);
  }

  // ---------------------------------------------------------------- device id

  /** A non-null Context, reduced to what its telephony lookups report as device id. */
  datatype Context = Context(telephonyDeviceId: Option<string>)

  /** getDeviceId: "" for a null context, otherwise what the telephony lookups report. */
  function GetDeviceId(context: Option<Context>): (r: Option<string>)
    ensures context.None? ==> r == Some("")
    ensures context.Some? ==> r == context.value.telephonyDeviceId
  {
    if context.None? then Some("") else context.value.telephonyDeviceId
  }
}
