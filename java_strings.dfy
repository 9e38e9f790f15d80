/**
 * The few java.lang.String and java.lang.Integer operations the utilities rely on,
 * stated over seq<char>: Integer.toString of a non-negative value, Integer.valueOf,
 * String.indexOf(char), String.split on a one-character literal, startsWith and
 * equalsIgnoreCase (ASCII case folding).
 */
module JavaStrings {
  import opened Wrappers

  const IntMin := -0x8000_0000
  const IntMax := 0x7fff_ffff

  predicate IsDigit(c: char) {
    '0' <= c <= '9'
  }

  predicate AllDigits(s: string) {
    forall i :: 0 <= i < |s| ==> IsDigit(s[i])
  }

  function DigitChar(d: nat): (c: char)
    requires d < 10
    ensures IsDigit(c) && c as int - '0' as int == d
  {
    (d + '0' as int) as char
  }

  /** Integer.toString(n) for n >= 0: decimal digits, most significant first, no leading zero. */
  function NatToDecimal(n: nat): (s: string)
    ensures 1 <= |s| && AllDigits(s)
    ensures s[0] == '0' ==> n == 0 && s == "0"
    decreases n
  {
    if n < 10 then [DigitChar(n)] else NatToDecimal(n / 10) + [DigitChar(n % 10)]
  }

  /** The value of a run of decimal digits. */
  function DigitsValue(s: string): nat
    requires AllDigits(s)
  {
    if s == [] then 0 else DigitsValue(s[..|s| - 1]) * 10 + (s[|s| - 1] as int - '0' as int)
  }

  /** Reading back what Integer.toString wrote gives the number again. */
  lemma {:induction false} DecimalRoundTrip(n: nat)
    ensures DigitsValue(NatToDecimal(n)) == n
  {
    if n >= 10 {
      var s := NatToDecimal(n);
      assert s[..|s| - 1] == NatToDecimal(n / 10);
      DecimalRoundTrip(n / 10);
    }
  }

  lemma NatToDecimalInjective(m: nat, n: nat)
    requires NatToDecimal(m) == NatToDecimal(n)
    ensures m == n
  {
    DecimalRoundTrip(m);
    DecimalRoundTrip(n);
  }

  /**
   * Integer.valueOf(s): an optional '-' or '+', then one or more decimal digits, with a
   * value in the 32-bit range; anything else throws NumberFormatException, modelled as None.
   */
  function ParseJavaInt(s: string): (r: Option<int>)
    ensures r.Some? ==> IntMin <= r.value <= IntMax
    ensures r.Some? <==> (s != [] &&
      var d := if s[0] in "+-" then s[1..] else s;
      d != [] && AllDigits(d) && IntMin <= (if s[0] == '-' then -(DigitsValue(d) as int) else DigitsValue(d)) <= IntMax)
  {
    if s == [] then None
    else
      var digits := if s[0] == '-' || s[0] == '+' then s[1..] else s;
      if digits == [] || !AllDigits(digits) then None
      else
        var v: int := if s[0] == '-' then 0 - DigitsValue(digits) as int else DigitsValue(digits);
        if IntMin <= v <= IntMax then Some(v) else None
  }

  /** Integer.valueOf accepts every non-negative int that Integer.toString writes. */
  lemma ParseJavaIntOfDecimal(n: nat)
    requires n <= IntMax
    ensures ParseJavaInt(NatToDecimal(n)) == Some(n)
  {
    DecimalRoundTrip(n);
  }

  /** A sign is taken once: "+n" reads as n and "-n" as -n, down to Integer.MIN_VALUE. */
  lemma ParseJavaIntSigned(n: nat)
    ensures n <= IntMax ==> ParseJavaInt("+" + NatToDecimal(n)) == Some(n)
    ensures n <= -IntMin ==> ParseJavaInt("-" + NatToDecimal(n)) == Some(-(n as int))
    ensures ParseJavaInt("+-" + NatToDecimal(n)) == None && ParseJavaInt("--" + NatToDecimal(n)) == None
  {
    var t := NatToDecimal(n);
    DecimalRoundTrip(n);
    assert ("+" + t)[1..] == t && ("-" + t)[1..] == t;
    assert !IsDigit(("+-" + t)[1..][0]) && !IsDigit(("--" + t)[1..][0]);
  }

  /** A decimal text beyond the int range throws instead of wrapping around. */
  lemma ParseJavaIntOutOfRange(n: nat)
    requires n > IntMax
    ensures ParseJavaInt(NatToDecimal(n)) == None
    ensures n > -IntMin ==> ParseJavaInt("-" + NatToDecimal(n)) == None
  {
    var t := NatToDecimal(n);
    DecimalRoundTrip(n);
    assert ("-" + t)[1..] == t;
  }

  /** A character that is neither a digit nor a leading sign makes the text unreadable. */
  lemma ParseJavaIntRejectsNonDigit(s: string, i: nat)
    requires i < |s| && !IsDigit(s[i]) && !(i == 0 && s[0] in "+-")
    ensures ParseJavaInt(s) == None
  {
    if s[0] in "+-" {
      assert s[1..][i - 1] == s[i];
    }
  }

  /** n zero characters. */
  function Zeros(n: nat): (z: string)
    ensures |z| == n && AllDigits(z)
  {
    seq(n, _ => '0')
  }

  /** Leading zeros add nothing to a run of digits. */
  lemma {:induction false} ZerosAddNothing(n: nat, t: string)
    requires AllDigits(t)
    ensures DigitsValue(Zeros(n) + t) == DigitsValue(t)
    decreases |t|, n
  {
    var s := Zeros(n) + t;
    if t == [] {
      assert s == Zeros(n);
      if n > 0 {
        assert s[..|s| - 1] == Zeros(n - 1) + [];
        ZerosAddNothing(n - 1, []);
      }
    } else {
      assert s[..|s| - 1] == Zeros(n) + t[..|t| - 1];
      ZerosAddNothing(n, t[..|t| - 1]);
    }
  }

  /** Integer.valueOf reads zero-padded text ("007") as the plain number. */
  lemma ParseJavaIntZeroPadded(z: nat, n: nat)
    requires n <= IntMax
    ensures ParseJavaInt(Zeros(z) + NatToDecimal(n)) == Some(n)
  {
    var t := NatToDecimal(n);
    DecimalRoundTrip(n);
    ZerosAddNothing(z, t);
    var s := Zeros(z) + t;
    assert AllDigits(s) by {
      forall p | 0 <= p < |s| ensures IsDigit(s[p]) {
        if p >= z {
          assert s[p] == t[p - z];
        }
      }
    }
    assert s[0] != '-' && s[0] != '+' by { assert IsDigit(s[0]); }
    assert DigitsValue(s) == n;
  }

  /** String.indexOf(c): the first position of c, or -1. */
  function IndexOf(s: string, c: char): (k: int)
    ensures -1 <= k < |s|
    ensures k == -1 <==> c !in s
    ensures 0 <= k ==> s[k] == c && c !in s[..k]
  {
    if s == [] then -1
    else if s[0] == c then 0
    else
      var k := IndexOf(s[1..], c);
      assert s[1..][..k + 1] == s[1..k + 2] by { if k >= 0 { assert s[1..k + 2] == s[1..][..k + 1]; } }
      if k == -1 then -1 else k + 1
  }

  /** Every field between occurrences of sep, empty ones included. */
  function SplitOn(s: string, sep: char): (fields: seq<string>)
    ensures 1 <= |fields|
    ensures forall j :: 0 <= j < |fields| ==> sep !in fields[j]
    decreases |s|
  {
    if sep !in s then [s]
    else
      var k := IndexOf(s, sep);
      [s[..k]] + SplitOn(s[k + 1..], sep)
  }

  /** The fields put back together with sep between them. */
  function Join(fields: seq<string>, sep: char): string
    requires 1 <= |fields|
  {
    if |fields| == 1 then fields[0] else fields[0] + [sep] + Join(fields[1..], sep)
  }

  /** Splitting and joining again gives back the text. */
  lemma {:induction false} JoinSplitOn(s: string, sep: char)
    ensures Join(SplitOn(s, sep), sep) == s
    decreases |s|
  {
    if sep in s {
      var k := IndexOf(s, sep);
      JoinSplitOn(s[k + 1..], sep);
      assert s == s[..k] + [sep] + s[k + 1..];
    }
  }

  /** A position holding c with no c before it is the one indexOf finds. */
  lemma IndexOfFirst(s: string, c: char, k: nat)
    requires k < |s| && s[k] == c && c !in s[..k]
    ensures IndexOf(s, c) == k
  {
  }

  /** Joining fields that do not contain sep and splitting again gives back the fields. */
  lemma {:induction false} SplitOnJoin(fields: seq<string>, sep: char)
    requires 1 <= |fields|
    requires forall j :: 0 <= j < |fields| ==> sep !in fields[j]
    ensures SplitOn(Join(fields, sep), sep) == fields
  {
    if |fields| > 1 {
      var s := Join(fields, sep);
      var f := fields[0];
      assert s == f + [sep] + Join(fields[1..], sep);
      assert s[|f|] == sep;
      assert s[..|f|] == f;
      IndexOfFirst(s, sep, |f|);
      assert s[|f| + 1..] == Join(fields[1..], sep);
      SplitOnJoin(fields[1..], sep);
    }
  }

  /** Drops empty strings from the end, as String.split does. */
  function DropTrailingEmpty(fields: seq<string>): (r: seq<string>)
    ensures |r| <= |fields| && r == fields[..|r|]
    ensures |r| > 0 ==> r[|r| - 1] != ""
    ensures forall j :: |r| <= j < |fields| ==> fields[j] == ""
  {
    if fields == [] then []
    else if fields[|fields| - 1] == "" then DropTrailingEmpty(fields[..|fields| - 1])
    else fields
  }

  /**
   * String.split(regex) with limit 0 where the regex is one literal character: the input
   * itself when sep does not occur, otherwise the fields with trailing empty ones removed
   * (a leading empty field stays).
   */
  function JavaSplit(s: string, sep: char): (r: seq<string>)
    ensures forall j :: 0 <= j < |r| ==> sep !in r[j]
    ensures sep !in s ==> r == [s]
    ensures sep in s ==> r == [] || r[|r| - 1] != ""
  {
    if sep !in s then [s] else DropTrailingEmpty(SplitOn(s, sep))
  }

  /** String.startsWith. */
  predicate StartsWith(s: string, prefix: string) {
    |prefix| <= |s| && s[..|prefix|] == prefix
  }

  function ToLowerAscii(c: char): char {
    if 'A' <= c <= 'Z' then (c as int + 32) as char else c
  }

  /** String.equalsIgnoreCase restricted to ASCII case folding. */
  predicate EqualsIgnoreCase(a: string, b: string) {
    |a| == |b| && forall i :: 0 <= i < |a| ==> ToLowerAscii(a[i]) == ToLowerAscii(b[i])
  }

  /** TextUtils.isEmpty: null or the empty string. */
  predicate IsEmpty(s: Option<string>) {
    s.None? || s.value == ""
  }
}
