/** Text forms of MAC and IPv4 addresses: the keys of the device table and of
    traffic attribution (lanscope/src/netfmt.rs). */
module NetFmt {
  import opened Prelude

  type Mac = m: seq<byte> | |m| == 6 witness [0, 0, 0, 0, 0, 0]

  // --- digits ---

  function HexDigit(n: nat): char
    requires n < 16
  {
    "0123456789abcdef"[n]
  }

  function HexValue(c: char): Option<nat> {
    if '0' <= c <= '9' then Some(c as int - '0' as int)
    else if 'a' <= c <= 'f' then Some(c as int - 'a' as int + 10)
    else if 'A' <= c <= 'F' then Some(c as int - 'A' as int + 10)
    else None
  }

  /** Both letter cases are read, and nothing but the sixteen digits. */
  lemma HexValueExact(c: char, v: nat)
    ensures HexValue(c) == Some(v)
       <==> v < 16 && (c == "0123456789abcdef"[v] || c == "0123456789ABCDEF"[v])
  {
    if v < 10 {
      assert "0123456789abcdef"[v] == "0123456789ABCDEF"[v] == ('0' as int + v) as char;
    } else if v < 16 {
      assert "0123456789abcdef"[v] == ('a' as int + (v - 10)) as char;
      assert "0123456789ABCDEF"[v] == ('A' as int + (v - 10)) as char;
    }
  }

  /** `{b:02x}` */
  function Hex2(b: byte): string {
    [HexDigit(b / 16), HexDigit(b % 16)]
  }

  /** The value of a run of hexadecimal digits, most significant first. */
  function HexRun(digits: string): Option<nat> {
    if digits == "" then Some(0)
    else
      match (HexRun(digits[..|digits| - 1]), HexValue(digits[|digits| - 1]))
      case (Some(high), Some(low)) => Some(16 * high + low)
      case _ => None
  }

  /** `u8::from_str_radix(_, 16)`: an optional plus sign, at least one digit, no overflow. */
  function ParseHexByte(text: string): Option<byte> {
    var digits := if |text| > 1 && text[0] == '+' then text[1..] else text;
    if digits == "" then None
    else
      match HexRun(digits)
      case Some(v) => if v < 0x100 then Some(v) else None
      case None => None
  }

  function Pow16(n: nat): nat {
    if n == 0 then 1 else 16 * Pow16(n - 1)
  }

  /** Read from the left, each digit weighs sixteen times the next. */
  lemma {:induction false} HexRunFront(c: char, rest: string)
    ensures HexRun([c] + rest)
         == if HexValue(c).Some? && HexRun(rest).Some?
            then Some(HexValue(c).value * Pow16(|rest|) + HexRun(rest).value) else None
  {
    var text := [c] + rest;
    if rest == "" {
      assert text[..0] == "";
    } else {
      var n := |rest| - 1;
      HexRunFront(c, rest[..n]);
      assert text[..|text| - 1] == [c] + rest[..n];
      if HexValue(c).Some? {
        SixteenTimes(HexValue(c).value, Pow16(n));
      }
    }
  }

  lemma SixteenTimes(v: nat, p: nat)
    ensures v * (16 * p) == 16 * (v * p)
  {
  }

  /** A byte is an optional plus sign and a non-empty run of digits of value below 256. */
  lemma ParseHexByteExact(text: string, v: byte)
    ensures ParseHexByte(text) == Some(v)
       <==> exists digits: string ::
              digits != "" && (text == digits || text == "+" + digits) && HexRun(digits) == Some(v)
  {
    if ParseHexByte(text) == Some(v) {
      var digits := if |text| > 1 && text[0] == '+' then text[1..] else text;
      assert text == digits || text == "+" + digits;
    }
    if exists digits: string ::
         digits != "" && (text == digits || text == "+" + digits) && HexRun(digits) == Some(v) {
      var digits: string :| digits != "" && (text == digits || text == "+" + digits) && HexRun(digits) == Some(v);
      DigitsHaveNoSign(digits);
      assert ("+" + digits)[1..] == digits;
    }
  }

  lemma DigitsHaveNoSign(digits: string)
    requires digits != "" && HexRun(digits).Some?
    ensures digits[0] != '+'
  {
    HexRunFront(digits[0], digits[1..]);
    assert digits == [digits[0]] + digits[1..];
  }

  lemma HexRoundTrip(b: byte)
    ensures ':' !in Hex2(b)
    ensures ParseHexByte(Hex2(b)) == Some(b)
  {
    var high, low := HexDigit(b / 16), HexDigit(b % 16);
    assert HexValue(high) == Some(b / 16) && HexValue(low) == Some(b % 16);
    assert Hex2(b)[..1] == [high];
    assert HexRun([high]) == Some(b / 16) by {
      assert [high][..0] == "";
    }
  }

  // --- MAC addresses ---

  /** The two-digit groups of the first n bytes of a MAC. */
  function HexGroups(mac: seq<byte>): seq<string> {
    seq(|mac|, i requires 0 <= i < |mac| => Hex2(mac[i]))
  }

  function MacText(mac: Mac): string {
    Join(HexGroups(mac), ':')
  }

  /** Joined pairs: of each piece its two characters, and separators between. */
  lemma {:induction false} JoinedPairs(pairs: seq<string>, sep: char, i: nat)
    requires i < |pairs| && forall k :: 0 <= k < |pairs| ==> |pairs[k]| == 2
    ensures |Join(pairs, sep)| == 3 * |pairs| - 1
    ensures Join(pairs, sep)[3 * i] == pairs[i][0] && Join(pairs, sep)[3 * i + 1] == pairs[i][1]
    ensures i + 1 < |pairs| ==> Join(pairs, sep)[3 * i + 2] == sep
  {
    if |pairs| > 1 {
      JoinedPairs(pairs[1..], sep, if i > 0 then i - 1 else 0);
    }
  }

  /** Seventeen characters: of each byte the high and the low digit, small letters, and colons. */
  lemma MacTextExact(mac: Mac, i: nat)
    requires i < 6
    ensures |MacText(mac)| == 17
    ensures MacText(mac)[3 * i] == "0123456789abcdef"[mac[i] / 16]
    ensures MacText(mac)[3 * i + 1] == "0123456789abcdef"[mac[i] % 16]
    ensures i < 5 ==> MacText(mac)[3 * i + 2] == ':'
  {
    JoinedPairs(HexGroups(mac), ':', i);
  }

  method FmtMac(mac: Mac) returns (s: string)
    ensures s == MacText(mac)
  {
    s := "";
    for i := 0 to |mac|
      invariant s == Join(HexGroups(mac[..i]), ':')
    {
      assert HexGroups(mac[..i + 1]) == HexGroups(mac[..i]) + [Hex2(mac[i])];
      if i > 0 {
        JoinSnoc(HexGroups(mac[..i]), Hex2(mac[i]), ':');
        s := s + ":";
      }
      s := s + Hex2(mac[i]);
    }
    assert mac[..|mac|] == mac;
  }

  function MacOfText(text: string): Option<Mac> {
    var parts := Split(text, ':');
    if |parts| == 6 && forall i :: 0 <= i < 6 ==> ParseHexByte(parts[i]).Some? then
      Some(seq(6, i requires 0 <= i < 6 => ParseHexByte(parts[i]).value))
    else None
  }

  method ParseMac(text: string) returns (mac: Option<Mac>)
    ensures mac == MacOfText(text)
  {
    var parts := Split(text, ':');
    var out := new byte[6](_ => 0);
    var i := 0;
    while i < 6
      invariant 0 <= i <= 6 && i <= |parts|
      invariant forall j :: 0 <= j < i ==> ParseHexByte(parts[j]) == Some(out[j])
    {
      if i == |parts| {
        return None;
      }
      var b := ParseHexByte(parts[i]);
      if b.None? {
        return None;
      }
      out[i] := b.value;
      i := i + 1;
    }
    if |parts| > 6 {
      return None;
    }
    assert out[..] == seq(6, i requires 0 <= i < 6 => ParseHexByte(parts[i]).value);
    return Some(out[..]);
  }

  lemma MacRoundTrip(mac: Mac)
    ensures MacOfText(MacText(mac)) == Some(mac)
  {
    var groups := HexGroups(mac);
    forall g | g in groups
      ensures ':' !in g
    {
      var i :| 0 <= i < |groups| && groups[i] == g;
      HexRoundTrip(mac[i]);
    }
    SplitJoin(groups, ':');
    forall i | 0 <= i < 6
      ensures ParseHexByte(groups[i]) == Some(mac[i])
    {
      HexRoundTrip(mac[i]);
    }
    assert MacOfText(MacText(mac)).value == mac;
  }

  /** Exactly six colon-separated pieces are accepted, each a byte in hexadecimal. */
  lemma MacOfTextExact(text: string, mac: Mac)
    ensures MacOfText(text) == Some(mac)
       <==> exists parts: seq<string> :: IsSixBytes(parts, mac) && text == Join(parts, ':')
  {
    JoinSplit(text, ':');
    if MacOfText(text) == Some(mac) {
      assert IsSixBytes(Split(text, ':'), mac);
    }
    if exists parts: seq<string> :: IsSixBytes(parts, mac) && text == Join(parts, ':') {
      var parts: seq<string> :| IsSixBytes(parts, mac) && text == Join(parts, ':');
      SplitJoin(parts, ':');
      assert MacOfText(text).value == mac;
    }
  }

  predicate IsSixBytes(parts: seq<string>, mac: Mac) {
    && |parts| == 6
    && (forall i :: 0 <= i < 6 ==> ':' !in parts[i] && ParseHexByte(parts[i]) == Some(mac[i]))
  }

  lemma MacTextInjective(a: Mac, b: Mac)
    requires MacText(a) == MacText(b)
    ensures a == b
  {
    MacRoundTrip(a);
    MacRoundTrip(b);
  }

  // --- decimal numbers and IPv4 addresses ---

  /** `u8::to_string`. */
  function Decimal(n: nat): (s: string)
    ensures s != ""
    ensures forall c :: c in s ==> '0' <= c <= '9'
  {
    (if n < 10 then "" else Decimal(n / 10)) + ["0123456789"[n % 10]]
  }

  function DecimalValue(s: string): int {
    if s == "" then 0 else 10 * DecimalValue(s[..|s| - 1]) + (s[|s| - 1] as int - '0' as int)
  }

  lemma DigitValue(d: nat)
    requires d < 10
    ensures "0123456789"[d] as int - '0' as int == d
  {
  }

  lemma {:induction false} DecimalRoundTrip(n: nat)
    ensures DecimalValue(Decimal(n)) == n
  {
    var s := Decimal(n);
    if n < 10 {
      assert s[..|s| - 1] == "";
      DigitValue(n);
    } else {
      var high := Decimal(n / 10);
      DecimalRoundTrip(n / 10);
      assert s == high + ["0123456789"[n % 10]];
      assert s[..|s| - 1] == high;
      DigitValue(n % 10);
    }
  }

  /** Decimal digits, at least one, and no leading zero. */
  predicate IsNumeral(s: string) {
    && s != ""
    && (forall i :: 0 <= i < |s| ==> '0' <= s[i] <= '9')
    && (|s| > 1 ==> s[0] != '0')
  }

  lemma {:induction false} NumeralIsPositive(s: string)
    requires IsNumeral(s) && s[0] != '0'
    ensures DecimalValue(s) >= 1
  {
    var n := |s| - 1;
    if n > 0 {
      NumeralIsPositive(s[..n]);
    } else {
      assert s[..n] == "";
    }
  }

  /** A number prints as the one numeral that has its value. */
  lemma {:induction false} DecimalExact(s: string, n: nat)
    ensures s == Decimal(n) <==> IsNumeral(s) && DecimalValue(s) == n
  {
    DecimalRoundTrip(n);
    DecimalIsNumeral(n);
    if IsNumeral(s) && DecimalValue(s) == n {
      NumeralIsDecimal(s, n);
    }
  }

  lemma {:induction false} DecimalIsNumeral(n: nat)
    ensures IsNumeral(Decimal(n)) && (n > 0 ==> Decimal(n)[0] != '0')
  {
    if n >= 10 {
      DecimalIsNumeral(n / 10);
    }
  }

  lemma {:induction false} NumeralIsDecimal(s: string, n: nat)
    requires IsNumeral(s) && DecimalValue(s) == n
    ensures s == Decimal(n)
  {
    var k := |s| - 1;
    var high, d := s[..k], s[k] as int - '0' as int;
    assert s == high + [s[k]] && s[k] == "0123456789"[d];
    if k == 0 {
      assert high == "";
    } else {
      NumeralIsPositive(high);
      NumeralIsDecimal(high, DecimalValue(high));
      assert n / 10 == DecimalValue(high) && n % 10 == d;
    }
  }

  /** Decimal numbers joined by a separator: how addresses and DHCP fingerprints are printed. */
  function Decimals(ns: seq<nat>): seq<string> {
    seq(|ns|, i requires 0 <= i < |ns| => Decimal(ns[i]))
  }

  lemma JoinedDecimalsInjective(a: seq<nat>, b: seq<nat>, sep: char)
    requires !('0' <= sep <= '9')
    requires Join(Decimals(a), sep) == Join(Decimals(b), sep)
    ensures a == b
  {
    JoinedDecimalsEmpty(a, sep);
    JoinedDecimalsEmpty(b, sep);
    if a != [] {
      SplitJoin(Decimals(a), sep);
      SplitJoin(Decimals(b), sep);
      assert Decimals(a) == Decimals(b);
      assert |a| == |Decimals(a)| && |b| == |Decimals(b)|;
      forall i | 0 <= i < |a|
        ensures a[i] == b[i]
      {
        assert Decimals(a)[i] == Decimals(b)[i];
        DecimalRoundTrip(a[i]);
        DecimalRoundTrip(b[i]);
      }
    }
  }

  lemma JoinedDecimalsEmpty(ns: seq<nat>, sep: char)
    ensures Join(Decimals(ns), sep) == "" <==> ns == []
  {
    if ns != [] {
      assert Decimals(ns)[0] != "";
    }
  }

  /** `u32::to_be_bytes`. */
  function Octets(ip: u32): seq<nat> {
    [ip / 0x100_0000, ip / 0x1_0000 % 0x100, ip / 0x100 % 0x100, ip % 0x100]
  }

  function FmtIpv4(ip: u32): string {
    Join(Decimals(Octets(ip)), '.')
  }

  lemma OctetsValue(ip: u32)
    ensures
      var o := Octets(ip);
      ip == 0x100_0000 * o[0] + 0x1_0000 * o[1] + 0x100 * o[2] + o[3]
  {
    assert ip / 0x100 / 0x100 == ip / 0x1_0000;
    assert ip / 0x1_0000 / 0x100 == ip / 0x100_0000;
  }

  lemma FmtIpv4Injective(a: u32, b: u32)
    requires FmtIpv4(a) == FmtIpv4(b)
    ensures a == b
  {
    JoinedDecimalsInjective(Octets(a), Octets(b), '.');
    OctetsValue(a);
    OctetsValue(b);
  }

  /** The pieces between the separators are the numerals of the numbers, in order. */
  lemma JoinedDecimalsReadBack(ns: seq<nat>, sep: char)
    requires ns != [] && !('0' <= sep <= '9')
    ensures
      var pieces := Split(Join(Decimals(ns), sep), sep);
      && |pieces| == |ns|
      && (forall i :: 0 <= i < |ns| ==> IsNumeral(pieces[i]) && DecimalValue(pieces[i]) == ns[i])
  {
    SplitJoin(Decimals(ns), sep);
    forall i | 0 <= i < |ns|
      ensures IsNumeral(Decimals(ns)[i]) && DecimalValue(Decimals(ns)[i]) == ns[i]
    {
      DecimalExact(Decimal(ns[i]), ns[i]);
    }
  }

  /** Four numerals between dots, most significant octet first. */
  lemma FmtIpv4Exact(ip: u32)
    ensures
      var pieces := Split(FmtIpv4(ip), '.');
      && |pieces| == 4
      && (forall i :: 0 <= i < 4 ==> IsNumeral(pieces[i]) && 0 <= DecimalValue(pieces[i]) < 256)
      && ip == 16_777_216 * DecimalValue(pieces[0]) + 65_536 * DecimalValue(pieces[1])
             + 256 * DecimalValue(pieces[2]) + DecimalValue(pieces[3])
  {
    JoinedDecimalsReadBack(Octets(ip), '.');
    OctetsValue(ip);
  }
}
