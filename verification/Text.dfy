/** Bytes as text: ASCII, strict UTF-8 as `std::str::from_utf8` accepts it, and trimming. */
module Text {
  import opened Prelude

  function Ascii(data: seq<byte>): string {
    seq(|data|, i requires 0 <= i < |data| => data[i] as char)
  }

  predicate IsAscii(s: string) {
    forall i :: 0 <= i < |s| ==> s[i] < 128 as char
  }

  function AsciiByte(c: char): byte
    requires c < 128 as char
  {
    c as int
  }

  /** `str::as_bytes` of an ASCII string. */
  function Bytes(s: string): (data: seq<byte>)
    requires IsAscii(s)
    ensures Ascii(data) == s
  {
    seq(|s|, i requires 0 <= i < |s| => AsciiByte(s[i]))
  }

  // --- UTF-8 ---

  predicate IsTail(data: seq<byte>, i: nat) {
    i < |data| && 0x80 <= data[i] < 0xC0
  }

  /** The six payload bits of a continuation byte. */
  function Tail(data: seq<byte>, i: nat): (bits: nat)
    requires IsTail(data, i)
    ensures bits < 0x40
  {
    data[i] - 0x80
  }

  /** The first character of the data and its length, unless ill-formed (overlong forms,
      surrogates and values past U+10FFFF are ill-formed). */
  function FirstChar(data: seq<byte>): (r: Option<(char, nat)>)
    requires data != []
    ensures r.Some? ==> 0 < r.value.1 <= |data|
  {
    var b: int := data[0];
    if b < 0x80 then Some((b as char, 1))
    else if 0xC0 <= b < 0xE0 && IsTail(data, 1) then
      var c := (b - 0xC0) * 0x40 + Tail(data, 1);
      if c < 0x80 then None else Some((c as char, 2))
    else if 0xE0 <= b < 0xF0 && IsTail(data, 1) && IsTail(data, 2) then
      var c := (b - 0xE0) * 0x1000 + Tail(data, 1) * 0x40 + Tail(data, 2);
      if c < 0x800 || 0xD800 <= c < 0xE000 then None else Some((c as char, 3))
    else if 0xF0 <= b < 0xF8 && IsTail(data, 1) && IsTail(data, 2) && IsTail(data, 3) then
      var c := (b - 0xF0) * 0x4_0000 + Tail(data, 1) * 0x1000 + Tail(data, 2) * 0x40 + Tail(data, 3);
      if c < 0x1_0000 || c >= 0x11_0000 then None else Some((c as char, 4))
    else None
  }

  /** `std::str::from_utf8`. */
  function Utf8(data: seq<byte>): (text: Option<string>)
    ensures text.Some? ==> |text.value| <= |data|
  {
    if data == [] then Some("")
    else
      match FirstChar(data)
      case None => None
      case Some((c, n)) =>
        match Utf8(data[n..])
        case None => None
        case Some(rest) => Some([c] + rest)
  }

  lemma {:induction false} Utf8OfAscii(data: seq<byte>)
    requires forall b :: b in data ==> b < 0x80
    ensures Utf8(data) == Some(Ascii(data))
  {
    if data != [] {
      var rest := data[1..];
      assert forall b :: b in rest ==> b in data;
      Utf8OfAscii(rest);
      assert data[0] in data;
      assert FirstChar(data) == Some((data[0] as char, 1));
      assert Ascii(data) == [data[0] as char] + Ascii(rest);
    }
  }

  /** The UTF-8 form of a character. */
  function CharBytes(c: char): seq<byte> {
    var n := c as int;
    if n < 0x80 then [n]
    else if n < 0x800 then [0xC0 + n / 0x40, 0x80 + n % 0x40]
    else if n < 0x1_0000 then [0xE0 + n / 0x1000, 0x80 + n / 0x40 % 0x40, 0x80 + n % 0x40]
    else [0xF0 + n / 0x4_0000, 0x80 + n / 0x1000 % 0x40, 0x80 + n / 0x40 % 0x40, 0x80 + n % 0x40]
  }

  function TextBytes(s: string): seq<byte> {
    if s == "" then [] else CharBytes(s[0]) + TextBytes(s[1..])
  }

  lemma Digits64(n: nat)
    ensures n / 0x1000 == n / 0x40 / 0x40 && n / 0x4_0000 == n / 0x1000 / 0x40
    ensures n == 0x40 * (n / 0x40) + n % 0x40
    ensures n / 0x40 == 0x40 * (n / 0x1000) + n / 0x40 % 0x40
    ensures n / 0x1000 == 0x40 * (n / 0x4_0000) + n / 0x1000 % 0x40
  {
  }

  lemma FirstCharOfBytes(c: char, rest: seq<byte>)
    ensures FirstChar(CharBytes(c) + rest) == Some((c, |CharBytes(c)|))
  {
    var n := c as int;
    Digits64(n);
    var data := CharBytes(c) + rest;
    if n < 0x80 {
    } else if n < 0x800 {
      assert Tail(data, 1) == n % 0x40;
    } else if n < 0x1_0000 {
      assert Tail(data, 1) == n / 0x40 % 0x40 && Tail(data, 2) == n % 0x40;
    } else {
      assert Tail(data, 1) == n / 0x1000 % 0x40 && Tail(data, 2) == n / 0x40 % 0x40 && Tail(data, 3) == n % 0x40;
    }
  }

  lemma Shift(q: nat, t: nat)
    requires t < 0x40
    ensures (0x40 * q + t) / 0x40 == q && (0x40 * q + t) % 0x40 == t
  {
  }

  lemma BytesOfTwo(c: char, q: nat, t: nat)
    requires c as int == q * 0x40 + t && 0x80 <= c as int < 0x800 && t < 0x40 && q < 0x20
    ensures CharBytes(c) == [0xC0 + q, 0x80 + t]
  {
    Shift(q, t);
  }

  lemma BytesOfThree(c: char, q: nat, t: nat, u: nat)
    requires c as int == q * 0x1000 + t * 0x40 + u && 0x800 <= c as int < 0x1_0000
    requires q < 0x10 && t < 0x40 && u < 0x40
    ensures CharBytes(c) == [0xE0 + q, 0x80 + t, 0x80 + u]
  {
    Shift(q, t);
    Shift(0x40 * q + t, u);
    Digits64(c as int);
  }

  lemma BytesOfFour(c: char, q: nat, t: nat, u: nat, v: nat)
    requires c as int == q * 0x4_0000 + t * 0x1000 + u * 0x40 + v && 0x1_0000 <= c as int
    requires q < 8 && t < 0x40 && u < 0x40 && v < 0x40
    ensures CharBytes(c) == [0xF0 + q, 0x80 + t, 0x80 + u, 0x80 + v]
  {
    Shift(q, t);
    Shift(0x40 * q + t, u);
    Shift(0x1000 * q + 0x40 * t + u, v);
    Digits64(c as int);
  }

  lemma BytesOfFirstChar(data: seq<byte>)
    requires data != [] && FirstChar(data).Some?
    ensures
      var (c, n) := FirstChar(data).value;
      data[..n] == CharBytes(c)
  {
    var (c, n) := FirstChar(data).value;
    var b: int := data[0];
    if n == 2 {
      BytesOfTwo(c, b - 0xC0, Tail(data, 1));
      assert data[..2] == [data[0], data[1]];
    } else if n == 3 {
      BytesOfThree(c, b - 0xE0, Tail(data, 1), Tail(data, 2));
      assert data[..3] == [data[0], data[1], data[2]];
    } else if n == 4 {
      BytesOfFour(c, b - 0xF0, Tail(data, 1), Tail(data, 2), Tail(data, 3));
      assert data[..4] == [data[0], data[1], data[2], data[3]];
    }
  }

  /** Text survives encoding ... */
  lemma {:induction false} Utf8RoundTrip(s: string)
    ensures Utf8(TextBytes(s)) == Some(s)
  {
    if s != "" {
      var first, rest := CharBytes(s[0]), TextBytes(s[1..]);
      FirstCharOfBytes(s[0], rest);
      assert (first + rest)[|first|..] == rest;
      Utf8RoundTrip(s[1..]);
      assert [s[0]] + s[1..] == s;
    }
  }

  lemma TextBytesFirst(c: char, rest: string)
    ensures TextBytes([c] + rest) == CharBytes(c) + TextBytes(rest)
  {
    assert ([c] + rest)[1..] == rest;
  }

  lemma SplitFirst(data: seq<byte>) returns (c: char, n: nat, rest: string)
    requires data != [] && Utf8(data).Some?
    ensures 0 < n <= |data| && data[..n] == CharBytes(c)
    ensures Utf8(data[n..]) == Some(rest) && Utf8(data) == Some([c] + rest)
  {
    c, n := FirstChar(data).value.0, FirstChar(data).value.1;
    rest := Utf8(data[n..]).value;
    BytesOfFirstChar(data);
  }

  /** ... and nothing but encoded text is accepted. */
  lemma {:induction false} Utf8AcceptsOnlyText(data: seq<byte>)
    requires Utf8(data).Some?
    ensures TextBytes(Utf8(data).value) == data
  {
    if data != [] {
      var c, n, rest := SplitFirst(data);
      Utf8AcceptsOnlyText(data[n..]);
      TextBytesFirst(c, rest);
      assert data == data[..n] + data[n..];
    }
  }

  // --- trimming ---

  /** `char::is_whitespace`. */
  predicate IsWhitespace(c: char) {
    var n := c as int;
    || 0x09 <= n <= 0x0D || n == 0x20 || n == 0x85 || n == 0xA0 || n == 0x1680
    || 0x2000 <= n <= 0x200A || n == 0x2028 || n == 0x2029 || n == 0x202F || n == 0x205F || n == 0x3000
  }

  datatype Trimming = Nuls | Whitespace

  predicate Drops(what: Trimming, c: char) {
    match what
    case Nuls => c == 0 as char
    case Whitespace => IsWhitespace(c)
  }

  function TrimStart(s: string, what: Trimming): (r: string)
    ensures |r| <= |s|
  {
    if s != "" && Drops(what, s[0]) then TrimStart(s[1..], what) else s
  }

  function TrimEnd(s: string, what: Trimming): (r: string)
    ensures |r| <= |s|
  {
    if s != "" && Drops(what, s[|s| - 1]) then TrimEnd(s[..|s| - 1], what) else s
  }

  function Trim(s: string, what: Trimming): (r: string)
    ensures |r| <= |s|
    ensures s != "" && !Drops(what, s[0]) && !Drops(what, s[|s| - 1]) ==> r == s
  {
    TrimEnd(TrimStart(s, what), what)
  }

  predicate AllDropped(s: string, what: Trimming) {
    forall i :: 0 <= i < |s| ==> Drops(what, s[i])
  }

  lemma {:induction false} TrimStartExact(pad: string, core: string, what: Trimming)
    requires AllDropped(pad, what) && (core != "" ==> !Drops(what, core[0]))
    ensures TrimStart(pad + core, what) == core
  {
    if pad == "" {
      assert pad + core == core;
    } else {
      TrimStartExact(pad[1..], core, what);
      assert (pad + core)[1..] == pad[1..] + core;
    }
  }

  lemma {:induction false} TrimEndExact(core: string, pad: string, what: Trimming)
    requires AllDropped(pad, what) && (core != "" ==> !Drops(what, core[|core| - 1]))
    ensures TrimEnd(core + pad, what) == core
  {
    if pad == "" {
      assert core + pad == core;
    } else {
      var n := |pad| - 1;
      TrimEndExact(core, pad[..n], what);
      assert (core + pad)[..|core + pad| - 1] == core + pad[..n];
    }
  }

  /** The characters of the Unicode property White_Space, and NUL by itself. */
  lemma DropsExact(c: char)
    ensures Drops(Nuls, c) <==> c as int == 0
    ensures Drops(Whitespace, c) <==> c as int in {
      0x09, 0x0A, 0x0B, 0x0C, 0x0D, 0x20, 0x85, 0xA0, 0x1680,
      0x2000, 0x2001, 0x2002, 0x2003, 0x2004, 0x2005, 0x2006, 0x2007, 0x2008, 0x2009, 0x200A,
      0x2028, 0x2029, 0x202F, 0x205F, 0x3000}
  {
  }

  /** Nothing but padding trims to nothing. */
  lemma {:induction false} TrimPadding(pad: string, what: Trimming)
    requires AllDropped(pad, what)
    ensures Trim(pad, what) == ""
  {
    TrimStartExact(pad, "", what);
    assert pad + "" == pad;
  }

  /** Every text is padding around nothing, or around something that neither starts nor ends
      with padding, so `TrimPadding` and `TrimExact` cover all texts. */
  lemma {:induction false} EveryTextIsPadded(s: string, what: Trimming)
    returns (before: string, core: string, after: string)
    ensures s == before + core + after && AllDropped(before, what) && AllDropped(after, what)
    ensures core == "" || (!Drops(what, core[0]) && !Drops(what, core[|core| - 1]))
  {
    if s == "" {
      before, core, after := "", "", "";
    } else if Drops(what, s[0]) {
      before, core, after := EveryTextIsPadded(s[1..], what);
      assert s == [s[0]] + s[1..];
      before := [s[0]] + before;
    } else {
      before, core, after := "", s, "";
      while Drops(what, core[|core| - 1])
        invariant core != "" && core[0] == s[0] && s == core + after && AllDropped(after, what)
        decreases |core|
      {
        var n := |core| - 1;
        after := [core[n]] + after;
        core := core[..n];
      }
    }
  }

  /** Trimming removes the padding at both ends and nothing else. */
  lemma TrimExact(before: string, core: string, after: string, what: Trimming)
    requires AllDropped(before, what) && AllDropped(after, what)
    requires core != "" && !Drops(what, core[0]) && !Drops(what, core[|core| - 1])
    ensures Trim(before + core + after, what) == core
  {
    assert before + core + after == before + (core + after);
    TrimStartExact(before, core + after, what);
    TrimEndExact(core, after, what);
  }
}

/** The facts decoders extract from a frame (lanscope/src/decode/mod.rs). */
module Signals {
  import opened Prelude
  import opened NetFmt

  datatype Signal =
    | Hostname(name: string)
    | Service(name: string)
    | DhcpFingerprint(codes: string)
    | DhcpVendorClass(name: string)
    | Seen

  datatype Observation = Observation(mac: Mac, ip: Option<u32>, signal: Signal)
}
