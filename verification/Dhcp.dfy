/** The DHCP decoder of lanscope/src/decode/dhcp.rs and the encoder of
    lanscope/src/capture/mock.rs. The magic cookie is that of section 3 of RFC 2131;
    options 12, 55 and 60 are those of sections 3.14, 9.8 and 9.13 of RFC 2132. */
module Dhcp {
  import opened Prelude
  import opened NetFmt
  import opened Text
  import opened Signals
  import opened DhcpOptions

  const MAGIC_COOKIE: seq<byte> := [0x63, 0x82, 0x53, 0x63]
  const OPT_HOSTNAME: byte := 12
  const OPT_PARAM_REQUEST_LIST: byte := 55
  const OPT_VENDOR_CLASS: byte := 60

  predicate CookieAt(payload: seq<byte>, p: nat) {
    p + 4 <= |payload|
    && payload[p] == 0x63 && payload[p + 1] == 0x82 && payload[p + 2] == 0x53 && payload[p + 3] == 0x63
  }

  /** Just past the first cookie at or after p. */
  function FindOptionsFrom(payload: seq<byte>, p: nat): (start: Option<nat>)
    ensures start.Some? ==>
      start.value >= p + 4 && CookieAt(payload, start.value - 4)
      && forall q :: p <= q < start.value - 4 ==> !CookieAt(payload, q)
    ensures start.None? ==> forall q :: p <= q ==> !CookieAt(payload, q)
    decreases |payload| - p
  {
    if p + 4 > |payload| then None
    else if CookieAt(payload, p) then Some(p + 4)
    else FindOptionsFrom(payload, p + 1)
  }

  function FindOptions(payload: seq<byte>): Option<nat> {
    FindOptionsFrom(payload, 0)
  }

  predicate BytesAt(payload: seq<byte>, p: int, bytes: seq<byte>) {
    0 <= p <= |payload| - |bytes| && payload[p..p + |bytes|] == bytes
  }

  lemma CookieBytes(payload: seq<byte>, p: nat)
    ensures CookieAt(payload, p) <==> BytesAt(payload, p, [0x63, 0x82, 0x53, 0x63])
  {
    if p + 4 <= |payload| {
      assert payload[p..p + 4] == [payload[p], payload[p + 1], payload[p + 2], payload[p + 3]];
    }
  }

  /** The options start just past the first occurrence of the four cookie bytes. */
  lemma FindOptionsExact(payload: seq<byte>, start: nat)
    ensures FindOptions(payload) == Some(start)
       <==> && BytesAt(payload, start - 4, [0x63, 0x82, 0x53, 0x63])
            && forall q :: 0 <= q < start - 4 ==> !BytesAt(payload, q, [0x63, 0x82, 0x53, 0x63])
  {
    forall q: nat
      ensures CookieAt(payload, q) <==> BytesAt(payload, q, [0x63, 0x82, 0x53, 0x63])
    {
      CookieBytes(payload, q);
    }
  }

  /** The parameter request list as printed: comma-separated decimal codes. */
  function Fingerprint(codes: seq<byte>): string {
    Join(Decimals(codes), ',')
  }

  /** Distinct request lists print differently. */
  lemma FingerprintInjective(a: seq<byte>, b: seq<byte>)
    requires Fingerprint(a) == Fingerprint(b)
    ensures a == b
  {
    JoinedDecimalsInjective(a, b, ',');
  }

  /** What one option contributes. */
  function SignalsOf(code: byte, data: seq<byte>): seq<Signal> {
    if code == OPT_HOSTNAME then
      match Utf8(data)
      case Some(text) =>
        var h := Trim(Trim(text, Nuls), Whitespace);
        if h != "" then [Hostname(h)] else []
      case None => []
    else if code == OPT_PARAM_REQUEST_LIST then
      if Fingerprint(data) != "" then [DhcpFingerprint(Fingerprint(data))] else []
    else if code == OPT_VENDOR_CLASS then
      match Utf8(data)
      case Some(text) =>
        var v := Trim(text, Whitespace);
        if v != "" then [DhcpVendorClass(v)] else []
      case None => []
    else []
  }

  const ReadSignals: Reader<Signal> := (code: byte, data: seq<byte>) => SignalsOf(code, data)

  function Decoded(payload: seq<byte>): seq<Signal> {
    match FindOptions(payload)
    case None => []
    case Some(start) => Walk(ReadSignals, payload, start)
  }

  method Decode(payload: seq<byte>) returns (signals: seq<Signal>)
    ensures signals == Decoded(payload)
  {
    var start := FindOptions(payload);
    if start.None? {
      return [];
    }
    signals := WalkOptions(ReadSignals, payload, start.value);
  }

  // --- round trip ---

  lemma FirstCookie(preamble: seq<byte>, rest: seq<byte>)
    requires FindOptions(preamble + MAGIC_COOKIE) == Some(|preamble| + 4)
    ensures FindOptions(preamble + MAGIC_COOKIE + rest) == Some(|preamble| + 4)
  {
    var short, payload := preamble + MAGIC_COOKIE, preamble + MAGIC_COOKIE + rest;
    assert CookieAt(payload, |preamble|);
    forall q | 0 <= q < |preamble|
      ensures !CookieAt(payload, q)
    {
      assert !CookieAt(short, q);
    }
  }

  /** Any options, pads among them, then anything that completes no further option, decode to
      the signals of the options in order, provided the preamble brings no earlier cookie
      (the cookie overlaps itself, so the condition is on preamble and cookie together). */
  lemma DecodeRoundTrip(preamble: seq<byte>, opts: Opts, tail: seq<byte>)
    requires FindOptions(preamble + MAGIC_COOKIE) == Some(|preamble| + 4)
    requires AllWellFormed(opts) && Stops(tail)
    ensures Decoded(preamble + MAGIC_COOKIE + WrittenAll(opts) + tail) == Meaning(ReadSignals, opts)
  {
    var front, written := preamble + MAGIC_COOKIE, WrittenAll(opts);
    FirstCookie(preamble, written + tail);
    Regroup(front, written, tail);
    DecodedFrom(front + written + tail, |front|);
    WalkRoundTrip(ReadSignals, front, opts, tail);
  }

  lemma Regroup(a: seq<byte>, b: seq<byte>, c: seq<byte>)
    ensures a + b + c == a + (b + c)
  {
  }

  lemma DecodedFrom(payload: seq<byte>, start: nat)
    requires FindOptions(payload) == Some(start)
    ensures Decoded(payload) == Walk(ReadSignals, payload, start)
  {
  }

  // --- a truncated copy never invents facts ---

  lemma TruncationKeepsPrefix(payload: seq<byte>, n: nat)
    requires n <= |payload|
    ensures Decoded(payload[..n]) <= Decoded(payload)
  {
    var cut := payload[..n];
    var start := FindOptions(cut);
    if start.Some? {
      assert CookieAt(payload, start.value - 4);
      forall q | 0 <= q < start.value - 4
        ensures !CookieAt(payload, q)
      {
        assert !CookieAt(cut, q);
      }
      assert FindOptions(payload) == start;
      WalkTruncated(ReadSignals, payload, n, start.value);
    }
  }

  // --- the packets the portable backend builds ---

  /** Texts are given by their UTF-8 bytes; `len() as u8` keeps the low eight bits of a length. */
  method DhcpPacket(hostname: seq<byte>, prl: seq<byte>, vendor: seq<byte>) returns (p: seq<byte>)
    ensures p == Packet(hostname, prl, vendor)
  {
    p := seq(8, _ => 0);
    p := p + [0x63, 0x82, 0x53, 0x63];
    p := p + [12, LowByte(|hostname|)];
    p := p + hostname;
    p := p + [55, LowByte(|prl|)];
    p := p + prl;
    p := p + [60, LowByte(|vendor|)];
    p := p + vendor;
    p := p + [255];
  }

  function LowByte(n: nat): byte {
    n % 0x100
  }

  function LenField(code: byte, data: seq<byte>): seq<byte> {
    [code, LowByte(|data|)] + data
  }

  const ZEROS: seq<byte> := [0, 0, 0, 0, 0, 0, 0, 0]

  function Packet(hostname: seq<byte>, prl: seq<byte>, vendor: seq<byte>): seq<byte> {
    ZEROS + MAGIC_COOKIE
    + (LenField(OPT_HOSTNAME, hostname) + LenField(OPT_PARAM_REQUEST_LIST, prl) + LenField(OPT_VENDOR_CLASS, vendor))
    + [OPT_END]
  }

  /** What the packet is meant to say. */
  function Intended(hostname: seq<byte>, prl: seq<byte>, vendor: seq<byte>): seq<Signal> {
    SignalsOf(OPT_HOSTNAME, hostname) + SignalsOf(OPT_PARAM_REQUEST_LIST, prl) + SignalsOf(OPT_VENDOR_CLASS, vendor)
  }

  function Parts(hostname: seq<byte>, prl: seq<byte>, vendor: seq<byte>): Opts {
    Three(Opt(OPT_HOSTNAME, hostname), Opt(OPT_PARAM_REQUEST_LIST, prl), Opt(OPT_VENDOR_CLASS, vendor))
  }

  lemma PacketIsWritten(hostname: seq<byte>, prl: seq<byte>, vendor: seq<byte>)
    requires |hostname| < 0x100 && |prl| < 0x100 && |vendor| < 0x100
    ensures
      var parts := Parts(hostname, prl, vendor);
      AllWellFormed(parts)
      && Packet(hostname, prl, vendor) == ZEROS + MAGIC_COOKIE + WrittenAll(parts) + [OPT_END]
  {
    var a, b, c := Opt(OPT_HOSTNAME, hostname), Opt(OPT_PARAM_REQUEST_LIST, prl), Opt(OPT_VENDOR_CLASS, vendor);
    ThreeOptions(a, b, c);
    assert LenField(OPT_HOSTNAME, hostname) == Written(a);
    assert LenField(OPT_PARAM_REQUEST_LIST, prl) == Written(b);
    assert LenField(OPT_VENDOR_CLASS, vendor) == Written(c);
  }

  lemma IntendedIsMeaning(hostname: seq<byte>, prl: seq<byte>, vendor: seq<byte>)
    ensures Meaning(ReadSignals, Parts(hostname, prl, vendor)) == Intended(hostname, prl, vendor)
  {
    ThreeMeanings(ReadSignals, Opt(OPT_HOSTNAME, hostname), Opt(OPT_PARAM_REQUEST_LIST, prl),
                  Opt(OPT_VENDOR_CLASS, vendor));
    ReadsSignals(OPT_HOSTNAME, hostname);
    ReadsSignals(OPT_PARAM_REQUEST_LIST, prl);
    ReadsSignals(OPT_VENDOR_CLASS, vendor);
  }

  lemma ReadsSignals(code: byte, data: seq<byte>)
    ensures ReadSignals(code, data) == SignalsOf(code, data)
  {
  }

  lemma PacketRoundTrip(hostname: seq<byte>, prl: seq<byte>, vendor: seq<byte>)
    requires |hostname| < 0x100 && |prl| < 0x100 && |vendor| < 0x100
    ensures Decoded(Packet(hostname, prl, vendor)) == Intended(hostname, prl, vendor)
  {
    PacketIsWritten(hostname, prl, vendor);
    CookieAfterZeros();
    assert Stops([OPT_END]);
    DecodeRoundTrip(ZEROS, Parts(hostname, prl, vendor), [OPT_END]);
    IntendedIsMeaning(hostname, prl, vendor);
  }

  lemma CookieAfterZeros()
    ensures FindOptions(ZEROS + MAGIC_COOKIE) == Some(|ZEROS| + 4)
  {
    assert CookieAt(ZEROS + MAGIC_COOKIE, 8);
    assert forall q :: 0 <= q < 8 ==> !CookieAt(ZEROS + MAGIC_COOKIE, q);
  }

  function Three(a: Opt, b: Opt, c: Opt): Opts {
    First(a, First(b, First(c, Nothing)))
  }

  lemma ThreeOptions(a: Opt, b: Opt, c: Opt)
    requires a.Opt? && b.Opt? && c.Opt? && WellFormed(a) && WellFormed(b) && WellFormed(c)
    ensures AllWellFormed(Three(a, b, c))
    ensures WrittenAll(Three(a, b, c)) == Written(a) + Written(b) + Written(c)
  {
    WrittenFirst(c, Nothing);
    WrittenFirst(b, First(c, Nothing));
    WrittenFirst(a, First(b, First(c, Nothing)));
    assert Written(a) + (Written(b) + (Written(c) + [])) == Written(a) + Written(b) + Written(c);
  }

  lemma WrittenFirst(o: Opt, rest: Opts)
    requires WellFormed(o) && AllWellFormed(rest)
    ensures AllWellFormed(First(o, rest)) && WrittenAll(First(o, rest)) == Written(o) + WrittenAll(rest)
  {
  }

  lemma ThreeMeanings<T>(read: Reader<T>, a: Opt, b: Opt, c: Opt)
    requires a.Opt? && b.Opt? && c.Opt?
    ensures Meaning(read, Three(a, b, c)) == read(a.code, a.data) + read(b.code, b.data) + read(c.code, c.data)
  {
    var two, one := First(b, First(c, Nothing)), First(c, Nothing);
    assert Meaning(read, one) == read(c.code, c.data) + [];
    assert Meaning(read, two) == read(b.code, b.data) + Meaning(read, one);
  }

  /** Visible ASCII characters only: no trimming takes place. */
  predicate Visible(text: seq<byte>) {
    forall b :: b in text ==> 0x21 <= b <= 0x7e
  }

  lemma VisibleText(code: byte, text: seq<byte>)
    requires Visible(text) && (code == OPT_HOSTNAME || code == OPT_VENDOR_CLASS)
    ensures SignalsOf(code, text)
         == if text == [] then []
            else if code == OPT_HOSTNAME then [Hostname(Ascii(text))]
            else [DhcpVendorClass(Ascii(text))]
  {
    Utf8OfAscii(text);
    if text != [] {
      VisibleIsTrimmed(text);
    }
  }

  lemma VisibleIsTrimmed(text: seq<byte>)
    requires Visible(text) && text != []
    ensures Trim(Ascii(text), Nuls) == Ascii(text) && Trim(Ascii(text), Whitespace) == Ascii(text)
  {
    assert text[0] in text && text[|text| - 1] in text;
  }

  lemma RequestList(prl: seq<byte>)
    ensures SignalsOf(OPT_PARAM_REQUEST_LIST, prl) == if prl == [] then [] else [DhcpFingerprint(Fingerprint(prl))]
  {
    JoinedDecimalsEmpty(prl, ',');
  }

  /** No signal can carry more than one option holds. */
  lemma SignalsFitOptions(payload: seq<byte>, s: Signal)
    requires s in Decoded(payload)
    ensures s.Hostname? || s.DhcpVendorClass? ==> |s.name| < 0x100
    ensures s.DhcpFingerprint? ==> exists prl: seq<byte> :: |prl| < 0x100 && s.codes == Fingerprint(prl)
  {
    var code, data := FoundInSomeOption(ReadSignals, payload, FindOptions(payload).value, s);
    assert s in SignalsOf(code, data);
  }

  /** The encoder's packets decode to what was put in exactly when every part fits the
      one-byte length field. */
  lemma PacketRoundTripExact(hostname: seq<byte>, prl: seq<byte>, vendor: seq<byte>)
    requires Visible(hostname) && Visible(vendor)
    ensures Decoded(Packet(hostname, prl, vendor))
         == (if hostname == [] then [] else [Hostname(Ascii(hostname))])
          + (if prl == [] then [] else [DhcpFingerprint(Fingerprint(prl))])
          + (if vendor == [] then [] else [DhcpVendorClass(Ascii(vendor))])
        <==> |hostname| < 0x100 && |prl| < 0x100 && |vendor| < 0x100
  {
    VisibleText(OPT_HOSTNAME, hostname);
    RequestList(prl);
    VisibleText(OPT_VENDOR_CLASS, vendor);
    var packet := Packet(hostname, prl, vendor);
    if |hostname| < 0x100 && |prl| < 0x100 && |vendor| < 0x100 {
      PacketRoundTrip(hostname, prl, vendor);
    } else if Decoded(packet) == Intended(hostname, prl, vendor) {
      OversizedPart(packet, hostname, prl, vendor);
    }
  }

  lemma OversizedPart(payload: seq<byte>, hostname: seq<byte>, prl: seq<byte>, vendor: seq<byte>)
    requires Visible(hostname) && Visible(vendor)
    requires Decoded(payload) == Intended(hostname, prl, vendor)
    ensures |hostname| < 0x100 && |prl| < 0x100 && |vendor| < 0x100
  {
    VisibleText(OPT_HOSTNAME, hostname);
    RequestList(prl);
    VisibleText(OPT_VENDOR_CLASS, vendor);
    if hostname != [] {
      SignalsFitOptions(payload, Hostname(Ascii(hostname)));
    }
    if prl != [] {
      SignalsFitOptions(payload, DhcpFingerprint(Fingerprint(prl)));
      var small: seq<byte> :| |small| < 0x100 && Fingerprint(prl) == Fingerprint(small);
      FingerprintInjective(prl, small);
    }
    if vendor != [] {
      SignalsFitOptions(payload, DhcpVendorClass(Ascii(vendor)));
    }
  }

  /** Neither empty nor padded with blanks. */
  predicate IsTrimmed(name: string) {
    name != "" && !Drops(Whitespace, name[0]) && !Drops(Whitespace, name[|name| - 1])
  }

  /** A vendor class in any script is reported without the blanks around it ... */
  lemma PaddedVendorClass(blanks: string, name: string, blanks': string)
    requires AllDropped(blanks, Whitespace) && AllDropped(blanks', Whitespace) && IsTrimmed(name)
    ensures SignalsOf(60, TextBytes(blanks + name + blanks')) == [DhcpVendorClass(name)]
  {
    TrimExact(blanks, name, blanks', Whitespace);
    Utf8RoundTrip(blanks + name + blanks');
  }

  /** ... and blanks alone are not. */
  lemma BlankVendorClass(blanks: string)
    requires AllDropped(blanks, Whitespace)
    ensures SignalsOf(60, TextBytes(blanks)) == []
  {
    TrimPadding(blanks, Whitespace);
    Utf8RoundTrip(blanks);
  }

  ghost predicate IsPaddedVendorClass(data: seq<byte>, name: string) {
    && IsTrimmed(name)
    && exists blanks: string, blanks': string ::
         AllDropped(blanks, Whitespace) && AllDropped(blanks', Whitespace)
         && data == TextBytes(blanks + name + blanks')
  }

  /** Option 60, on all data. */
  lemma VendorClassExact(data: seq<byte>, name: string)
    ensures SignalsOf(60, data) == [DhcpVendorClass(name)] <==> IsPaddedVendorClass(data, name)
    ensures SignalsOf(60, data) == [] || exists v: string :: SignalsOf(60, data) == [DhcpVendorClass(v)]
  {
    if IsPaddedVendorClass(data, name) {
      var blanks: string, blanks': string :|
        AllDropped(blanks, Whitespace) && AllDropped(blanks', Whitespace)
        && data == TextBytes(blanks + name + blanks');
      PaddedVendorClass(blanks, name, blanks');
    }
    if SignalsOf(60, data) == [DhcpVendorClass(name)] {
      var text := Utf8(data).value;
      Utf8AcceptsOnlyText(data);
      var blanks, core, blanks' := EveryTextIsPadded(text, Whitespace);
      if core == "" {
        PaddingOnly(blanks, blanks', Whitespace);
        BlankVendorClass(text);
      } else {
        PaddedVendorClass(blanks, core, blanks');
      }
    }
  }

  lemma PaddingOnly(a: string, b: string, what: Trimming)
    requires AllDropped(a, what) && AllDropped(b, what)
    ensures AllDropped(a + "" + b, what)
  {
  }

  /** A name inside blanks inside NULs. */
  predicate PadsHostname(nuls: string, blanks: string, name: string, blanks': string, nuls': string) {
    && AllDropped(nuls, Nuls) && AllDropped(nuls', Nuls)
    && AllDropped(blanks, Whitespace) && AllDropped(blanks', Whitespace) && IsTrimmed(name)
    && (blanks == "" ==> !Drops(Nuls, name[0]))
    && (blanks' == "" ==> !Drops(Nuls, name[|name| - 1]))
  }

  function Padded(nuls: string, blanks: string, name: string, blanks': string, nuls': string): string {
    nuls + (blanks + name + blanks') + nuls'
  }

  /** A hostname in any script, padded with blanks inside NULs, is reported without the padding ... */
  lemma PaddedHostname(nuls: string, blanks: string, name: string, blanks': string, nuls': string)
    requires PadsHostname(nuls, blanks, name, blanks', nuls')
    ensures SignalsOf(12, TextBytes(nuls + (blanks + name + blanks') + nuls')) == [Hostname(name)]
  {
    TrimTwice(nuls, blanks, name, blanks', nuls');
    Utf8RoundTrip(nuls + (blanks + name + blanks') + nuls');
  }

  lemma TrimTwice(nuls: string, blanks: string, name: string, blanks': string, nuls': string)
    requires PadsHostname(nuls, blanks, name, blanks', nuls')
    ensures Trim(Trim(nuls + (blanks + name + blanks') + nuls', Nuls), Whitespace) == name
  {
    var inner := blanks + name + blanks';
    assert inner[0] == if blanks == "" then name[0] else blanks[0];
    assert inner[|inner| - 1] == if blanks' == "" then name[|name| - 1] else blanks'[|blanks'| - 1];
    TrimExact(nuls, inner, nuls', Nuls);
    TrimExact(blanks, name, blanks', Whitespace);
  }

  /** ... and padding alone is not. */
  lemma BlankHostname(nuls: string, blanks: string, nuls': string)
    requires AllDropped(nuls, Nuls) && AllDropped(nuls', Nuls) && AllDropped(blanks, Whitespace)
    ensures SignalsOf(12, TextBytes(nuls + blanks + nuls')) == []
  {
    BlankTrimsAway(nuls, blanks, nuls');
    Utf8RoundTrip(nuls + blanks + nuls');
  }

  lemma BlankTrimsAway(nuls: string, blanks: string, nuls': string)
    requires AllDropped(nuls, Nuls) && AllDropped(nuls', Nuls) && AllDropped(blanks, Whitespace)
    ensures Trim(Trim(nuls + blanks + nuls', Nuls), Whitespace) == ""
  {
    if blanks == "" {
      PaddingOnly(nuls, nuls', Nuls);
      TrimPadding(nuls + blanks + nuls', Nuls);
      TrimPadding("", Whitespace);
    } else {
      TrimExact(nuls, blanks, nuls', Nuls);
      TrimPadding(blanks, Whitespace);
    }
  }

  ghost predicate IsPaddedHostname(data: seq<byte>, name: string) {
    exists nuls, blanks, blanks', nuls' ::
      PadsHostname(nuls, blanks, name, blanks', nuls') && data == TextBytes(Padded(nuls, blanks, name, blanks', nuls'))
  }

  /** Option 12, on all data. */
  lemma HostnameExact(data: seq<byte>, name: string)
    ensures SignalsOf(12, data) == [Hostname(name)] <==> IsPaddedHostname(data, name)
    ensures SignalsOf(12, data) == [] || exists h: string :: SignalsOf(12, data) == [Hostname(h)]
  {
    if IsPaddedHostname(data, name) {
      var nuls, blanks, blanks', nuls' :|
        PadsHostname(nuls, blanks, name, blanks', nuls') && data == TextBytes(Padded(nuls, blanks, name, blanks', nuls'));
      PaddedHostname(nuls, blanks, name, blanks', nuls');
    }
    if SignalsOf(12, data) == [Hostname(name)] {
      Utf8AcceptsOnlyText(data);
      HostnameIsPadded(Utf8(data).value, name);
    }
  }

  lemma HostnameIsPadded(text: string, name: string)
    requires SignalsOf(12, TextBytes(text)) == [Hostname(name)]
    ensures IsPaddedHostname(TextBytes(text), name)
  {
    var nuls, inner, nuls' := EveryTextIsPadded(text, Nuls);
    var blanks, core, blanks' := Nested(inner);
    if core == "" {
      BlankHostname(nuls, inner, nuls');
    } else {
      PaddedHostname(nuls, blanks, core, blanks', nuls');
      ShowsPadding(text, nuls, blanks, core, blanks', nuls');
    }
  }

  lemma ShowsPadding(text: string, nuls: string, blanks: string, name: string, blanks': string, nuls': string)
    requires PadsHostname(nuls, blanks, name, blanks', nuls') && text == Padded(nuls, blanks, name, blanks', nuls')
    ensures IsPaddedHostname(TextBytes(text), name)
  {
  }

  lemma Nested(inner: string) returns (blanks: string, core: string, blanks': string)
    requires inner == "" || (!Drops(Nuls, inner[0]) && !Drops(Nuls, inner[|inner| - 1]))
    ensures inner == blanks + core + blanks'
    ensures if core == "" then AllDropped(inner, Whitespace) else PadsHostname("", blanks, core, blanks', "")
  {
    blanks, core, blanks' := EveryTextIsPadded(inner, Whitespace);
    if core == "" {
      PaddingOnly(blanks, blanks', Whitespace);
    } else {
      assert blanks == "" ==> inner[0] == core[0];
      assert blanks' == "" ==> inner[|inner| - 1] == core[|core| - 1];
    }
  }

  /** Option 55 prints its codes, and the printed list reads back as the codes. */
  lemma RequestListExact(codes: seq<byte>)
    ensures SignalsOf(55, []) == []
    ensures codes != [] ==>
      && SignalsOf(55, codes) == [DhcpFingerprint(Fingerprint(codes))]
      && var pieces := Split(Fingerprint(codes), ',');
         |pieces| == |codes|
         && forall i :: 0 <= i < |codes| ==> IsNumeral(pieces[i]) && DecimalValue(pieces[i]) == codes[i]
  {
    RequestList([]);
    if codes != [] {
      RequestList(codes);
      JoinedDecimalsReadBack(codes, ',');
    }
  }

  /** No other option says anything. */
  lemma OtherOptionsAreSilent(code: byte, data: seq<byte>)
    requires code != 12 && code != 55 && code != 60
    ensures SignalsOf(code, data) == []
  {
  }

  /** Bytes that are no text yield no name at all. */
  lemma IllFormedTextIsSilent(code: byte, data: seq<byte>)
    requires (code == OPT_HOSTNAME || code == OPT_VENDOR_CLASS) && forall s :: TextBytes(s) != data
    ensures SignalsOf(code, data) == []
  {
    if Utf8(data).Some? {
      Utf8AcceptsOnlyText(data);
    }
  }
}
