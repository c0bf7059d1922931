/** What announcements decode to: the packets of lanscope/src/capture/mock.rs through
    lanscope/src/decode/dns.rs and lanscope/src/decode/mdns.rs. */
module MdnsMeaning {
  import opened Prelude
  import opened Text
  import opened Signals
  import opened Dns
  import opened MdnsScan
  import opened Mdns

  const LOCAL: seq<byte> := Bytes("local")
  const TCP: seq<byte> := Bytes("_tcp")
  const UDP: seq<byte> := Bytes("_udp")

  /** _tcp.local or _udp.local */
  predicate IsTransport(l: Labels) {
    l.First? && (l.head == TCP || l.head == UDP) && l.rest == First(LOCAL, Nothing)
  }

  /** One or more labels before _tcp.local or _udp.local. */
  predicate IsServiceName(l: Labels) {
    l.First? && (IsTransport(l.rest) || IsServiceName(l.rest))
  }

  /** host.local, where the host has no dot and no leading underscore. */
  predicate IsHostName(l: Labels) {
    && l.First? && l.rest == First(LOCAL, Nothing)
    && l.head != [] && l.head[0] != 0x5f
    && (forall i :: 0 <= i < |l.head| ==> l.head[i] != 0x2e)
  }

  /** What a name announces: a service and each of its parent services, as far as their texts
      have at most 255 characters, or a host. */
  function Announced(l: Labels): seq<Signal> {
    if IsServiceName(l) then
      (if |TextOf(l)| <= 255 then [Service(TextOf(l))] else [])
      + if IsTransport(l.rest) then [] else Announced(l.rest)
    else if IsHostName(l) then [Hostname(Ascii(l.head))]
    else []
  }

  function AllAnnounced(names: seq<Labels>, j: nat): seq<Signal>
    requires j <= |names|
    decreases |names| - j
  {
    if j == |names| then [] else Announced(names[j]) + AllAnnounced(names, j + 1)
  }

  predicate Announces(l: Labels) {
    Scannable(l) && (IsServiceName(l) || IsHostName(l))
  }

  // --- texts of names ---

  lemma ContainsLater(front: string, text: string, needle: string)
    requires Contains(text, needle)
    ensures Contains(front + text, needle)
  {
    var i :| 0 <= i <= |text| && OccursAt(text, needle, i);
    assert (front + text)[|front| + i..|front| + i + |needle|] == text[i..i + |needle|];
    assert OccursAt(front + text, needle, |front| + i);
  }

  lemma TransportTexts(l: Labels)
    requires IsTransport(l)
    ensures TextOf(l) == if l.head == TCP then "_tcp.local" else "_udp.local"
    ensures TextOf(l.rest) == "local" && TextOf(l.rest.rest) == ""
  {
    TextOfFirst(l);
    TextOfFirst(l.rest);
  }

  predicate Mentions(text: string) {
    Contains(text, "._tcp") || Contains(text, "._udp")
  }

  lemma MentionsLater(front: string, text: string)
    requires Mentions(text)
    ensures Mentions(front + text)
  {
    if Contains(text, "._tcp") {
      ContainsLater(front, text, "._tcp");
    } else {
      ContainsLater(front, text, "._udp");
    }
  }

  lemma DottedTransport(l: Labels)
    requires IsTransport(l)
    ensures Mentions(['.'] + TextOf(l))
  {
    TransportTexts(l);
    var dotted := ['.'] + TextOf(l);
    if l.head == TCP {
      assert OccursAt(dotted, "._tcp", 0);
    } else {
      assert OccursAt(dotted, "._udp", 0);
    }
  }

  /** A service name mentions its transport with a dot in front. */
  lemma {:induction false} ServiceTextMentions(l: Labels)
    requires IsServiceName(l)
    ensures Mentions(TextOf(l))
  {
    TextOfFirst(l);
    var front, text := Ascii(l.head), TextOf(l.rest);
    if IsTransport(l.rest) {
      DottedTransport(l.rest);
      MentionsLater(front, ['.'] + text);
      assert front + (['.'] + text) == TextOf(l);
    } else {
      ServiceTextMentions(l.rest);
      MentionsLater(front + ['.'], text);
    }
  }

  lemma MentionsIsLong(text: string)
    requires Mentions(text)
    ensures |text| >= 5
  {
  }

  // --- what the extracted suffixes say ---

  /** The signals of the interesting ones among some names. */
  function Said(names: seq<string>): seq<Signal> {
    FlatMap(ReadSignal, Interesting(names))
  }

  lemma SaidAppend(a: seq<string>, b: seq<string>)
    ensures Said(a + b) == Said(a) + Said(b)
  {
    InterestingAppend(a, b);
    FlatMapAppend(ReadSignal, Interesting(a), Interesting(b));
  }

  lemma SaidOne(name: string)
    ensures Said([name]) == if IsInteresting(name) then SignalOf(name) else []
  {
    assert [name] == [] + [name];
    InterestingSnoc([], name);
    assert Interesting([]) == [];
    if IsInteresting(name) {
      FlatMapSnoc(ReadSignal, [], name);
      assert FlatMap(ReadSignal, []) == [];
    }
  }

  lemma OccursFirstChars(text: string, needle: string, i: int)
    requires |needle| >= 2
    ensures OccursAt(text, needle, i) ==> text[i] == needle[0] && text[i + 1] == needle[1]
  {
    if OccursAt(text, needle, i) {
      assert text[i] == text[i..i + |needle|][0] && text[i + 1] == text[i..i + |needle|][1];
    }
  }

  lemma NoDotInside(text: string, dot: nat, needle: string)
    requires dot < |text| && forall i :: 0 <= i < |text| && i != dot ==> text[i] != '.'
    requires |needle| >= 2 && needle[0] == '.'
    requires dot + 1 < |text| ==> text[dot + 1] != needle[1]
    ensures !Contains(text, needle)
  {
    forall i | 0 <= i <= |text|
      ensures !OccursAt(text, needle, i)
    {
      OccursFirstChars(text, needle, i);
    }
  }

  /** The transport by itself, `local` and the empty name say nothing. */
  lemma TransportSaysNothing(l: Labels)
    requires IsTransport(l)
    ensures Said(Suffixes(l)) == []
  {
    TransportTexts(l);
    var text := TextOf(l);
    assert Suffixes(l) == [text] + (["local"] + [""]);
    NoDotInside(text, 4, "._tcp");
    NoDotInside(text, 4, "._udp");
    assert SignalOf(text) == [];
    NotInteresting();
    SaidOne(text);
    SaidOne("local");
    SaidOne("");
    SaidAppend(["local"], [""]);
    SaidAppend([text], ["local"] + [""]);
  }

  lemma NotInteresting()
    ensures !IsInteresting("local") && !IsInteresting("")
  {
    forall needle | needle == "._tcp" || needle == "._udp"
      ensures !Contains("local", needle)
    {
      forall i | 0 <= i <= 5
        ensures !OccursAt("local", needle, i)
      {
        OccursFirstChars("local", needle, i);
      }
    }
  }

  lemma {:induction false} ServiceSays(l: Labels)
    requires IsServiceName(l)
    ensures Said(Suffixes(l)) == Announced(l)
  {
    TextOfFirst(l);
    ServiceTextMentions(l);
    MentionsIsLong(TextOf(l));
    SaidOne(TextOf(l));
    SaidAppend([TextOf(l)], Suffixes(l.rest));
    if IsTransport(l.rest) {
      TransportSaysNothing(l.rest);
    } else {
      ServiceSays(l.rest);
    }
  }

  lemma HostIsNotService(l: Labels)
    requires IsHostName(l)
    ensures !IsServiceName(l)
  {
    assert !IsTransport(l.rest);
    assert !IsTransport(l.rest.rest);
    assert !IsServiceName(l.rest.rest);
  }

  lemma HostText(l: Labels)
    requires IsHostName(l)
    ensures TextOf(l) == Ascii(l.head) + ".local"
    ensures !Contains(TextOf(l), "._tcp") && !Contains(TextOf(l), "._udp")
  {
    TextOfFirst(l);
    TextOfFirst(l.rest);
    var host, text := Ascii(l.head), Ascii(l.head) + ".local";
    assert ['.'] + "local" == ".local";
    assert host + ['.'] + "local" == text;
    forall i | 0 <= i < |text| && i != |host|
      ensures text[i] != '.'
    {
      assert i < |host| ==> text[i] == l.head[i] as char;
    }
    NoDotInside(text, |host|, "._tcp");
    NoDotInside(text, |host|, "._udp");
  }

  lemma HostSays(l: Labels)
    requires Writable(l) && IsHostName(l)
    ensures Said(Suffixes(l)) == Announced(l)
  {
    HostIsNotService(l);
    HostText(l);
    var text := TextOf(l);
    assert text[|text| - 6..] == ".local" && text[..|text| - 6] == Ascii(l.head);
    assert Ascii(l.head)[0] == l.head[0] as char;
    assert SignalOf(text) == [Hostname(Ascii(l.head))];
    TextOfFirst(l.rest);
    assert Suffixes(l) == [text] + (["local"] + [""]);
    NotInteresting();
    SaidOne(text);
    SaidOne("local");
    SaidOne("");
    SaidAppend(["local"], [""]);
    SaidAppend([text], ["local"] + [""]);
  }

  lemma {:induction false} AllSay(names: seq<Labels>, j: nat)
    requires j <= |names| && forall i :: 0 <= i < |names| ==> Announces(names[i])
    ensures Said(AllSuffixes(names, j)) == AllAnnounced(names, j)
    decreases |names| - j
  {
    if j < |names| {
      SaidAppend(Suffixes(names[j]), AllSuffixes(names, j + 1));
      AllSay(names, j + 1);
      if IsServiceName(names[j]) {
        ServiceSays(names[j]);
      } else {
        HostSays(names[j]);
      }
    }
  }

  /** A packet of service and host names decodes to exactly what the names announce, each
      fact once: every service with its parent services, every host by its bare name. */
  lemma DecodeAnnouncements(header: nat, names: seq<Labels>)
    requires forall i :: 0 <= i < |names| ==> Announces(names[i])
    ensures Decoded(NamePacket(header, names)) == Dedup(AllAnnounced(names, 0))
  {
    ScanExactness(header, names);
    AllSay(names, 0);
    ReadSignalsApart();
    FlatMapDedup(ReadSignal, Interesting(AllSuffixes(names, 0)));
  }

  lemma ReadSignalsApart()
    ensures ReadsApart(ReadSignal)
  {
    forall a, b | ReadSignal(a) != [] && ReadSignal(a) == ReadSignal(b)
      ensures a == b
    {
      SignalOfInjective(a, b);
    }
  }

  // --- the packet of the portable backend ---

  function Host(name: seq<byte>): Labels {
    First(name, First(LOCAL, Nothing))
  }

  function TcpService(name: seq<byte>): Labels {
    First(name, First(TCP, First(LOCAL, Nothing)))
  }

  method MdnsPacket() returns (p: seq<byte>)
    ensures p == NamePacket(12, [TcpService(Bytes("_raspberrypi")), Host(Bytes("livingroom-pi"))])
  {
    ghost var names := [TcpService(Bytes("_raspberrypi")), Host(Bytes("livingroom-pi"))];
    p := Zeros(12);
    var service := DnsName([Bytes("_raspberrypi"), Bytes("_tcp"), Bytes("local")]);
    p := p + service;
    var host := DnsName([Bytes("livingroom-pi"), Bytes("local")]);
    p := p + host;
    assert AllNameBytes(names, 2) == [];
    assert AllNameBytes(names, 1) == host + [];
    assert AllNameBytes(names, 0) == service + host;
  }

  /** Any such pair of names, and the packet above in particular. */
  lemma PairMeaning(service: seq<byte>, host: seq<byte>)
    requires AllPrintable(service) && 0 < |service| <= 0x20
    requires AllPrintable(host) && 0 < |host| <= 0x20 && host[0] != 0x5f
    requires forall i :: 0 <= i < |host| ==> host[i] != 0x2e
    ensures Decoded(NamePacket(12, [TcpService(service), Host(host)]))
         == [Service(Ascii(service) + "._tcp.local"), Hostname(Ascii(host))]
  {
    var names := [TcpService(service), Host(host)];
    var said := [Service(Ascii(service) + "._tcp.local"), Hostname(Ascii(host))];
    ServiceTexts(service);
    HostAnnounces(host);
    DecodeAnnouncements(12, names);
    assert AllAnnounced(names, 2) == [];
    assert AllAnnounced(names, 1) == [Hostname(Ascii(host))] + [];
    assert AllAnnounced(names, 0) == said;
    DedupOfDistinct(said);
  }

  lemma SamplePacketMeaning()
    ensures Decoded(NamePacket(12, [TcpService(Bytes("_raspberrypi")), Host(Bytes("livingroom-pi"))]))
         == [Service("_raspberrypi._tcp.local"), Hostname("livingroom-pi")]
  {
    PairMeaning(Bytes("_raspberrypi"), Bytes("livingroom-pi"));
    assert "_raspberrypi" + "._tcp.local" == "_raspberrypi._tcp.local";
  }

  lemma ServiceTexts(name: seq<byte>)
    requires AllPrintable(name) && 0 < |name| <= 0x20
    ensures Announces(TcpService(name))
    ensures Announced(TcpService(name)) == [Service(Ascii(name) + "._tcp.local")]
  {
    var l := TcpService(name);
    TextOfFirst(l);
    TransportTexts(l.rest);
    assert Ascii(name) + ['.'] + "_tcp.local" == Ascii(name) + "._tcp.local";
    assert IsTransport(l.rest);
    assert Clear(l.rest.rest);
    assert Clear(l.rest);
  }

  lemma HostAnnounces(name: seq<byte>)
    requires AllPrintable(name) && 0 < |name| <= 0x20 && name[0] != 0x5f
    requires forall i :: 0 <= i < |name| ==> name[i] != 0x2e
    ensures Announces(Host(name))
    ensures Announced(Host(name)) == [Hostname(Ascii(name))]
  {
    HostText(Host(name));
    HostIsNotService(Host(name));
    assert Clear(Host(name).rest);
  }

  // --- a name that misleads ---

  /** A 63-byte label whose first byte, read as a length, reaches just past ".local" inside it. */
  function Misleading(): seq<byte> {
    [0x21] + Letters(27) + Bytes(".local") + Letters(29)
  }

  function Letters(n: nat): seq<byte> {
    seq(n, _ => 0x61)
  }

  /** A name of one label. */
  function Sole(head: seq<byte>): (l: Labels)
    ensures l.First? && l.head == head
  {
    First(head, Nothing)
  }

  /** The host that a read started inside the label finds. */
  function Hidden(): (host: seq<byte>)
    ensures |host| == 33
  {
    Letters(27) + Bytes(".local")
  }

  /** The scan reports a host that no one announced: a read started inside the label succeeds. */
  lemma LongLabelsMislead()
    ensures
      var l := Sole(Misleading());
      && AllPrintable(l.head) && |l.head| == 63 && !Scannable(l)
      && Interesting(AllSuffixes([l], 0)) == []
      && Ascii(Hidden()) in Names(NamePacket(12, [l]))
  {
    MisleadingShape();
    FakeIsFound();
    TruthIsDull(Sole(Misleading()));
  }

  lemma MisleadingShape()
    ensures AllPrintable(Misleading()) && |Misleading()| == 63 && !Scannable(Sole(Misleading()))
  {
    var h := Misleading();
    assert h[0] == 0x21;
    assert !NoLowBytes(h);
  }

  lemma FakeIsFound()
    ensures Ascii(Hidden()) in Names(NamePacket(12, [Sole(Misleading())]))
  {
    var fake, buf := Hidden(), NamePacket(12, [Sole(Misleading())]);
    MisleadingBytes();
    FakeIsInteresting(fake);
    ReadsFake(buf, fake);
    NameIsFound(buf, 13, Ascii(fake));
  }

  lemma MisleadingBytes()
    ensures
      var buf := NamePacket(12, [Sole(Misleading())]);
      && |buf| > 47 && buf[13] == 0x21 && buf[47] == 0x61
      && buf[14..47] == Hidden()
  {
    var h := Misleading();
    var l := First(h, Nothing);
    assert AllNameBytes([l], 1) == [];
    assert NameBytes(l) == [63] + h + [0];
    var buf := Zeros(12) + ([63] + h + [0]);
    assert NamePacket(12, [l]) == buf;
    assert buf[13..76] == h;
    assert buf[13] == h[0] && buf[47] == h[34];
    assert buf[14..47] == h[1..34];
    assert h == [0x21] + (Hidden()) + Letters(29);
    assert h[1..34] == Hidden();
  }

  lemma ReadsFake(buf: seq<byte>, fake: seq<byte>)
    requires |buf| > 47 && buf[13] == 0x21 && buf[47] == 0x61 && buf[14..47] == fake && AllPrintable(fake)
    ensures ReadAt(buf, 13) == [Ascii(fake)]
  {
    LabelBytesArePrintable(fake);
    assert ReadLabels(buf, 47) == Some(([], 49));
    assert ReadLabels(buf, 13) == Some(([Ascii(fake)] + [], 49));
  }

  lemma FakeIsInteresting(fake: seq<byte>)
    requires fake == Hidden()
    ensures IsInteresting(Ascii(fake)) && AllPrintable(fake)
  {
    assert Ascii(fake)[27..] == ".local";
  }

  lemma TruthIsDull(l: Labels)
    requires l == Sole(Misleading())
    ensures Interesting(AllSuffixes([l], 0)) == []
  {
    var text := Ascii(l.head);
    TextOfFirst(l);
    NoDotInside(text, 28, "._tcp");
    NoDotInside(text, 28, "._udp");
    assert text[|text| - 6] == 'a';
    assert text[|text| - 6..][0] == text[|text| - 6];
    assert !IsInteresting(text);
    NotInteresting();
    assert AllSuffixes([l], 1) == [];
    assert Suffixes(l) == [text] + [""];
    assert AllSuffixes([l], 0) == ([] + [text]) + [""];
    InterestingSnoc([], text);
    InterestingSnoc([] + [text], "");
  }
}
