/** What a device record says about everything that happened to the device: the incremental
    updates of lanscope/src/registry/mod.rs against a summary of the whole history. */
module DeviceHistory {
  import opened Prelude
  import opened NetFmt
  import opened Signals
  import opened Registry

  datatype Item =
    | Sighting(ip: Option<u32>, signal: Signal, at: int)
    | Traffic(packets: u64, bytes: u64, at: int)

  /** What happened to one device, latest item outermost. */
  datatype Items = Start | Next(before: Items, item: Item)

  function Step(d: Device, item: Item): Device {
    match item
    case Sighting(ip, signal, at) => WithSighting(d, ip, signal, at)
    case Traffic(packets, bytes, at) => WithTraffic(d, packets, bytes, at)
  }

  function Play(d: Device, items: Items): Device {
    if items.Start? then d else Step(Play(d, items.before), items.item)
  }

  // --- the whole history at once ---

  /** The addresses sighted, one entry a sighting. */
  function Addresses(items: Items): seq<string> {
    if items.Start? then []
    else
      Addresses(items.before) +
      if items.item.Sighting? && items.item.ip.Some? then [FmtIpv4(items.item.ip.value)] else []
  }

  /** The services announced, one entry an announcement. */
  function Offered(items: Items): seq<string> {
    if items.Start? then []
    else
      Offered(items.before) +
      if items.item.Sighting? && items.item.signal.Service? then [items.item.signal.name] else []
  }

  /** The last hostname announced, or the given one. */
  function LastHostname(items: Items, first: Option<string>): Option<string> {
    match items
    case Start => first
    case Next(before, Sighting(_, Hostname(h), _)) => Some(h)
    case Next(before, _) => LastHostname(before, first)
  }

  function LastFingerprint(items: Items, first: Option<string>): Option<string> {
    match items
    case Start => first
    case Next(before, Sighting(_, DhcpFingerprint(f), _)) => Some(f)
    case Next(before, _) => LastFingerprint(before, first)
  }

  function LastVendorClass(items: Items, first: Option<string>): Option<string> {
    match items
    case Start => first
    case Next(before, Sighting(_, DhcpVendorClass(v), _)) => Some(v)
    case Next(before, _) => LastVendorClass(before, first)
  }

  function PacketsOf(items: Items): nat {
    if items.Start? then 0
    else PacketsOf(items.before) + if items.item.Traffic? then items.item.packets else 0
  }

  function BytesOf(items: Items): nat {
    if items.Start? then 0
    else BytesOf(items.before) + if items.item.Traffic? then items.item.bytes else 0
  }

  function Capped(total: nat): u64 {
    if total < 0x1_0000_0000_0000_0000 then total else 0xffff_ffff_ffff_ffff
  }

  function Take(s: seq<string>, n: nat): seq<string> {
    if |s| <= n then s else s[..n]
  }

  /** The distinct addresses by last sighting, the first 32 distinct services by first
      announcement, the latest names, and the totals of all traffic. */
  function Summary(d: Device, items: Items): Device {
    Record(d, items, LastOccurrences(d.ips + Addresses(items)),
           Take(Dedup(d.services + Offered(items)), 32))
  }

  function Record(d: Device, items: Items, ips: seq<string>, services: seq<string>): Device {
    Device(
      d.mac, d.vendor,
      LastHostname(items, d.hostname), ips, services,
      LastFingerprint(items, d.dhcpFingerprint),
      LastVendorClass(items, d.dhcpVendorClass),
      d.deviceType, d.firstSeen,
      if items.Start? then d.lastSeen else items.item.at,
      Capped(d.packets + PacketsOf(items)),
      Capped(d.bytes + BytesOf(items)))
  }

  // --- lists ---

  lemma {:induction false} RemoveAbsent(s: seq<string>, x: string)
    requires x !in s
    ensures RemoveFirst(s, x) == s
  {
    if s != [] {
      RemoveAbsent(s[1..], x);
    }
  }

  lemma {:induction false} LastOccurrencesSnoc(s: seq<string>, x: string)
    ensures LastOccurrences(s + [x]) == MovedToEnd(LastOccurrences(s), x)
  {
    if s == [] {
      assert [] + [x] == [x] && [x][1..] == [];
      assert LastOccurrences([x]) == [x] + LastOccurrences([]);
    } else {
      var rest := LastOccurrences(s[1..]);
      assert (s + [x])[1..] == s[1..] + [x];
      LastOccurrencesSnoc(s[1..], x);
      LastOccurrencesMember(s[1..], x);
      if s[0] !in s[1..] {
        assert LastOccurrences(s) == [s[0]] + rest;
        if s[0] == x {
          RemoveAbsent(rest, x);
        }
      }
    }
  }

  lemma {:induction false} LastOccurrencesOfDistinct(s: seq<string>)
    requires NoDuplicates(s)
    ensures LastOccurrences(s) == s
  {
    if s != [] {
      LastOccurrencesOfDistinct(s[1..]);
    }
  }

  /** Offering one more service keeps the list the first 32 distinct ones. */
  lemma OfferOne(s: seq<string>, x: string, services: seq<string>)
    requires services == Take(Dedup(s), 32)
    ensures Take(Dedup(s + [x]), 32)
         == if x !in services && |services| < 32 then services + [x] else services
  {
    DedupSnoc(s, x);
    DedupMember(s, x);
  }

  // --- refinement, field by field ---

  predicate WellFormed(d: Device) {
    NoDuplicates(d.ips) && NoDuplicates(d.services) && |d.services| <= 32
  }

  lemma SightingStep(d: Device, items: Items, ip: Option<u32>, signal: Signal, at: int)
    ensures Summary(d, Next(items, Sighting(ip, signal, at))) == WithSighting(Summary(d, items), ip, signal, at)
  {
    var item := Sighting(ip, signal, at);
    AddressStep(d.ips, items, item);
    OfferStep(d.services, items, item);
    RecordStep(d, items, ip, signal, at,
               LastOccurrences(d.ips + Addresses(items)), LastOccurrences(d.ips + Addresses(Next(items, item))),
               Take(Dedup(d.services + Offered(items)), 32),
               Take(Dedup(d.services + Offered(Next(items, item))), 32));
  }

  lemma RecordStep(d: Device, items: Items, ip: Option<u32>, signal: Signal, at: int,
                   ips: seq<string>, ips': seq<string>, services: seq<string>, services': seq<string>)
    requires ips' == if ip.Some? then MovedToEnd(ips, FmtIpv4(ip.value)) else ips
    requires services'
          == if signal.Service? && signal.name !in services && |services| < 32
             then services + [signal.name] else services
    ensures Record(d, Next(items, Sighting(ip, signal, at)), ips', services')
         == WithSighting(Record(d, items, ips, services), ip, signal, at)
  {
    NamesStep(d, items, ip, signal, at);
    SightingFields(Record(d, items, ips, services), ip, signal, at);
  }

  /** What a sighting does, field by field. */
  lemma SightingFields(s: Device, ip: Option<u32>, signal: Signal, at: int)
    ensures WithSighting(s, ip, signal, at) == Device(
      s.mac, s.vendor,
      if signal.Hostname? then Some(signal.name) else s.hostname,
      if ip.Some? then MovedToEnd(s.ips, FmtIpv4(ip.value)) else s.ips,
      if signal.Service? && signal.name !in s.services && |s.services| < 32
        then s.services + [signal.name] else s.services,
      if signal.DhcpFingerprint? then Some(signal.codes) else s.dhcpFingerprint,
      if signal.DhcpVendorClass? then Some(signal.name) else s.dhcpVendorClass,
      s.deviceType, s.firstSeen, at, s.packets, s.bytes)
  {
  }

  /** A signal replaces the field it names and no other. */
  lemma NamesStep(d: Device, items: Items, ip: Option<u32>, signal: Signal, at: int)
    ensures
      var after := Next(items, Sighting(ip, signal, at));
      && LastHostname(after, d.hostname) == (if signal.Hostname? then Some(signal.name) else LastHostname(items, d.hostname))
      && LastFingerprint(after, d.dhcpFingerprint)
         == (if signal.DhcpFingerprint? then Some(signal.codes) else LastFingerprint(items, d.dhcpFingerprint))
      && LastVendorClass(after, d.dhcpVendorClass)
         == (if signal.DhcpVendorClass? then Some(signal.name) else LastVendorClass(items, d.dhcpVendorClass))
      && PacketsOf(after) == PacketsOf(items) && BytesOf(after) == BytesOf(items)
  {
  }

  lemma AddressStep(ips: seq<string>, items: Items, item: Item)
    ensures LastOccurrences(ips + Addresses(Next(items, item)))
         == if item.Sighting? && item.ip.Some?
            then MovedToEnd(LastOccurrences(ips + Addresses(items)), FmtIpv4(item.ip.value))
            else LastOccurrences(ips + Addresses(items))
  {
    var seen := ips + Addresses(items);
    if item.Sighting? && item.ip.Some? {
      var x := FmtIpv4(item.ip.value);
      LastOccurrencesSnoc(seen, x);
      assert ips + Addresses(Next(items, item)) == seen + [x];
    } else {
      assert ips + Addresses(Next(items, item)) == seen;
    }
  }

  lemma OfferStep(services: seq<string>, items: Items, item: Item)
    ensures
      var list := Take(Dedup(services + Offered(items)), 32);
      Take(Dedup(services + Offered(Next(items, item))), 32)
      == if item.Sighting? && item.signal.Service? && item.signal.name !in list && |list| < 32
         then list + [item.signal.name] else list
  {
    var seen := services + Offered(items);
    if item.Sighting? && item.signal.Service? {
      OfferOne(seen, item.signal.name, Take(Dedup(seen), 32));
      assert services + Offered(Next(items, item)) == seen + [item.signal.name];
    } else {
      assert services + Offered(Next(items, item)) == seen;
    }
  }

  lemma TrafficStep(d: Device, items: Items, packets: u64, bytes: u64, at: int)
    ensures Summary(d, Next(items, Traffic(packets, bytes, at))) == WithTraffic(Summary(d, items), packets, bytes, at)
  {
    var item := Traffic(packets, bytes, at);
    AddressStep(d.ips, items, item);
    OfferStep(d.services, items, item);
  }

  lemma NothingYet(d: Device)
    requires WellFormed(d)
    ensures Summary(d, Start) == d
  {
    assert d.ips + [] == d.ips && d.services + [] == d.services;
    LastOccurrencesOfDistinct(d.ips);
    DedupOfDistinct(d.services);
  }

  /** The record kept step by step is the summary of the history. */
  lemma {:induction false} PlayIsSummary(d: Device, items: Items)
    requires WellFormed(d)
    ensures Play(d, items) == Summary(d, items)
  {
    match items
    case Start =>
      NothingYet(d);
    case Next(before, Sighting(ip, signal, at)) =>
      PlayIsSummary(d, before);
      SightingStep(d, before, ip, signal, at);
    case Next(before, Traffic(packets, bytes, at)) =>
      PlayIsSummary(d, before);
      TrafficStep(d, before, packets, bytes, at);
  }

  /** The address lists hold exactly the addresses the device was sighted with. */
  lemma {:induction false} AddressWasSighted(items: Items, ip: u32)
    ensures FmtIpv4(ip) in Addresses(items) <==> SightedWith(items, ip)
  {
    if items.Next? {
      AddressWasSighted(items.before, ip);
      if items.item.Sighting? && items.item.ip.Some? && FmtIpv4(items.item.ip.value) == FmtIpv4(ip) {
        FmtIpv4Injective(items.item.ip.value, ip);
      }
    }
  }

  predicate SightedWith(items: Items, ip: u32) {
    items.Next? && ((items.item.Sighting? && items.item.ip == Some(ip)) || SightedWith(items.before, ip))
  }

  lemma HoldsMeansSighted(d: Device, items: Items, ip: u32)
    requires d.ips == [] && WellFormed(d)
    ensures Holds(Play(d, items), ip) <==> SightedWith(items, ip)
  {
    PlayIsSummary(d, items);
    assert d.ips + Addresses(items) == Addresses(items);
    LastOccurrencesMember(Addresses(items), FmtIpv4(ip));
    AddressWasSighted(items, ip);
  }

  /** Some sighting carried the signal. */
  predicate Said(items: Items, signal: Signal) {
    items.Next? && ((items.item.Sighting? && items.item.signal == signal) || Said(items.before, signal))
  }

  /** Names that were announced are on record, and nothing else is: each latest name ... */
  lemma {:induction false} NamesWereSaid(items: Items, name: string)
    ensures LastHostname(items, None) == Some(name) ==> Said(items, Hostname(name))
    ensures LastFingerprint(items, None) == Some(name) ==> Said(items, DhcpFingerprint(name))
    ensures LastVendorClass(items, None) == Some(name) ==> Said(items, DhcpVendorClass(name))
    ensures Said(items, Hostname(name)) ==> LastHostname(items, None).Some?
    ensures Said(items, DhcpFingerprint(name)) ==> LastFingerprint(items, None).Some?
    ensures Said(items, DhcpVendorClass(name)) ==> LastVendorClass(items, None).Some?
  {
    if items.Next? {
      NamesWereSaid(items.before, name);
      if items.item.Sighting? {
        NamesStep(Blank(), items.before, items.item.ip, items.item.signal, items.item.at);
      }
    }
  }

  function Blank(): Device {
    Device("", None, None, [], [], None, None, None, 0, 0, 0, 0)
  }

  /** ... and each service, up to 32 of them. */
  lemma {:induction false} OfferedWereSaid(items: Items, name: string)
    ensures name in Offered(items) <==> Said(items, Service(name))
  {
    if items.Next? {
      OfferedWereSaid(items.before, name);
    }
  }

  lemma ServicesWereSaid(items: Items, name: string)
    ensures
      var services := Take(Dedup([] + Offered(items)), 32);
      && |services| <= 32
      && (name in services ==> Said(items, Service(name)))
      && (Said(items, Service(name)) && |services| < 32 ==> name in services)
  {
    assert [] + Offered(items) == Offered(items);
    DedupMember(Offered(items), name);
    OfferedWereSaid(items, name);
  }
}
