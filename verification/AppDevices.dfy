/** Device records over whole runs of the event handler: each is the summary of what happened
    to its device (lanscope/src/app.rs, lanscope/src/registry/mod.rs). */
module AppDevices {
  import opened Prelude
  import opened NetFmt
  import opened Signals
  import opened FlowCounters
  import opened Registry
  import opened DeviceHistory
  import opened Store
  import opened RowsInStep
  import opened App
  import opened AppRuns
  import F = Fingerprint

  /** What a run did to one device. */
  function ItemsOf(h: History, m: Mac): Items {
    if h.From? then Start
    else
      var before := ItemsOf(h.before, m);
      match h.step
      case Sight(obs, now) =>
        if obs.mac == m && m != ZERO_MAC then Next(before, Sighting(obs.ip, obs.signal, now)) else before
      case Count(_, stats, target, now) =>
        if target == Some(m) then Next(before, Traffic(stats.packets, stats.bytes, now)) else before
      case _ => before
  }

  /** When a run first sighted a device. */
  function FirstSight(h: History, m: Mac): Option<int> {
    if h.From? then None
    else if FirstSight(h.before, m).Some? then FirstSight(h.before, m)
    else if h.step.Sight? && h.step.obs.mac == m && m != ZERO_MAC then Some(h.step.now)
    else None
  }

  /** The record as it stood when the device was first known. */
  function Origin(oui: Mac -> Option<string>, h: History, m: Mac): Option<Device> {
    if m in StartOf(h).devices then Some(StartOf(h).devices[m])
    else if FirstSight(h, m).Some? then Some(Fresh(m, oui(m), FirstSight(h, m).value))
    else None
  }

  function Untyped(d: Device): Device {
    d.(deviceType := None)
  }

  lemma UntypedStep(d: Device, item: Item)
    ensures Untyped(DeviceHistory.Step(d, item)) == DeviceHistory.Step(Untyped(d), item)
  {
    if item.Sighting? {
      SightingFields(d, item.ip, item.signal, item.at);
      SightingFields(Untyped(d), item.ip, item.signal, item.at);
    }
  }

  /** Registry and origin agree on whether a device is known, and on its record but for the
      device type. */
  ghost predicate Follows(devices: Devices, m: Mac, origin: Option<Device>, items: Items) {
    match origin
    case None => m !in devices && items == Start
    case Some(d) => m in devices && Untyped(devices[m]) == Play(Untyped(d), items)
  }

  lemma SightFollows(oui: Mac -> Option<string>, s: State, obs: Observation, now: int, m: Mac,
                     origin: Option<Device>, items: Items)
    requires Follows(s.devices, m, origin, items)
    ensures
      var hit := obs.mac == m && m != ZERO_MAC;
      Follows(AfterSight(oui, s, obs, now).devices, m,
              if hit && origin.None? then Some(Fresh(m, oui(m), now)) else origin,
              if hit then Next(items, Sighting(obs.ip, obs.signal, now)) else items)
  {
    if obs.mac != ZERO_MAC {
      SightedIsUpdate(s.devices, oui, obs, now);
      if obs.mac == m {
        var known := if m in s.devices then s.devices[m] else Fresh(m, oui(m), now);
        var item := Sighting(obs.ip, obs.signal, now);
        UntypedStep(known, item);
        assert Untyped(Refreshed(s.devices, oui, obs, now)) == Untyped(DeviceHistory.Step(known, item));
      }
    }
  }

  lemma CountFollows(s: State, key: FlowKey, stats: FlowStats, target: Option<Mac>, now: int, m: Mac,
                     origin: Option<Device>, items: Items)
    requires Follows(s.devices, m, origin, items) && IsTarget(s.devices, key.srcIp, target)
    ensures Follows(AfterCount(s, key, stats, target, now).devices, m, origin,
                    if target == Some(m) then Next(items, Traffic(stats.packets, stats.bytes, now)) else items)
  {
    if target == Some(m) {
      UntypedStep(s.devices[m], Traffic(stats.packets, stats.bytes, now));
    }
  }

  lemma OriginAfter(oui: Mac -> Option<string>, h: History, step: App.Step, m: Mac)
    ensures Origin(oui, Then(h, step), m)
         == if step.Sight? && step.obs.mac == m && m != ZERO_MAC && Origin(oui, h, m).None?
            then Some(Fresh(m, oui(m), step.now)) else Origin(oui, h, m)
  {
  }

  lemma StepFollows(oui: Mac -> Option<string>, s: State, step: App.Step, h: History, m: Mac)
    requires Enabled(oui, s, step) && !step.Restart? && !step.DieSighting?
    requires Follows(s.devices, m, Origin(oui, h, m), ItemsOf(h, m))
    ensures Follows(Apply(oui, s, step).devices, m, Origin(oui, Then(h, step), m), ItemsOf(Then(h, step), m))
  {
    OriginAfter(oui, h, step, m);
    match step
    case Sight(obs, now) =>
      SightFollows(oui, s, obs, now, m, Origin(oui, h, m), ItemsOf(h, m));
    case Count(key, stats, target, now) =>
      CountFollows(s, key, stats, target, now, m, Origin(oui, h, m), ItemsOf(h, m));
    case Persist(_) =>
  }

  lemma {:induction false} RunFollows(oui: Mac -> Option<string>, h: History, m: Mac)
    requires IsRun(oui, h) && Uninterrupted(h)
    ensures Follows(Now(oui, h).devices, m, Origin(oui, h, m), ItemsOf(h, m))
  {
    if h.Then? {
      RunFollows(oui, h.before, m);
      StepFollows(oui, Now(oui, h.before), h.step, h.before, m);
    }
  }

  /** A device's record, device type aside, is the summary of all that the run did to it:
      distinct addresses by last sighting, the first 32 services, the latest names, the totals. */
  lemma RecordIsSummary(oui: Mac -> Option<string>, h: History, m: Mac)
    requires IsRun(oui, h) && Uninterrupted(h) && m in Now(oui, h).devices
    requires m in StartOf(h).devices ==> WellFormed(StartOf(h).devices[m])
    ensures Origin(oui, h, m).Some?
    ensures Untyped(Now(oui, h).devices[m]) == Summary(Untyped(Origin(oui, h, m).value), ItemsOf(h, m))
  {
    RunFollows(oui, h, m);
    PlayIsSummary(Untyped(Origin(oui, h, m).value), ItemsOf(h, m));
  }

  lemma {:induction false} SightedHasItems(h: History, m: Mac)
    ensures FirstSight(h, m).Some? ==> ItemsOf(h, m).Next?
  {
    if h.Then? {
      SightedHasItems(h.before, m);
    }
  }

  /** The record of a device that was unknown at the start, field by field. */
  lemma NewRecord(oui: Mac -> Option<string>, h: History, m: Mac)
    requires IsRun(oui, h) && Uninterrupted(h) && m !in StartOf(h).devices && m in Now(oui, h).devices
    ensures
      var (d, items) := (Now(oui, h).devices[m], ItemsOf(h, m));
      && d.mac == MacText(m) && d.vendor == oui(m)
      && FirstSight(h, m) == Some(d.firstSeen) && items.Next? && d.lastSeen == items.item.at
      && d.hostname == LastHostname(items, None)
      && d.dhcpFingerprint == LastFingerprint(items, None) && d.dhcpVendorClass == LastVendorClass(items, None)
      && d.ips == LastOccurrences([] + Addresses(items))
      && d.services == Take(Dedup([] + Offered(items)), 32)
      && d.packets == Capped(0 + PacketsOf(items)) && d.bytes == Capped(0 + BytesOf(items))
  {
    RecordIsSummary(oui, h, m);
    SightedHasItems(h, m);
  }

  /** Its vendor is the registered one, it was first seen when first sighted, and it holds
      exactly what its sightings said: with none, every other field is empty. */
  lemma NewRecordSays(oui: Mac -> Option<string>, h: History, m: Mac, name: string, ip: u32)
    requires IsRun(oui, h) && Uninterrupted(h) && m !in StartOf(h).devices && m in Now(oui, h).devices
    ensures
      var (d, items) := (Now(oui, h).devices[m], ItemsOf(h, m));
      && d.vendor == oui(m) && FirstSight(h, m) == Some(d.firstSeen)
      && (d.hostname == Some(name) ==> Said(items, Hostname(name)))
      && (Said(items, Hostname(name)) ==> d.hostname.Some?)
      && (d.dhcpFingerprint == Some(name) ==> Said(items, DhcpFingerprint(name)))
      && (Said(items, DhcpFingerprint(name)) ==> d.dhcpFingerprint.Some?)
      && (d.dhcpVendorClass == Some(name) ==> Said(items, DhcpVendorClass(name)))
      && (Said(items, DhcpVendorClass(name)) ==> d.dhcpVendorClass.Some?)
      && (name in d.services ==> Said(items, Service(name)))
      && (Said(items, Service(name)) && |d.services| < 32 ==> name in d.services)
      && (Holds(d, ip) <==> SightedWith(items, ip))
  {
    NewRecord(oui, h, m);
    var items := ItemsOf(h, m);
    NamesWereSaid(items, name);
    ServicesWereSaid(items, name);
    AddressesWereSighted(items, ip);
  }

  lemma AddressesWereSighted(items: Items, ip: u32)
    ensures FmtIpv4(ip) in LastOccurrences([] + Addresses(items)) <==> SightedWith(items, ip)
  {
    assert [] + Addresses(items) == Addresses(items);
    LastOccurrencesMember(Addresses(items), FmtIpv4(ip));
    AddressWasSighted(items, ip);
  }

  /** The device type is always the verdict on the signals the record holds now. */
  lemma {:induction false} TypeIsCurrent(oui: Mac -> Option<string>, h: History, m: Mac)
    requires IsRun(oui, h) && Uninterrupted(h) && m in Now(oui, h).devices
    requires m in StartOf(h).devices ==> StartOf(h).devices[m].deviceType == TypeOf(StartOf(h).devices[m])
    ensures Now(oui, h).devices[m].deviceType == TypeOf(Now(oui, h).devices[m])
  {
    if h.Then? {
      var s := Now(oui, h.before);
      if m in s.devices {
        TypeIsCurrent(oui, h.before, m);
      }
      TypeStep(oui, s, h.step, m);
    }
  }

  /** The vendor, the vendor class, the hostname or a service of the device spells the needle in any case. */
  ghost predicate Spells(d: Device, needle: string) {
    || (d.vendor.Some? && F.Matches(d.vendor.value, needle))
    || (d.dhcpVendorClass.Some? && F.Matches(d.dhcpVendorClass.value, needle))
    || (d.hostname.Some? && F.Matches(d.hostname.value, needle))
    || (exists i :: 0 <= i < |d.services| && F.Matches(d.services[i], needle))
  }

  /** The i-th table row is the last of the most confident rows whose needle the device spells. */
  ghost predicate TypedByRow(d: Device, i: nat) {
    && i < |F.RULES| && Spells(d, F.RULES[i].needle)
    && forall j :: 0 <= j < |F.RULES| && Spells(d, F.RULES[j].needle) ==>
         F.RULES[j].confidence <= F.RULES[i].confidence && (j > i ==> F.RULES[j].confidence < F.RULES[i].confidence)
  }

  lemma SpellsIsSomeText(d: Device, needle: string)
    ensures Spells(d, needle) <==> F.SomeTextMatches(ProfileOf(d), needle)
  {
    var p := ProfileOf(d);
    if Spells(d, needle) {
      if d.vendor.Some? && F.Matches(d.vendor.value, needle) {
        assert F.IsText(p, d.vendor.value);
      } else if d.dhcpVendorClass.Some? && F.Matches(d.dhcpVendorClass.value, needle) {
        assert F.IsText(p, d.dhcpVendorClass.value);
      } else if d.hostname.Some? && F.Matches(d.hostname.value, needle) {
        assert F.IsText(p, d.hostname.value);
      } else {
        var i :| 0 <= i < |d.services| && F.Matches(d.services[i], needle);
        assert F.IsText(p, d.services[i]);
      }
    }
    if F.SomeTextMatches(p, needle) {
      var text :| F.IsText(p, text) && F.Matches(text, needle);
      if text in d.services {
        var i :| 0 <= i < |d.services| && d.services[i] == text;
      }
    }
  }

  lemma RowsAgree(d: Device, i: nat)
    ensures TypedByRow(d, i) <==> F.RowWins(ProfileOf(d), i)
  {
    forall j | 0 <= j < |F.RULES|
      ensures Spells(d, F.RULES[j].needle) <==> F.SomeTextMatches(ProfileOf(d), F.RULES[j].needle)
    {
      SpellsIsSomeText(d, F.RULES[j].needle);
    }
  }

  /** The type of a record is that of its table row, and a record that spells no needle has none. */
  lemma TypeByTable(d: Device, deviceType: string)
    ensures TypeOf(d) == Some(deviceType) <==> exists i: nat :: TypedByRow(d, i) && F.RULES[i].deviceType == deviceType
    ensures TypeOf(d) == None <==> forall i :: 0 <= i < |F.RULES| ==> !Spells(d, F.RULES[i].needle)
  {
    var p := ProfileOf(d);
    if F.Classified(p).Some? {
      var c := F.Classified(p).value;
      F.VerdictIsLastMaximum(p, c);
      var i: nat :| F.RowWins(p, i) && c == F.RowVerdict(i);
      RowsAgree(d, i);
      SpellsIsSomeText(d, F.RULES[i].needle);
    } else {
      NoRow(d);
    }
    if exists i: nat :: TypedByRow(d, i) && F.RULES[i].deviceType == deviceType {
      var i: nat :| TypedByRow(d, i) && F.RULES[i].deviceType == deviceType;
      RowsAgree(d, i);
      F.VerdictIsLastMaximum(p, F.RowVerdict(i));
    }
  }

  lemma NoRow(d: Device)
    requires F.Classified(ProfileOf(d)) == None
    ensures forall i :: 0 <= i < |F.RULES| ==> !Spells(d, F.RULES[i].needle)
  {
    forall i | 0 <= i < |F.RULES|
      ensures !Spells(d, F.RULES[i].needle)
    {
      F.VerdictIsLastMaximum(ProfileOf(d), F.RowVerdict(i));
      SpellsIsSomeText(d, F.RULES[i].needle);
    }
  }

  lemma TypeStep(oui: Mac -> Option<string>, s: State, step: App.Step, m: Mac)
    requires Enabled(oui, s, step) && !step.Restart? && !step.DieSighting?
    requires m in Apply(oui, s, step).devices
    requires m in s.devices ==> s.devices[m].deviceType == TypeOf(s.devices[m])
    ensures Apply(oui, s, step).devices[m].deviceType == TypeOf(Apply(oui, s, step).devices[m])
  {
    match step
    case Sight(obs, now) =>
      SightDevices(oui, s, obs, now);
      TypeOfRefreshed(s.devices, oui, obs, now);
    case Count(_, stats, target, now) =>
      TypeAfterFlow(s.devices, target, stats, now, m);
    case Persist(_) =>
  }

  lemma SightDevices(oui: Mac -> Option<string>, s: State, obs: Observation, now: int)
    ensures AfterSight(oui, s, obs, now).devices
         == if obs.mac == ZERO_MAC then s.devices else s.devices[obs.mac := Refreshed(s.devices, oui, obs, now)]
  {
    SightedIsUpdate(s.devices, oui, obs, now);
  }

  lemma TypeAfterFlow(devices: Devices, target: Option<Mac>, stats: FlowStats, now: int, m: Mac)
    requires m in devices && devices[m].deviceType == TypeOf(devices[m])
    requires target.Some? ==> target.value in devices
    ensures
      var after := AfterFlow(devices, target, stats.packets, stats.bytes, now);
      after[m].deviceType == TypeOf(after[m])
  {
    if target == Some(m) {
      SameProfile(devices[m], WithTraffic(devices[m], stats.packets, stats.bytes, now));
    }
  }

  lemma SameProfile(a: Device, b: Device)
    requires ProfileOf(a) == ProfileOf(b)
    ensures TypeOf(a) == TypeOf(b)
  {
  }

  /** The DHCP fingerprint of a record has no bearing on its type. */
  lemma TypeIgnoresFingerprint(d: Device, f: Option<string>)
    ensures TypeOf(d.(dhcpFingerprint := f)) == TypeOf(d)
  {
    SameProfile(d, d.(dhcpFingerprint := f));
  }

  lemma TypeOfRefreshed(devices: Devices, oui: Mac -> Option<string>, obs: Observation, now: int)
    ensures
      var d := Refreshed(devices, oui, obs, now);
      d.deviceType == TypeOf(d)
  {
    RefreshedKeeps(devices, oui, obs, now);
  }

  /** A flow is only ever attributed to a device that was sighted with the flow's source address. */
  lemma TrafficGoesToSightedDevice(oui: Mac -> Option<string>, h: History, key: FlowKey, stats: FlowStats, m: Mac, now: int)
    requires IsRun(oui, Then(h, Count(key, stats, Some(m), now))) && Uninterrupted(h)
    requires m !in StartOf(h).devices
    ensures SightedWith(ItemsOf(h, m), key.srcIp)
  {
    RunFollows(oui, h, m);
    var d := Now(oui, h).devices[m];
    var origin := Untyped(Origin(oui, h, m).value);
    HoldsMeansSighted(origin, ItemsOf(h, m), key.srcIp);
    assert Holds(Untyped(d), key.srcIp) <==> Holds(d, key.srcIp);
  }

  /** And a flow that is attributed to nobody came from an address no device was sighted with. */
  lemma UnattributedWasNotSighted(oui: Mac -> Option<string>, h: History, key: FlowKey, stats: FlowStats, m: Mac, now: int)
    requires IsRun(oui, Then(h, Count(key, stats, None, now))) && Uninterrupted(h)
    requires m !in StartOf(h).devices && m in Now(oui, h).devices
    ensures !SightedWith(ItemsOf(h, m), key.srcIp)
  {
    NewRecordSays(oui, h, m, "", key.srcIp);
  }

  // --- records are fit to go on from, restored ones included ---

  /** Distinct addresses, at most 32 distinct services, and the type those signals imply. */
  predicate Fit(d: Device) {
    WellFormed(d) && d.deviceType == TypeOf(d)
  }

  ghost predicate AllFit(devices: Devices, rows: Rows) {
    && (forall m :: m in devices ==> Fit(devices[m]))
    && (forall k :: k in rows ==> Fit(DeviceOf(k, rows[k])))
  }

  lemma {:induction false} RemoveFirstKeeps(s: seq<string>, x: string)
    requires NoDuplicates(s)
    ensures NoDuplicates(RemoveFirst(s, x))
    ensures forall y :: y in RemoveFirst(s, x) <==> y in s && y != x
  {
    if s != [] {
      assert s == [s[0]] + s[1..];
      assert s[0] !in s[1..];
      if s[0] != x {
        RemoveFirstKeeps(s[1..], x);
        var rest := RemoveFirst(s[1..], x);
        assert forall i :: 0 <= i < |rest| ==> rest[i] in rest;
      }
    }
  }

  lemma SnocKeepsDistinct(s: seq<string>, x: string)
    requires NoDuplicates(s) && x !in s
    ensures NoDuplicates(s + [x])
  {
    assert forall i :: 0 <= i < |s| ==> s[i] in s;
  }

  lemma SightingKeepsWellFormed(d: Device, ip: Option<u32>, signal: Signal, at: int)
    requires WellFormed(d)
    ensures WellFormed(WithSighting(d, ip, signal, at))
  {
    SightingFields(d, ip, signal, at);
    if ip.Some? {
      RemoveFirstKeeps(d.ips, FmtIpv4(ip.value));
      SnocKeepsDistinct(RemoveFirst(d.ips, FmtIpv4(ip.value)), FmtIpv4(ip.value));
    }
    if signal.Service? && signal.name !in d.services {
      SnocKeepsDistinct(d.services, signal.name);
    }
  }

  lemma RefreshedIsFit(devices: Devices, oui: Mac -> Option<string>, obs: Observation, now: int)
    requires obs.mac in devices ==> WellFormed(devices[obs.mac])
    ensures Fit(Refreshed(devices, oui, obs, now))
  {
    var known := if obs.mac in devices then devices[obs.mac] else Fresh(obs.mac, oui(obs.mac), now);
    SightingKeepsWellFormed(known, obs.ip, obs.signal, now);
    RefreshedKeeps(devices, oui, obs, now);
  }

  /** Being fit is a matter of the lists, the type and the signals alone. */
  lemma FitBySignals(a: Device, b: Device)
    requires Fit(a) && b.ips == a.ips && b.services == a.services && b.deviceType == a.deviceType
    requires ProfileOf(b) == ProfileOf(a)
    ensures Fit(b)
  {
    SameProfile(a, b);
  }

  lemma UpsertKeepsFit(rows: Rows, d: Device)
    requires Fit(d) && forall k :: k in rows ==> Fit(DeviceOf(k, rows[k]))
    ensures forall k :: k in Upserted(rows, d) ==> Fit(DeviceOf(k, Upserted(rows, d)[k]))
  {
    var after := Upserted(rows, d);
    forall k | k in after
      ensures Fit(DeviceOf(k, after[k]))
    {
      if k == d.mac {
        FitBySignals(d, DeviceOf(k, after[k]));
      }
    }
  }

  lemma SightRows(oui: Mac -> Option<string>, s: State, obs: Observation, now: int)
    ensures AfterSight(oui, s, obs, now).rows
         == if obs.mac == ZERO_MAC || obs.mac in s.devices then s.rows
            else Upserted(s.rows, Refreshed(s.devices, oui, obs, now))
  {
    SightedIsUpdate(s.devices, oui, obs, now);
  }

  lemma UpdateKeepsFit(devices: Devices, rows: Rows, m: Mac, d: Device)
    requires AllFit(devices, rows) && Fit(d)
    ensures AllFit(devices[m := d], rows) && AllFit(devices[m := d], Upserted(rows, d))
  {
    UpsertKeepsFit(rows, d);
  }

  lemma SightKeepsFit(oui: Mac -> Option<string>, s: State, obs: Observation, now: int)
    requires AllFit(s.devices, s.rows)
    ensures AllFit(AfterSight(oui, s, obs, now).devices, AfterSight(oui, s, obs, now).rows)
  {
    SightDevices(oui, s, obs, now);
    SightRows(oui, s, obs, now);
    RefreshedIsFit(s.devices, oui, obs, now);
    UpdateKeepsFit(s.devices, s.rows, obs.mac, Refreshed(s.devices, oui, obs, now));
  }

  lemma FlowKeepsFit(devices: Devices, rows: Rows, target: Option<Mac>, packets: u64, bytes: u64, now: int)
    requires AllFit(devices, rows)
    ensures AllFit(AfterFlow(devices, target, packets, bytes, now), rows)
  {
    if target.Some? && target.value in devices {
      var d := devices[target.value];
      FitBySignals(d, WithTraffic(d, packets, bytes, now));
    }
  }

  lemma DyingKeepsFit(oui: Mac -> Option<string>, s: State, obs: Observation, now: int, stored: bool)
    requires AllFit(s.devices, s.rows)
    ensures AllFit(s.devices, RowsAfterDying(s, oui, obs, now, stored))
  {
    SightedIsUpdate(s.devices, oui, obs, now);
    RefreshedIsFit(s.devices, oui, obs, now);
    UpsertKeepsFit(s.rows, Refreshed(s.devices, oui, obs, now));
  }

  lemma RestoredIsFit(devices: Devices, rows: Rows, restored: Devices)
    requires AllFit(devices, rows) && Restores(PARSE, rows, restored)
    ensures AllFit(restored, rows)
  {
  }

  lemma StepKeepsFit(oui: Mac -> Option<string>, s: State, step: App.Step)
    requires AllFit(s.devices, s.rows) && Enabled(oui, s, step)
    ensures AllFit(Apply(oui, s, step).devices, Apply(oui, s, step).rows)
  {
    match step
    case Sight(obs, now) => SightKeepsFit(oui, s, obs, now);
    case Count(_, stats, target, now) => FlowKeepsFit(s.devices, s.rows, target, stats.packets, stats.bytes, now);
    case Persist(m) => UpsertKeepsFit(s.rows, s.devices[m]);
    case Restart(restored) => RestoredIsFit(s.devices, s.rows, restored);
    case DieSighting(obs, now, stored, restored) =>
      DyingKeepsFit(oui, s, obs, now, stored);
      RestoredIsFit(s.devices, RowsAfterDying(s, oui, obs, now, stored), restored);
  }

  /** In every run from an empty store, with any crashes and restarts, every record in memory
      and in the store has distinct addresses, at most 32 distinct services, and the device type
      that its own signals imply. */
  lemma {:induction false} RunKeepsFit(oui: Mac -> Option<string>, h: History)
    requires IsRun(oui, h) && StartOf(h) == Empty
    ensures AllFit(Now(oui, h).devices, Now(oui, h).rows)
  {
    if h.Then? {
      RunKeepsFit(oui, h.before);
      StepKeepsFit(oui, Now(oui, h.before), h.step);
    }
  }

  /** In the same runs every device, in memory or stored, has the type of the last most confident
      table row whose needle it spells. */
  lemma TypesAreFromTable(oui: Mac -> Option<string>, h: History, m: Mac, deviceType: string)
    requires IsRun(oui, h) && StartOf(h) == Empty && m in Now(oui, h).devices
    ensures
      var d := Now(oui, h).devices[m];
      && (d.deviceType == Some(deviceType) <==> exists i: nat :: TypedByRow(d, i) && F.RULES[i].deviceType == deviceType)
      && (d.deviceType == None <==> forall i :: 0 <= i < |F.RULES| ==> !Spells(d, F.RULES[i].needle))
  {
    RunKeepsFit(oui, h);
    TypeByTable(Now(oui, h).devices[m], deviceType);
  }

  /** So after any crashes and restarts, each record is the summary of what happened to its
      device since, on top of the record that was known or restored then, and its type is current. */
  lemma RecordIsSummarySince(oui: Mac -> Option<string>, g: History, h: History, m: Mac)
    requires IsRun(oui, g) && StartOf(g) == Empty
    requires IsRun(oui, h) && StartOf(h) == Now(oui, g) && Uninterrupted(h) && m in Now(oui, h).devices
    ensures Origin(oui, h, m).Some?
    ensures Untyped(Now(oui, h).devices[m]) == Summary(Untyped(Origin(oui, h, m).value), ItemsOf(h, m))
    ensures Now(oui, h).devices[m].deviceType == TypeOf(Now(oui, h).devices[m])
  {
    RunKeepsFit(oui, g);
    RecordIsSummary(oui, h, m);
    TypeIsCurrent(oui, h, m);
  }
}
