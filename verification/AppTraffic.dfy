/** Where flow traffic goes: the attribution of lanscope/src/registry/mod.rs over whole runs of
    the event handler of lanscope/src/app.rs. */
module AppTraffic {
  import opened Prelude
  import opened NetFmt
  import opened Signals
  import opened FlowCounters
  import opened Registry
  import opened App
  import opened AppRuns

  datatype Counter = Packets | Bytes

  function Of(c: Counter, d: Device): u64 {
    if c.Packets? then d.packets else d.bytes
  }

  function In(c: Counter, s: FlowStats): u64 {
    if c.Packets? then s.packets else s.bytes
  }

  ghost function Pick(devices: Devices): Mac
    requires devices != map[]
    ensures Pick(devices) in devices
  {
    assert exists m :: m in devices by {
      assert devices.Keys != {};
    }
    var m :| m in devices;
    m
  }

  /** A counter summed over all devices. */
  ghost function Total(c: Counter, devices: Devices): nat
    decreases |devices|
  {
    if devices == map[] then 0
    else
      var m := Pick(devices);
      SmallerWithout(devices, m);
      Of(c, devices[m]) + Total(c, devices - {m})
  }

  lemma SmallerWithout(devices: Devices, m: Mac)
    requires m in devices
    ensures |devices - {m}| < |devices|
  {
    assert (devices - {m}).Keys == devices.Keys - {m};
    assert |devices - {m}| == |(devices - {m}).Keys| && |devices| == |devices.Keys|;
  }

  lemma {:induction false} TotalSplit(c: Counter, devices: Devices, m: Mac)
    requires m in devices
    ensures Total(c, devices) == Of(c, devices[m]) + Total(c, devices - {m})
    decreases |devices|
  {
    var p := Pick(devices);
    if p != m {
      SmallerWithout(devices, p);
      SmallerWithout(devices, m);
      TotalSplit(c, devices - {p}, m);
      TotalSplit(c, devices - {m}, p);
      assert devices - {p} - {m} == devices - {m} - {p};
    }
  }

  lemma TotalUpdate(c: Counter, devices: Devices, m: Mac, d: Device)
    ensures Total(c, devices[m := d]) + (if m in devices then Of(c, devices[m]) else 0)
         == Total(c, devices) + Of(c, d)
  {
    var after := devices[m := d];
    TotalSplit(c, after, m);
    if m in devices {
      TotalSplit(c, devices, m);
      assert after - {m} == devices - {m};
    } else {
      assert after - {m} == devices;
    }
  }

  // --- over a run ---

  /** All traffic of the snapshots handled in a run. */
  function Counted(c: Counter, h: History): nat {
    if h.From? then 0 else Counted(c, h.before) + if h.step.Count? then In(c, h.step.stats) else 0
  }

  /** The traffic whose source address no device held. */
  function Unattributed(c: Counter, h: History): nat {
    if h.From? then 0
    else Unattributed(c, h.before) + if h.step.Count? && h.step.target.None? then In(c, h.step.stats) else 0
  }

  lemma SightKeepsTotal(c: Counter, oui: Mac -> Option<string>, s: State, obs: Observation, now: int)
    ensures Total(c, AfterSight(oui, s, obs, now).devices) == Total(c, s.devices)
  {
    if obs.mac != ZERO_MAC {
      SightedIsUpdate(s.devices, oui, obs, now);
      RefreshedKeeps(s.devices, oui, obs, now);
      TotalUpdate(c, s.devices, obs.mac, Refreshed(s.devices, oui, obs, now));
    }
  }

  /** Adding the traffic to its target's counter does not reach the cap. */
  predicate Fits(c: Counter, devices: Devices, target: Option<Mac>, stats: FlowStats) {
    target.Some? && target.value in devices ==>
      Of(c, devices[target.value]) + In(c, stats) < 0x1_0000_0000_0000_0000
  }

  /** No counter saturates in the run. */
  predicate NoSaturation(c: Counter, oui: Mac -> Option<string>, h: History) {
    h.From? ||
    (NoSaturation(c, oui, h.before) &&
     (h.step.Count? ==> Fits(c, Now(oui, h.before).devices, h.step.target, h.step.stats)))
  }

  lemma FlowAddsToTotal(c: Counter, devices: Devices, target: Option<Mac>, stats: FlowStats, now: int)
    requires target.Some? ==> target.value in devices
    ensures
      var after := Total(c, AfterFlow(devices, target, stats.packets, stats.bytes, now));
      var due := Total(c, devices) + if target.Some? then In(c, stats) else 0;
      after <= due && (after == due <==> Fits(c, devices, target, stats))
  {
    if target.Some? {
      var m := target.value;
      TotalUpdate(c, devices, m, WithTraffic(devices[m], stats.packets, stats.bytes, now));
    }
  }

  lemma TotalStep(c: Counter, oui: Mac -> Option<string>, s: State, step: Step)
    requires Enabled(oui, s, step) && !step.Restart? && !step.DieSighting?
    ensures
      var after := Total(c, Apply(oui, s, step).devices);
      var due := Total(c, s.devices) + if step.Count? && step.target.Some? then In(c, step.stats) else 0;
      after <= due && (after == due <==> (step.Count? ==> Fits(c, s.devices, step.target, step.stats)))
  {
    match step
    case Sight(obs, now) => SightKeepsTotal(c, oui, s, obs, now);
    case Count(key, stats, target, now) => FlowAddsToTotal(c, s.devices, target, stats, now);
    case _ =>
  }

  /** No traffic is invented, and none is lost exactly when no counter saturates: what the
      devices gained and what no device could be held to account for is all that was counted. */
  lemma {:induction false} TrafficIsConserved(c: Counter, oui: Mac -> Option<string>, h: History)
    requires IsRun(oui, h) && Uninterrupted(h)
    ensures Total(c, Now(oui, h).devices) + Unattributed(c, h) <= Total(c, StartOf(h).devices) + Counted(c, h)
    ensures NoSaturation(c, oui, h)
       <==> Total(c, Now(oui, h).devices) + Unattributed(c, h) == Total(c, StartOf(h).devices) + Counted(c, h)
  {
    if h.Then? {
      TrafficIsConserved(c, oui, h.before);
      TotalStep(c, oui, Now(oui, h.before), h.step);
    }
  }
}
