/** `handle_event`, `flush_all` and `seed_registry` of lanscope/src/app.rs as the code runs
    them, each as steps of the state that `App` describes. */
module AppHandler {
  import opened Prelude
  import opened NetFmt
  import opened Signals
  import opened Alerts
  import opened FlowCounters
  import opened Registry
  import opened Store
  import opened RowsInStep
  import opened App
  import opened AppRuns

  datatype CaptureEvent =
    | Discovery(observations: seq<Observation>)
    | Flows(flows: seq<(FlowKey, FlowStats)>)

  /** The default detector stack of lanscope/src/anomaly/mod.rs. */
  class AnomalyEngine {
    const scan: P.PortScanDetector
    const spike: V.VolumeSpikeDetector

    constructor ()
      ensures fresh(scan) && fresh(spike)
      ensures scan.seen == map[] && scan.windowSecs == 10 && scan.threshold == 20 && spike.ewma == map[]
    {
      scan := new P.PortScanDetector();
      spike := new V.VolumeSpikeDetector();
    }

    method OnDevice(d: Device, change: Change, now: int) returns (alerts: seq<Alert>)
      ensures alerts == if change == Created then [JoinAlert(d, now)] else []
    {
      if change != Created {
        return [];
      }
      var vendor := if d.vendor.Some? then d.vendor.value else "unknown vendor";
      return [Alert(now, Some(d.mac), NewDevice(NameOf(d), vendor))];
    }

    method OnFlow(key: FlowKey, stats: FlowStats, now: int) returns (alerts: seq<Alert>)
      requires scan.windowSecs == 10 && scan.threshold == 20
      modifies scan`seen, spike
      ensures scan.seen == P.SeenAfter(old(scan.seen), key.srcIp, P.Contact(key.dstPort, now), 10, 20)
      ensures spike.ewma == V.EwmaAfter(old(spike.ewma), key.srcIp, stats.bytes)
      ensures alerts
           == P.ScanAlerts(old(scan.seen), key.srcIp, P.Contact(key.dstPort, now), 10, 20)
            + V.SpikeAlerts(old(spike.ewma), key.srcIp, stats.bytes, now)
    {
      var first := scan.OnFlow(key.srcIp, key.dstPort, now);
      var second := spike.OnFlow(key.srcIp, stats.bytes, now);
      alerts := first + second;
    }
  }

  class Agent {
    const registry: DeviceRegistry
    const store: SqliteStore
    const engine: AnomalyEngine

    /** A process starting on the given store. */
    constructor (oui: Mac -> Option<string>, store: SqliteStore)
      ensures this.store == store && fresh(registry) && fresh(engine.scan) && fresh(engine.spike)
      ensures registry.oui == oui && Ready()
      ensures Snapshot() == State(map[], store.rows, store.alerts, map[], map[])
    {
      this.store := store;
      registry := new DeviceRegistry(oui);
      engine := new AnomalyEngine();
    }

    ghost predicate Ready() {
      engine.scan.windowSecs == 10 && engine.scan.threshold == 20
    }

    ghost function Snapshot(): State
      reads registry, store, engine.scan, engine.spike
    {
      State(registry.devices, store.rows, store.alerts, engine.scan.seen, engine.spike.ewma)
    }

    /** h is a run that ends in the present state. */
    ghost predicate Follows(h: History)
      reads registry, store, engine.scan, engine.spike
    {
      IsRun(registry.oui, h) && Now(registry.oui, h) == Snapshot()
    }

    method EmitAlerts(alerts: seq<Alert>)
      modifies store`alerts
      ensures store.alerts == old(store.alerts) + alerts
    {
      assert old(store.alerts) + alerts[..0] == old(store.alerts);
      for i := 0 to |alerts|
        invariant store.alerts == old(store.alerts) + alerts[..i]
      {
        assert alerts[..i + 1] == alerts[..i] + [alerts[i]];
        store.RecordAlert(alerts[i]);
      }
      assert alerts[..|alerts|] == alerts;
    }

    method HandleObservation(obs: Observation, now: int) returns (counted: bool)
      requires Ready()
      modifies registry`devices, store
      ensures Snapshot() == AfterSight(registry.oui, old(Snapshot()), obs, now)
      ensures counted <==> obs.mac != ZERO_MAC
    {
      if obs.mac == ZERO_MAC {
        return false;
      }
      var mac, change := registry.Observe(obs, now);
      var deviceType := TypeOf(registry.devices[mac]);
      registry.SetDeviceType(mac, deviceType);
      var dev := registry.devices[mac];
      if change == Created {
        store.UpsertDevice(dev);
      }
      var alerts := engine.OnDevice(dev, change, now);
      EmitAlerts(alerts);
      return true;
    }

    method HandleFlow(key: FlowKey, stats: FlowStats, now: int) returns (ghost target: Option<Mac>)
      requires Ready()
      modifies registry`devices, store`alerts, engine.scan`seen, engine.spike
      ensures IsTarget(old(registry.devices), key.srcIp, target)
      ensures Snapshot() == AfterCount(old(Snapshot()), key, stats, target, now)
    {
      target := registry.ApplyFlow(key.srcIp, stats.packets, stats.bytes, now);
      var alerts := engine.OnFlow(key, stats, now);
      EmitAlerts(alerts);
      var scan := P.ScanAlerts(old(engine.scan.seen), key.srcIp, P.Contact(key.dstPort, now), 10, 20);
      var spike := V.SpikeAlerts(old(engine.spike.ewma), key.srcIp, stats.bytes, now);
      assert old(store.alerts) + (scan + spike) == old(store.alerts) + scan + spike;
    }

    method Observed(obs: Observation, now: int, ghost h: History) returns (counted: bool, ghost after: History)
      requires Ready() && Follows(h)
      modifies registry`devices, store
      ensures after == Then(h, Sight(obs, now)) && Follows(after)
      ensures counted <==> obs.mac != ZERO_MAC
    {
      counted := HandleObservation(obs, now);
      after := Then(h, Sight(obs, now));
    }

    method Counted(key: FlowKey, stats: FlowStats, now: int, ghost h: History)
      returns (ghost target: Option<Mac>, ghost after: History)
      requires Ready() && Follows(h)
      modifies registry`devices, store`alerts, engine.scan`seen, engine.spike
      ensures after == Then(h, Count(key, stats, target, now)) && Follows(after)
    {
      target := HandleFlow(key, stats, now);
      after := Then(h, Count(key, stats, target, now));
    }

    /** One capture event: a run that continues h by exactly the event's observations or flows. */
    method HandleEvent(ev: CaptureEvent, now: int, ghost h: History) returns (n: nat, ghost after: History)
      requires Ready() && Follows(h)
      modifies registry`devices, store, engine.scan`seen, engine.spike
      ensures Follows(after)
      ensures Handled(h, after, ev, now)
      ensures n == if ev.Discovery? then RealOnes(ev.observations) else 0
    {
      match ev {
        case Discovery(observations) =>
          n, after := HandleDiscovery(observations, now, h);
        case Flows(flows) =>
          after := HandleFlows(flows, now, h);
          n := 0;
      }
    }

    method HandleDiscovery(observations: seq<Observation>, now: int, ghost h: History)
      returns (n: nat, ghost after: History)
      requires Ready() && Follows(h)
      modifies registry`devices, store
      ensures Follows(after)
      ensures SightsAll(h, after, observations, now)
      ensures n == RealOnes(observations)
    {
      n := 0;
      after := h;
      for i := 0 to |observations|
        invariant Follows(after)
        invariant SightsAll(h, after, observations[..i], now)
        invariant n == RealOnes(observations[..i])
      {
        var counted;
        counted, after := Observed(observations[i], now, after);
        if counted {
          n := n + 1;
        }
        assert observations[..i + 1][..i] == observations[..i];
      }
      assert observations[..|observations|] == observations;
    }

    method HandleFlows(flows: seq<(FlowKey, FlowStats)>, now: int, ghost h: History) returns (ghost after: History)
      requires Ready() && Follows(h)
      modifies registry`devices, store`alerts, engine.scan`seen, engine.spike
      ensures Follows(after)
      ensures CountsAll(h, after, flows, now)
    {
      after := h;
      for i := 0 to |flows|
        invariant Follows(after)
        invariant CountsAll(h, after, flows[..i], now)
      {
        ghost var target;
        target, after := Counted(flows[i].0, flows[i].1, now, after);
        assert flows[..i + 1][..i] == flows[..i];
      }
      assert flows[..|flows|] == flows;
    }

    /** Write every device out once, in no particular order. */
    method FlushAll() returns (ghost order: seq<Mac>)
      modifies store`rows
      ensures Lists(order, registry.devices)
      ensures store.rows == PersistAll(old(store.rows), registry.devices, order)
    {
      order := [];
      var rest := registry.devices.Keys;
      while rest != {}
        invariant rest <= registry.devices.Keys
        invariant forall m :: m in registry.devices <==> m in rest || m in order
        invariant store.rows == PersistAll(old(store.rows), registry.devices, order)
        decreases |rest|
      {
        var m :| m in rest;
        assert (order + [m])[..|order|] == order;
        store.UpsertDevice(registry.devices[m]);
        order := order + [m];
        rest := rest - {m};
      }
    }

    /** Read the stored devices into the registry; rows whose key is no MAC are skipped. */
    method SeedRegistry()
      modifies registry`devices
      ensures Seeds(PARSE, store.rows, old(registry.devices), registry.devices)
      ensures old(registry.devices) == map[] ==> Restores(PARSE, store.rows, registry.devices)
    {
      var devices := store.LoadDevices();
      for i := 0 to |devices|
        invariant Loaded(PARSE, store.rows, devices, i, old(registry.devices), registry.devices)
      {
        var dev := devices[i];
        assert dev in devices;
        LoadOne(PARSE, store.rows, devices, i, old(registry.devices), registry.devices);
        var mac := ParseMac(dev.mac);
        if mac.Some? {
          registry.Load(mac.value, dev);
        }
      }
      AllLoaded(PARSE, store.rows, devices, old(registry.devices), registry.devices);
    }
  }

  ghost predicate Lists(order: seq<Mac>, devices: Devices) {
    forall m :: m in devices <==> m in order
  }

  function PersistAll(rows: Rows, devices: Devices, order: seq<Mac>): Rows {
    if order == [] then rows
    else
      var n := |order| - 1;
      var before := PersistAll(rows, devices, order[..n]);
      if order[n] in devices then Upserted(before, devices[order[n]]) else before
  }

  /** The steps of a flush. */
  function FlushSteps(h: History, order: seq<Mac>): History {
    if order == [] then h else Then(FlushSteps(h, order[..|order| - 1]), Persist(order[|order| - 1]))
  }

  /** A flush is a run of persisting steps that changes the rows and nothing else. */
  lemma {:induction false} FlushIsRun(oui: Mac -> Option<string>, h: History, order: seq<Mac>)
    requires IsRun(oui, h) && forall m :: m in order ==> m in Now(oui, h).devices
    ensures
      var s := Now(oui, h);
      IsRun(oui, FlushSteps(h, order))
      && Now(oui, FlushSteps(h, order)) == s.(rows := PersistAll(s.rows, s.devices, order))
  {
    if order != [] {
      FlushIsRun(oui, h, order[..|order| - 1]);
    }
  }

  /** After it every row is its device's current record, whatever the order. */
  lemma {:induction false} FlushReachesAll(show: Print, parse: Parse, devices: Devices, rows: Rows, order: seq<Mac>)
    requires Inverse(show, parse) && InStep(show, parse, devices, rows)
    requires forall m :: m in order ==> m in devices
    ensures
      var after := PersistAll(rows, devices, order);
      && InStep(show, parse, devices, after)
      && (forall m :: m in order ==> after[show(m)] == RowOf(devices[m]))
  {
    if order != [] {
      var n := |order| - 1;
      var before := PersistAll(rows, devices, order[..n]);
      FlushReachesAll(show, parse, devices, rows, order[..n]);
      PersistKeepsInStep(show, parse, devices, before, order[n]);
      forall m | m in order
        ensures PersistAll(rows, devices, order)[show(m)] == RowOf(devices[m])
      {
        assert m != order[n] ==> m in order[..n];
        assert parse(show(m)) == Some(m) && parse(show(order[n])) == Some(order[n]);
      }
    }
  }

  /** Flush, crash, seed: the registry comes back exactly as it was. */
  lemma FlushThenRestart(oui: Mac -> Option<string>, h: History, order: seq<Mac>, restored: Devices)
    requires IsRun(oui, h) && StartOf(h) == Empty && Lists(order, Now(oui, h).devices)
    requires Restores(PARSE, PersistAll(Now(oui, h).rows, Now(oui, h).devices, order), restored)
    ensures restored == Now(oui, h).devices
  {
    var s := Now(oui, h);
    EmptyIsFine();
    RunKeepsInv(oui, h);
    ParseInvertsPrint();
    FlushReachesAll(PRINT, PARSE, s.devices, s.rows, order);
    RestoredExactly(PRINT, PARSE, s.devices, PersistAll(s.rows, s.devices, order), restored);
  }

  /** How many observations carry a real MAC. */
  function RealOnes(observations: seq<Observation>): nat {
    if observations == [] then 0
    else
      var n := |observations| - 1;
      RealOnes(observations[..n]) + if observations[n].mac != ZERO_MAC then 1 else 0
  }

  predicate SightsAll(h: History, after: History, observations: seq<Observation>, now: int) {
    if observations == [] then after == h
    else
      var n := |observations| - 1;
      after.Then? && after.step == Sight(observations[n], now) && SightsAll(h, after.before, observations[..n], now)
  }

  predicate CountsAll(h: History, after: History, flows: seq<(FlowKey, FlowStats)>, now: int) {
    if flows == [] then after == h
    else
      var n := |flows| - 1;
      && after.Then? && after.step.Count? && after.step.now == now
      && after.step.key == flows[n].0 && after.step.stats == flows[n].1
      && CountsAll(h, after.before, flows[..n], now)
  }

  /** `after` continues h by the event's observations or flows, one step each, in order. */
  predicate Handled(h: History, after: History, ev: CaptureEvent, now: int) {
    match ev
    case Discovery(observations) => SightsAll(h, after, observations, now)
    case Flows(flows) => CountsAll(h, after, flows, now)
  }
}
