/** The event handler of lanscope/src/app.rs over registry, store and detectors: as one state
    with steps, including restarts after a crash, and as the imperative code. */
module App {
  import opened Prelude
  import opened NetFmt
  import opened Signals
  import opened Alerts
  import opened FlowCounters
  import opened Registry
  import opened Store
  import opened RowsInStep
  import P = PortScan
  import V = VolumeSpike

  const ZERO_MAC: Mac := [0, 0, 0, 0, 0, 0]

  /** `rows` and `alerts` are on disk; the rest is lost with the process. */
  datatype State = State(devices: Devices, rows: Rows, alerts: seq<Alert>, seen: map<u32, P.Scan>, ewma: map<u32, real>)

  datatype Step =
    | Sight(obs: Observation, now: int)
    | Count(key: FlowKey, stats: FlowStats, target: Option<Mac>, now: int)
    | Persist(mac: Mac)
    | Restart(restored: Devices)
    | DieSighting(obs: Observation, now: int, stored: bool, restored: Devices)

  /** `RuleFingerprinter::classify` of a record, as a device type. */
  function TypeOf(d: Device): Option<string> {
    match F.Classified(ProfileOf(d))
    case None => None
    case Some(c) => Some(c.deviceType)
  }

  /** The registry after an observation and the fingerprint that follows it. */
  function Sighted(devices: Devices, oui: Mac -> Option<string>, obs: Observation, now: int): Devices {
    var after := AfterObserve(devices, oui, obs, now);
    AfterSetType(after, obs.mac, TypeOf(after[obs.mac]))
  }

  /** `Device::label`. */
  function NameOf(d: Device): string {
    if d.hostname.Some? then d.hostname.value else if d.vendor.Some? then d.vendor.value else d.mac
  }

  function JoinAlert(d: Device, now: int): Alert {
    Alert(now, Some(d.mac), NewDevice(NameOf(d), if d.vendor.Some? then d.vendor.value else "unknown vendor"))
  }

  const PRINT: Print := (m: Mac) => MacText(m)
  const PARSE: Parse := (k: string) => MacOfText(k)

  /** What is on disk when the process dies in the middle of handling an observation. */
  function RowsAfterDying(s: State, oui: Mac -> Option<string>, obs: Observation, now: int, stored: bool): Rows {
    if stored && obs.mac != ZERO_MAC && obs.mac !in s.devices then
      Upserted(s.rows, Sighted(s.devices, oui, obs, now)[obs.mac])
    else s.rows
  }

  ghost predicate Enabled(oui: Mac -> Option<string>, s: State, step: Step) {
    match step
    case Sight(_, _) => true
    case Count(key, _, target, _) => IsTarget(s.devices, key.srcIp, target)
    case Persist(m) => m in s.devices
    case Restart(restored) => Restores(PARSE, s.rows, restored)
    case DieSighting(obs, now, stored, restored) => Restores(PARSE, RowsAfterDying(s, oui, obs, now, stored), restored)
  }

  function Apply(oui: Mac -> Option<string>, s: State, step: Step): State {
    match step
    case Sight(obs, now) => AfterSight(oui, s, obs, now)
    case Count(key, stats, target, now) => AfterCount(s, key, stats, target, now)
    case Persist(m) => if m in s.devices then s.(rows := Upserted(s.rows, s.devices[m])) else s
    case Restart(restored) => s.(devices := restored, seen := map[], ewma := map[])
    case DieSighting(obs, now, stored, restored) =>
      State(restored, RowsAfterDying(s, oui, obs, now, stored), s.alerts, map[], map[])
  }

  function AfterSight(oui: Mac -> Option<string>, s: State, obs: Observation, now: int): State {
    if obs.mac == ZERO_MAC then s
    else
      var devices := Sighted(s.devices, oui, obs, now);
      var d := devices[obs.mac];
      if obs.mac in s.devices then s.(devices := devices)
      else s.(devices := devices, rows := Upserted(s.rows, d), alerts := s.alerts + [JoinAlert(d, now)])
  }

  function AfterCount(s: State, key: FlowKey, stats: FlowStats, target: Option<Mac>, now: int): State {
    var contact := P.Contact(key.dstPort, now);
    State(
      AfterFlow(s.devices, target, stats.packets, stats.bytes, now),
      s.rows,
      s.alerts
        + P.ScanAlerts(s.seen, key.srcIp, contact, 10, 20)
        + V.SpikeAlerts(s.ewma, key.srcIp, stats.bytes, now),
      P.SeenAfter(s.seen, key.srcIp, contact, 10, 20),
      V.EwmaAfter(s.ewma, key.srcIp, stats.bytes))
  }

  /** Everything since the given state, latest step outermost. */
  datatype History = From(start: State) | Then(before: History, step: Step)

  ghost predicate IsRun(oui: Mac -> Option<string>, h: History) {
    h.From? || (IsRun(oui, h.before) && Enabled(oui, Now(oui, h.before), h.step))
  }

  function Now(oui: Mac -> Option<string>, h: History): State {
    if h.From? then h.start else Apply(oui, Now(oui, h.before), h.step)
  }

  const Empty := State(map[], map[], [], map[], map[])
}
