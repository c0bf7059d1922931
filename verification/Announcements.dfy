/** What the handler of lanscope/src/app.rs announces about a device, over whole runs
    (lanscope/src/anomaly/heuristics.rs, lanscope/src/registry/mod.rs). */
module Announcements {
  import opened Prelude
  import opened NetFmt
  import opened Signals
  import opened Alerts
  import opened Registry
  import opened App
  import opened AppRuns
  import DeviceHistory
  import AppDevices

  /** The announcement of a device by its first sighting: the hostname it gave, or else its vendor,
      or else its address, and the vendor if it is known. */
  function FirstAnnouncement(oui: Mac -> Option<string>, obs: Observation, now: int): Alert {
    var vendor := oui(obs.mac);
    Alert(now, Some(MacText(obs.mac)),
          NewDevice(if obs.signal.Hostname? then obs.signal.name
                    else if vendor.Some? then vendor.value else MacText(obs.mac),
                    if vendor.Some? then vendor.value else "unknown vendor"))
  }

  predicate AllZero(m: Mac) {
    forall i :: 0 <= i < 6 ==> m[i] == 0
  }

  lemma ZeroMacExact(m: Mac)
    ensures m == ZERO_MAC <==> AllZero(m)
  {
  }

  /** The fields of a record that a first sighting made. */
  predicate IsFirstRecord(d: Device, oui: Mac -> Option<string>, obs: Observation) {
    && d.mac == MacText(obs.mac) && d.vendor == oui(obs.mac)
    && d.hostname == if obs.signal.Hostname? then Some(obs.signal.name) else None
  }

  lemma FirstRecord(devices: Devices, oui: Mac -> Option<string>, obs: Observation, now: int)
    requires obs.mac !in devices
    ensures IsFirstRecord(Refreshed(devices, oui, obs, now), oui, obs)
  {
    DeviceHistory.SightingFields(Fresh(obs.mac, oui(obs.mac), now), obs.ip, obs.signal, now);
  }

  lemma AnnouncedAs(d: Device, oui: Mac -> Option<string>, obs: Observation, now: int)
    requires IsFirstRecord(d, oui, obs)
    ensures JoinAlert(d, now) == FirstAnnouncement(oui, obs, now)
  {
  }

  lemma SightAlerts(oui: Mac -> Option<string>, s: State, obs: Observation, now: int)
    ensures AfterSight(oui, s, obs, now).alerts
         == if obs.mac == ZERO_MAC || obs.mac in s.devices then s.alerts
            else s.alerts + [JoinAlert(Refreshed(s.devices, oui, obs, now), now)]
  {
    SightedIsUpdate(s.devices, oui, obs, now);
  }

  /** An all-zero address is skipped; any other is on record from then on, and announced the first time. */
  lemma SightingIsRecorded(oui: Mac -> Option<string>, s: State, obs: Observation, now: int)
    ensures AllZero(obs.mac) ==> AfterSight(oui, s, obs, now) == s
    ensures !AllZero(obs.mac) ==> obs.mac in AfterSight(oui, s, obs, now).devices
    ensures AfterSight(oui, s, obs, now).alerts
         == if AllZero(obs.mac) || obs.mac in s.devices then s.alerts
            else s.alerts + [FirstAnnouncement(oui, obs, now)]
  {
    ZeroMacExact(obs.mac);
    AppDevices.SightDevices(oui, s, obs, now);
    SightAlerts(oui, s, obs, now);
    if obs.mac !in s.devices {
      FirstRecord(s.devices, oui, obs, now);
      AnnouncedAs(Refreshed(s.devices, oui, obs, now), oui, obs, now);
    }
  }

  /** Some sighting of the run made this announcement. */
  predicate AnnouncedBy(oui: Mac -> Option<string>, h: History, a: Alert) {
    h.Then? &&
    (|| (h.step.Sight? && !AllZero(h.step.obs.mac) && a == FirstAnnouncement(oui, h.step.obs, h.step.now))
     || AnnouncedBy(oui, h.before, a))
  }

  lemma StepAnnounces(oui: Mac -> Option<string>, s: State, step: Step, a: Alert)
    requires a in Apply(oui, s, step).alerts && a.finding.NewDevice?
    ensures a in s.alerts
         || (step.Sight? && !AllZero(step.obs.mac) && a == FirstAnnouncement(oui, step.obs, step.now))
  {
    match step
    case Sight(obs, now) => SightingIsRecorded(oui, s, obs, now);
    case _ =>
  }

  /** Over every run with any crashes, each announcement is that of a sighting, word for word. */
  lemma {:induction false} AnnouncementsSay(oui: Mac -> Option<string>, h: History, a: Alert)
    requires IsRun(oui, h) && StartOf(h) == Empty
    requires a in Now(oui, h).alerts && a.finding.NewDevice?
    ensures AnnouncedBy(oui, h, a)
  {
    if h.Then? {
      StepAnnounces(oui, Now(oui, h.before), h.step, a);
      if a in Now(oui, h.before).alerts {
        AnnouncementsSay(oui, h.before, a);
      }
    }
  }
}
