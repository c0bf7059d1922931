/** What every run of the event handler keeps, across flushes, crashes and restarts
    (lanscope/src/app.rs, lanscope/src/storage/sqlite.rs). */
module AppRuns {
  import opened Prelude
  import opened NetFmt
  import opened Signals
  import opened Alerts
  import opened FlowCounters
  import opened Registry
  import opened Store
  import opened RowsInStep
  import opened App

  function StartOf(h: History): State {
    if h.From? then h.start else StartOf(h.before)
  }

  // --- the invariant ---

  /** How many times a device was announced as new. */
  function JoinCount(alerts: seq<Alert>, mac: string): nat {
    if alerts == [] then 0
    else
      var a := alerts[|alerts| - 1];
      JoinCount(alerts[..|alerts| - 1], mac) + if a.finding.NewDevice? && a.mac == Some(mac) then 1 else 0
  }

  ghost predicate AnnouncedOnce(rows: Rows, alerts: seq<Alert>) {
    forall m: Mac :: JoinCount(alerts, MacText(m)) <= if MacText(m) in rows then 1 else 0
  }

  ghost predicate Inv(s: State) {
    InStep(PRINT, PARSE, s.devices, s.rows) && AnnouncedOnce(s.rows, s.alerts) && ZERO_MAC !in s.devices
  }

  // --- one record ---

  /** What handling a sighting does to the sighted device's record. */
  function Refreshed(devices: Devices, oui: Mac -> Option<string>, obs: Observation, now: int): Device {
    var known := if obs.mac in devices then devices[obs.mac] else Fresh(obs.mac, oui(obs.mac), now);
    var d := WithSighting(known, obs.ip, obs.signal, now);
    d.(deviceType := TypeOf(d))
  }

  lemma SightedIsUpdate(devices: Devices, oui: Mac -> Option<string>, obs: Observation, now: int)
    ensures Sighted(devices, oui, obs, now) == devices[obs.mac := Refreshed(devices, oui, obs, now)]
  {
  }

  lemma RefreshedKeeps(devices: Devices, oui: Mac -> Option<string>, obs: Observation, now: int)
    ensures
      var known := if obs.mac in devices then devices[obs.mac] else Fresh(obs.mac, oui(obs.mac), now);
      var d := Refreshed(devices, oui, obs, now);
      && d.mac == known.mac && d.firstSeen == known.firstSeen
      && d.packets == known.packets && d.bytes == known.bytes
      && d.deviceType == TypeOf(d)
  {
    var known := if obs.mac in devices then devices[obs.mac] else Fresh(obs.mac, oui(obs.mac), now);
    var d := WithSighting(known, obs.ip, obs.signal, now);
    SightingKeeps(known, obs.ip, obs.signal, now);
    TypeIgnoresType(d, TypeOf(d));
  }

  lemma SightingKeeps(d: Device, ip: Option<u32>, signal: Signal, now: int)
    ensures
      var e := WithSighting(d, ip, signal, now);
      e.mac == d.mac && e.firstSeen == d.firstSeen && e.packets == d.packets && e.bytes == d.bytes
  {
  }

  /** The type is a matter of the signals, not of the type before. */
  lemma TypeIgnoresType(d: Device, t: Option<string>)
    ensures TypeOf(d.(deviceType := t)) == TypeOf(d)
  {
    assert ProfileOf(d.(deviceType := t)) == ProfileOf(d);
  }

  // --- every step keeps the invariant ---

  lemma ParseInvertsPrint()
    ensures Inverse(PRINT, PARSE)
  {
    forall m: Mac
      ensures PARSE(PRINT(m)) == Some(m)
    {
      MacRoundTrip(m);
    }
  }

  /** Distinct devices have distinct texts. */
  lemma TextsDiffer(m: Mac, n: Mac)
    ensures MacText(m) == MacText(n) <==> m == n
  {
    if MacText(m) == MacText(n) {
      MacTextInjective(m, n);
    }
  }

  lemma JoinCountSnoc(alerts: seq<Alert>, a: Alert, mac: string)
    ensures JoinCount(alerts + [a], mac)
         == JoinCount(alerts, mac) + if a.finding.NewDevice? && a.mac == Some(mac) then 1 else 0
  {
    assert (alerts + [a])[..|alerts|] == alerts;
  }

  lemma NewAnnouncement(rows: Rows, alerts: seq<Alert>, m: Mac, d: Device, now: int)
    requires AnnouncedOnce(rows, alerts) && MacText(m) !in rows && d.mac == MacText(m)
    ensures AnnouncedOnce(Upserted(rows, d), alerts + [JoinAlert(d, now)])
  {
    forall n: Mac
      ensures JoinCount(alerts + [JoinAlert(d, now)], MacText(n)) <= if MacText(n) in Upserted(rows, d) then 1 else 0
    {
      JoinCountSnoc(alerts, JoinAlert(d, now), MacText(n));
      assert JoinCount(alerts, MacText(n)) <= if MacText(n) in rows then 1 else 0;
    }
  }

  lemma MoreRowsKeepAnnouncedOnce(rows: Rows, more: Rows, alerts: seq<Alert>)
    requires AnnouncedOnce(rows, alerts) && rows.Keys <= more.Keys
    ensures AnnouncedOnce(more, alerts)
  {
    forall m: Mac
      ensures JoinCount(alerts, MacText(m)) <= if MacText(m) in more then 1 else 0
    {
      assert JoinCount(alerts, MacText(m)) <= if MacText(m) in rows then 1 else 0;
    }
  }

  /** Flow alerts are not announcements. */
  lemma FlowAlertsAnnounceNobody(s: State, key: FlowKey, stats: FlowStats, target: Option<Mac>, now: int, mac: string)
    ensures JoinCount(AfterCount(s, key, stats, target, now).alerts, mac) == JoinCount(s.alerts, mac)
  {
    var scan := P.ScanAlerts(s.seen, key.srcIp, P.Contact(key.dstPort, now), 10, 20);
    var spike := V.SpikeAlerts(s.ewma, key.srcIp, stats.bytes, now);
    QuietAppend(s.alerts, scan, mac);
    QuietAppend(s.alerts + scan, spike, mac);
  }

  lemma QuietAppend(alerts: seq<Alert>, more: seq<Alert>, mac: string)
    requires |more| <= 1 && forall a :: a in more ==> !a.finding.NewDevice?
    ensures JoinCount(alerts + more, mac) == JoinCount(alerts, mac)
  {
    if more == [] {
      assert alerts + more == alerts;
    } else {
      assert more == [more[0]];
      JoinCountSnoc(alerts, more[0], mac);
    }
  }

  lemma SightKeepsInv(oui: Mac -> Option<string>, s: State, obs: Observation, now: int)
    requires Inv(s)
    ensures Inv(AfterSight(oui, s, obs, now))
  {
    if obs.mac != ZERO_MAC {
      var d := Refreshed(s.devices, oui, obs, now);
      SightedIsUpdate(s.devices, oui, obs, now);
      RefreshedKeeps(s.devices, oui, obs, now);
      if obs.mac in s.devices {
        UpdateKeepsInStep(PRINT, PARSE, s.devices, s.rows, obs.mac, d);
      } else {
        ParseInvertsPrint();
        CreateKeepsInStep(PRINT, PARSE, s.devices, s.rows, obs.mac, d);
        NewAnnouncement(s.rows, s.alerts, obs.mac, d, now);
      }
    }
  }

  lemma CountKeepsInv(s: State, key: FlowKey, stats: FlowStats, target: Option<Mac>, now: int)
    requires Inv(s) && IsTarget(s.devices, key.srcIp, target)
    ensures Inv(AfterCount(s, key, stats, target, now))
  {
    if target.Some? {
      var m := target.value;
      UpdateKeepsInStep(PRINT, PARSE, s.devices, s.rows, m, WithTraffic(s.devices[m], stats.packets, stats.bytes, now));
    }
    forall m: Mac
      ensures JoinCount(AfterCount(s, key, stats, target, now).alerts, MacText(m)) == JoinCount(s.alerts, MacText(m))
    {
      FlowAlertsAnnounceNobody(s, key, stats, target, now, MacText(m));
    }
  }

  lemma PersistKeepsInv(s: State, m: Mac)
    requires Inv(s) && m in s.devices
    ensures Inv(s.(rows := Upserted(s.rows, s.devices[m])))
  {
    ParseInvertsPrint();
    PersistKeepsInStep(PRINT, PARSE, s.devices, s.rows, m);
    MoreRowsKeepAnnouncedOnce(s.rows, Upserted(s.rows, s.devices[m]), s.alerts);
  }

  lemma RestartKeepsInv(rows: Rows, alerts: seq<Alert>, restored: Devices)
    requires (forall k :: k in rows ==> IsKey(PRINT, PARSE, k)) && MacText(ZERO_MAC) !in rows
    requires AnnouncedOnce(rows, alerts) && Restores(PARSE, rows, restored)
    ensures Inv(State(restored, rows, alerts, map[], map[]))
  {
    ParseInvertsPrint();
    RestoredRows(PRINT, PARSE, rows, restored);
    assert PRINT(ZERO_MAC) == MacText(ZERO_MAC);
  }

  /** Dying after the row was stored but before the alert leaves rows that are fit to seed from. */
  lemma DyingKeepsRows(oui: Mac -> Option<string>, s: State, obs: Observation, now: int, stored: bool)
    requires Inv(s)
    ensures
      var rows := RowsAfterDying(s, oui, obs, now, stored);
      && (forall k :: k in rows ==> IsKey(PRINT, PARSE, k)) && MacText(ZERO_MAC) !in rows
      && AnnouncedOnce(rows, s.alerts)
  {
    if stored && obs.mac != ZERO_MAC && obs.mac !in s.devices {
      var d := Refreshed(s.devices, oui, obs, now);
      SightedIsUpdate(s.devices, oui, obs, now);
      RefreshedKeeps(s.devices, oui, obs, now);
      StoredRows(s, obs.mac, d);
    }
  }

  lemma StoredRows(s: State, m: Mac, d: Device)
    requires Inv(s) && m !in s.devices && m != ZERO_MAC && d.mac == MacText(m)
    ensures
      var rows := Upserted(s.rows, d);
      && (forall k :: k in rows ==> IsKey(PRINT, PARSE, k)) && MacText(ZERO_MAC) !in rows
      && AnnouncedOnce(rows, s.alerts)
  {
    ParseInvertsPrint();
    CreateKeepsInStep(PRINT, PARSE, s.devices, s.rows, m, d);
    MoreRowsKeepAnnouncedOnce(s.rows, Upserted(s.rows, d), s.alerts);
    TextsDiffer(m, ZERO_MAC);
  }

  lemma StepKeepsInv(oui: Mac -> Option<string>, s: State, step: Step)
    requires Inv(s) && Enabled(oui, s, step)
    ensures Inv(Apply(oui, s, step))
  {
    match step
    case Sight(obs, now) => SightKeepsInv(oui, s, obs, now);
    case Count(key, stats, target, now) => CountKeepsInv(s, key, stats, target, now);
    case Persist(m) => PersistKeepsInv(s, m);
    case Restart(restored) => RestartKeepsInv(s.rows, s.alerts, restored);
    case DieSighting(obs, now, stored, restored) =>
      DyingKeepsRows(oui, s, obs, now, stored);
      RestartKeepsInv(RowsAfterDying(s, oui, obs, now, stored), s.alerts, restored);
  }

  lemma {:induction false} RunKeepsInv(oui: Mac -> Option<string>, h: History)
    requires IsRun(oui, h) && Inv(StartOf(h))
    ensures Inv(Now(oui, h))
  {
    if h.Then? {
      RunKeepsInv(oui, h.before);
      StepKeepsInv(oui, Now(oui, h.before), h.step);
    }
  }

  lemma EmptyIsFine()
    ensures Inv(Empty)
  {
  }

  // --- crash and restart ---

  /** A crash at any moment of any run loses no device and no first sighting, and no counter
      comes back larger than it was. */
  lemma CrashLosesNoDevice(oui: Mac -> Option<string>, h: History, restored: Devices)
    requires IsRun(oui, h) && StartOf(h) == Empty
    requires Restores(PARSE, Now(oui, h).rows, restored)
    ensures ComesBack(Now(oui, h).devices, restored)
  {
    var s := Now(oui, h);
    EmptyIsFine();
    RunKeepsInv(oui, h);
    ParseInvertsPrint();
    RestoredTrails(PRINT, PARSE, s.devices, s.rows, restored);
  }

  // --- announcements ---

  /** However often it is seen, and whatever crashes in between, a device is announced as new
      at most once. */
  lemma AnnouncedAtMostOnce(oui: Mac -> Option<string>, h: History, m: Mac)
    requires IsRun(oui, h) && StartOf(h) == Empty
    ensures JoinCount(Now(oui, h).alerts, MacText(m)) <= 1
  {
    EmptyIsFine();
    RunKeepsInv(oui, h);
  }

  /** After dying the process knows what it knew before, and a new device whose row it had stored. */
  lemma KnownAfterDying(oui: Mac -> Option<string>, s: State, obs: Observation, now: int, stored: bool,
                        restored: Devices, m: Mac)
    requires Inv(s) && Enabled(oui, s, DieSighting(obs, now, stored, restored))
    ensures m in restored <==> m in s.devices || (stored && obs.mac == m && m != ZERO_MAC)
  {
    DyingKeepsRows(oui, s, obs, now, stored);
    SightedIsUpdate(s.devices, oui, obs, now);
    RefreshedKeeps(s.devices, oui, obs, now);
    KnownFromRows(RowsAfterDying(s, oui, obs, now, stored), restored, m);
    TextsDiffer(obs.mac, m);
    assert m in s.devices <==> PRINT(m) in s.rows;
  }

  lemma KnownFromRows(rows: Rows, restored: Devices, m: Mac)
    requires (forall k :: k in rows ==> IsKey(PRINT, PARSE, k)) && Restores(PARSE, rows, restored)
    ensures m in restored <==> MacText(m) in rows
  {
    ParseInvertsPrint();
    RestoredRows(PRINT, PARSE, rows, restored);
    assert PRINT(m) == MacText(m);
  }

  lemma KnownAfterRestart(oui: Mac -> Option<string>, s: State, restored: Devices, m: Mac)
    requires Inv(s) && Enabled(oui, s, Restart(restored))
    ensures m in restored <==> m in s.devices
  {
    KnownFromRows(s.rows, restored, m);
    assert m in s.devices <==> PRINT(m) in s.rows;
  }

  /** The process died between storing m, then unknown, and recording its alert. */
  predicate Silenced(oui: Mac -> Option<string>, h: History, m: Mac) {
    && h.Then?
    && (Silences(Now(oui, h.before), h.step, m) || Silenced(oui, h.before, m))
  }

  predicate Silences(s: State, step: Step, m: Mac) {
    step.DieSighting? && step.stored && step.obs.mac == m && m != ZERO_MAC && m !in s.devices
  }

  /** What one step does to what is known and announced of m. */
  lemma AnnouncementStep(oui: Mac -> Option<string>, s: State, step: Step, m: Mac)
    requires Inv(s) && Enabled(oui, s, step)
    ensures
      var t := Apply(oui, s, step);
      var sighted := step.Sight? && step.obs.mac == m && m != ZERO_MAC && m !in s.devices;
      && (m in t.devices <==> m in s.devices || sighted || Silences(s, step, m))
      && JoinCount(t.alerts, MacText(m)) == JoinCount(s.alerts, MacText(m)) + if sighted then 1 else 0
  {
    if step.Restart? {
      KnownAfterRestart(oui, s, step.restored, m);
    } else if step.DieSighting? {
      KnownAfterDying(oui, s, step.obs, step.now, step.stored, step.restored, m);
    } else {
      KnownDevicesStep(oui, s, step, m);
      JoinCountStep(oui, s, step, m);
    }
  }

  /** Once a device is known it stays known and is never announced again. */
  lemma {:induction false} KnownIsNeverAnnounced(oui: Mac -> Option<string>, h: History, m: Mac)
    requires IsRun(oui, h) && Inv(StartOf(h)) && m in StartOf(h).devices
    ensures m in Now(oui, h).devices
    ensures JoinCount(Now(oui, h).alerts, MacText(m)) == JoinCount(StartOf(h).alerts, MacText(m))
  {
    if h.Then? {
      KnownIsNeverAnnounced(oui, h.before, m);
      RunKeepsInv(oui, h.before);
      AnnouncementStep(oui, Now(oui, h.before), h.step, m);
    }
  }

  /** Over every run with any crashes and restarts, the devices announced are exactly the known
      ones that no crash silenced, each once. */
  lemma {:induction false} AnnouncedUnlessSilenced(oui: Mac -> Option<string>, h: History, m: Mac)
    requires IsRun(oui, h) && StartOf(h) == Empty
    ensures Silenced(oui, h, m) ==> m in Now(oui, h).devices
    ensures JoinCount(Now(oui, h).alerts, MacText(m))
         == if m in Now(oui, h).devices && !Silenced(oui, h, m) then 1 else 0
  {
    if h.Then? {
      AnnouncedUnlessSilenced(oui, h.before, m);
      EmptyIsFine();
      RunKeepsInv(oui, h.before);
      AnnouncementStep(oui, Now(oui, h.before), h.step, m);
    }
  }

  /** A crash can always come between the two: whatever rows it leaves can be seeded from. */
  lemma DyingIsEnabled(oui: Mac -> Option<string>, s: State, obs: Observation, now: int, stored: bool)
    returns (restored: Devices)
    ensures Enabled(oui, s, DieSighting(obs, now, stored, restored))
  {
    restored := CanRestore(PARSE, RowsAfterDying(s, oui, obs, now, stored));
  }

  /** After any run it can strike any real device that is still unknown: the device is then
      known, and was never announced. */
  lemma DyingSilences(oui: Mac -> Option<string>, g: History, obs: Observation, now: int) returns (h: History)
    requires IsRun(oui, g) && StartOf(g) == Empty
    requires obs.mac != ZERO_MAC && obs.mac !in Now(oui, g).devices
    ensures h.Then? && h.before == g && IsRun(oui, h) && Silenced(oui, h, obs.mac)
    ensures obs.mac in Now(oui, h).devices && JoinCount(Now(oui, h).alerts, MacText(obs.mac)) == 0
  {
    var restored := DyingIsEnabled(oui, Now(oui, g), obs, now, true);
    h := Then(g, DieSighting(obs, now, true, restored));
    assert Silences(Now(oui, g), h.step, obs.mac);
    AnnouncedUnlessSilenced(oui, h, obs.mac);
  }

  /** The process stays up throughout. */
  predicate Uninterrupted(h: History) {
    h.Then? ==> !h.step.Restart? && !h.step.DieSighting? && Uninterrupted(h.before)
  }

  predicate SightedIn(h: History, m: Mac) {
    h.Then? && ((h.step.Sight? && h.step.obs.mac == m) || SightedIn(h.before, m))
  }

  /** Without a restart, the devices are those of the start and those sighted since. */
  lemma {:induction false} KnownDevices(oui: Mac -> Option<string>, h: History, m: Mac)
    requires Uninterrupted(h) && IsRun(oui, h) && ZERO_MAC !in StartOf(h).devices
    ensures m in Now(oui, h).devices <==> m in StartOf(h).devices || (m != ZERO_MAC && SightedIn(h, m))
  {
    if h.Then? {
      KnownDevices(oui, h.before, m);
      KnownDevicesStep(oui, Now(oui, h.before), h.step, m);
    }
  }

  lemma KnownDevicesStep(oui: Mac -> Option<string>, s: State, step: Step, m: Mac)
    requires !step.Restart? && !step.DieSighting?
    ensures m in Apply(oui, s, step).devices
       <==> m in s.devices || (step.Sight? && step.obs.mac == m && m != ZERO_MAC)
  {
    if step.Sight? {
      SightedIsUpdate(s.devices, oui, step.obs, step.now);
    }
  }

  lemma JoinCountStep(oui: Mac -> Option<string>, s: State, step: Step, m: Mac)
    requires !step.Restart? && !step.DieSighting?
    ensures JoinCount(Apply(oui, s, step).alerts, MacText(m))
         == JoinCount(s.alerts, MacText(m))
          + if step.Sight? && step.obs.mac == m && m != ZERO_MAC && m !in s.devices then 1 else 0
  {
    match step
    case Count(key, stats, target, now) =>
      FlowAlertsAnnounceNobody(s, key, stats, target, now, MacText(m));
    case Sight(obs, now) =>
      if obs.mac != ZERO_MAC && obs.mac !in s.devices {
        var d := Refreshed(s.devices, oui, obs, now);
        SightedIsUpdate(s.devices, oui, obs, now);
        RefreshedKeeps(s.devices, oui, obs, now);
        JoinCountSnoc(s.alerts, JoinAlert(d, now), MacText(m));
        TextsDiffer(obs.mac, m);
      }
    case _ =>
  }

  /** In one uninterrupted run, exactly the devices that were not known at the start and are
      sighted are announced, each exactly once. */
  lemma {:induction false} AnnouncedExactlyOnce(oui: Mac -> Option<string>, h: History, m: Mac)
    requires Uninterrupted(h) && IsRun(oui, h) && ZERO_MAC !in StartOf(h).devices
    ensures JoinCount(Now(oui, h).alerts, MacText(m))
         == JoinCount(StartOf(h).alerts, MacText(m))
          + if m !in StartOf(h).devices && m != ZERO_MAC && SightedIn(h, m) then 1 else 0
  {
    if h.Then? {
      AnnouncedExactlyOnce(oui, h.before, m);
      KnownDevices(oui, h.before, m);
      JoinCountStep(oui, Now(oui, h.before), h.step, m);
    }
  }
}
