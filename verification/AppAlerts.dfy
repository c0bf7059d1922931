/** What the detectors of lanscope/src/anomaly/heuristics.rs report over whole runs of the event
    handler of lanscope/src/app.rs: their traces are the flows the handler counted. */
module AppAlerts {
  import opened Prelude
  import opened NetFmt
  import opened Alerts
  import opened FlowCounters
  import opened PerSource
  import opened App
  import opened AppRuns
  import P = PortScan
  import V = VolumeSpike

  const WINDOW: nat := 10
  const THRESHOLD: nat := 20

  // --- what a run feeds the detectors ---

  function ContactsOf(step: Step): seq<(u32, P.Contact)> {
    if step.Count? then [(step.key.srcIp, P.Contact(step.key.dstPort, step.now))] else []
  }

  function BytesOf(step: Step): seq<(u32, real)> {
    if step.Count? then [(step.key.srcIp, step.stats.bytes as real)] else []
  }

  function Contacts(h: History): seq<(u32, P.Contact)> {
    if h.From? then [] else Contacts(h.before) + ContactsOf(h.step)
  }

  function ByteCounts(h: History): seq<(u32, real)> {
    if h.From? then [] else ByteCounts(h.before) + BytesOf(h.step)
  }

  function OwnContactsOf(step: Step, src: u32): seq<P.Contact> {
    if step.Count? && step.key.srcIp == src then [P.Contact(step.key.dstPort, step.now)] else []
  }

  function OwnBytesOf(step: Step, src: u32): seq<real> {
    if step.Count? && step.key.srcIp == src then [step.stats.bytes as real] else []
  }

  /** One source's flows in a run, as its detector state sees them. */
  function OwnContacts(h: History, src: u32): seq<P.Contact> {
    if h.From? then [] else OwnContacts(h.before, src) + OwnContactsOf(h.step, src)
  }

  function OwnBytes(h: History, src: u32): seq<real> {
    if h.From? then [] else OwnBytes(h.before, src) + OwnBytesOf(h.step, src)
  }

  lemma {:induction false} OwnIgnoresRest<E>(tr: seq<(u32, E)>, x: (u32, E), n: nat, src: u32)
    requires n <= |tr|
    ensures Own(tr + [x], n, src) == Own(tr, n, src)
  {
    if n > 0 {
      OwnIgnoresRest(tr, x, n - 1, src);
    }
  }

  lemma OwnSnoc<E>(tr: seq<(u32, E)>, x: (u32, E), src: u32)
    ensures Own(tr + [x], |tr| + 1, src) == Own(tr, |tr|, src) + if x.0 == src then [x.1] else []
  {
    OwnIgnoresRest(tr, x, |tr|, src);
  }

  lemma {:induction false} OwnOfRun(h: History, src: u32)
    ensures OwnContacts(h, src) == Own(Contacts(h), |Contacts(h)|, src)
    ensures OwnBytes(h, src) == Own(ByteCounts(h), |ByteCounts(h)|, src)
  {
    if h.Then? {
      OwnOfRun(h.before, src);
      if h.step.Count? {
        OwnSnoc(Contacts(h.before), ContactsOf(h.step)[0], src);
        OwnSnoc(ByteCounts(h.before), BytesOf(h.step)[0], src);
      } else {
        assert Contacts(h) == Contacts(h.before) && ByteCounts(h) == ByteCounts(h.before);
      }
    }
  }

  // --- the tables of a run are those of its flows ---

  lemma {:induction false} SeenIgnoresRest(tr: seq<(u32, P.Contact)>, x: (u32, P.Contact), n: nat)
    requires n <= |tr|
    ensures P.Seen(tr + [x], n, WINDOW, THRESHOLD) == P.Seen(tr, n, WINDOW, THRESHOLD)
  {
    if n > 0 {
      SeenIgnoresRest(tr, x, n - 1);
    }
  }

  lemma {:induction false} AveragesIgnoreRest(tr: seq<(u32, real)>, x: (u32, real), n: nat)
    requires n <= |tr|
    ensures V.Averages(tr + [x], n) == V.Averages(tr, n)
  {
    if n > 0 {
      AveragesIgnoreRest(tr, x, n - 1);
    }
  }

  /** The process has just started: no windows, no averages. */
  predicate Unwatched(s: State) {
    s.seen == map[] && s.ewma == map[]
  }

  predicate TablesMatch(s: State, contacts: seq<(u32, P.Contact)>, bytes: seq<(u32, real)>) {
    && s.seen == P.Seen(contacts, |contacts|, WINDOW, THRESHOLD)
    && s.ewma == V.Averages(bytes, |bytes|)
  }

  lemma SeenSnoc(seen: map<u32, P.Scan>, tr: seq<(u32, P.Contact)>, x: (u32, P.Contact))
    requires seen == P.Seen(tr, |tr|, WINDOW, THRESHOLD)
    ensures P.SeenAfter(seen, x.0, x.1, WINDOW, THRESHOLD) == P.Seen(tr + [x], |tr + [x]|, WINDOW, THRESHOLD)
  {
    SeenIgnoresRest(tr, x, |tr|);
  }

  lemma AveragesSnoc(ewma: map<u32, real>, tr: seq<(u32, real)>, src: u32, bytes: u64)
    requires ewma == V.Averages(tr, |tr|)
    ensures
      var longer := tr + [(src, bytes as real)];
      V.EwmaAfter(ewma, src, bytes) == V.Averages(longer, |longer|)
  {
    AveragesIgnoreRest(tr, (src, bytes as real), |tr|);
  }

  /** What a step does to the tables. */
  lemma StepTables(oui: Mac -> Option<string>, s: State, step: Step)
    requires !step.Restart? && !step.DieSighting?
    ensures Apply(oui, s, step).seen
         == if step.Count? then
              P.SeenAfter(s.seen, step.key.srcIp, P.Contact(step.key.dstPort, step.now), WINDOW, THRESHOLD)
            else s.seen
    ensures Apply(oui, s, step).ewma
         == if step.Count? then V.EwmaAfter(s.ewma, step.key.srcIp, step.stats.bytes) else s.ewma
  {
  }

  lemma StepMatches(oui: Mac -> Option<string>, s: State, step: Step,
                    contacts: seq<(u32, P.Contact)>, bytes: seq<(u32, real)>)
    requires TablesMatch(s, contacts, bytes) && !step.Restart? && !step.DieSighting?
    ensures TablesMatch(Apply(oui, s, step), contacts + ContactsOf(step), bytes + BytesOf(step))
  {
    StepTables(oui, s, step);
    if step.Count? {
      SeenSnoc(s.seen, contacts, (step.key.srcIp, P.Contact(step.key.dstPort, step.now)));
      AveragesSnoc(s.ewma, bytes, step.key.srcIp, step.stats.bytes);
    } else {
      assert contacts + [] == contacts && bytes + [] == bytes;
    }
  }

  lemma {:induction false} RunMatches(oui: Mac -> Option<string>, h: History)
    requires Uninterrupted(h) && Unwatched(StartOf(h))
    ensures TablesMatch(Now(oui, h), Contacts(h), ByteCounts(h))
  {
    if h.Then? {
      RunMatches(oui, h.before);
      StepMatches(oui, Now(oui, h.before), h.step, Contacts(h.before), ByteCounts(h.before));
    }
  }

  // --- counting alerts ---

  function ScanOf(src: u32): Finding {
    PortScan(FmtIpv4(src), THRESHOLD, WINDOW)
  }

  predicate IsScan(f: Finding, src: u32) {
    f == ScanOf(src)
  }

  predicate IsSpike(f: Finding, src: u32) {
    f.VolumeSpike? && f.source == FmtIpv4(src)
  }

  function CountAlerts(alerts: seq<Alert>, what: Finding -> bool): nat {
    if alerts == [] then 0
    else
      CountAlerts(alerts[..|alerts| - 1], what) + if what(alerts[|alerts| - 1].finding) then 1 else 0
  }

  function ScanBy(src: u32): Finding -> bool {
    (f: Finding) => IsScan(f, src)
  }

  function SpikeBy(src: u32): Finding -> bool {
    (f: Finding) => IsSpike(f, src)
  }

  lemma {:induction false} CountAppend(a: seq<Alert>, b: seq<Alert>, what: Finding -> bool)
    ensures CountAlerts(a + b, what) == CountAlerts(a, what) + CountAlerts(b, what)
  {
    if b == [] {
      assert a + b == a;
    } else {
      CountAppend(a, b[..|b| - 1], what);
      assert (a + b)[..|a + b| - 1] == a + b[..|b| - 1];
    }
  }

  lemma CountOne(a: Alert, what: Finding -> bool)
    ensures CountAlerts([a], what) == if what(a.finding) then 1 else 0
  {
    assert [a][..0] == [];
  }

  lemma {:induction false} CountedIsThere(alerts: seq<Alert>, what: Finding -> bool)
    requires CountAlerts(alerts, what) > 0
    ensures exists a :: a in alerts && what(a.finding)
  {
    var n := |alerts| - 1;
    if !what(alerts[n].finding) {
      CountedIsThere(alerts[..n], what);
      var a :| a in alerts[..n] && what(a.finding);
      assert a in alerts;
    } else {
      assert alerts[n] in alerts;
    }
  }

  /** The alerts that a source's own contacts raise. */
  function ScanTotal(own: seq<P.Contact>): nat {
    P.AlertCount(own, |own|, WINDOW, THRESHOLD)
  }

  function SpikeHits(own: seq<real>): nat -> bool {
    (i: nat) => i < |own| && V.SpikeAt(own, i)
  }

  function SpikeTotal(own: seq<real>): nat {
    CountTo(SpikeHits(own), |own|)
  }

  lemma ScanTotalSnoc(own: seq<P.Contact>, c: P.Contact)
    ensures ScanTotal(own + [c])
         == ScanTotal(own) + if P.AlertAt(own + [c], |own|, WINDOW, THRESHOLD) then 1 else 0
  {
    var before, after := P.AlertsAt(own, WINDOW, THRESHOLD), P.AlertsAt(own + [c], WINDOW, THRESHOLD);
    forall i: nat | i < |own|
      ensures after(i) == before(i)
    {
      P.AfterIgnoresRest(own, c, i, WINDOW, THRESHOLD);
    }
    CountToSame(after, before, |own|);
  }

  lemma SpikeTotalSnoc(own: seq<real>, x: real)
    ensures SpikeTotal(own + [x]) == SpikeTotal(own) + if V.SpikeAt(own + [x], |own|) then 1 else 0
  {
    forall i: nat | i < |own|
      ensures SpikeHits(own + [x])(i) == SpikeHits(own)(i)
    {
      V.SpikeIgnoresRest(own, [x], i);
    }
    CountToSame(SpikeHits(own + [x]), SpikeHits(own), |own|);
  }

  // --- what one flow adds for one source ---

  lemma ScansOfFlow(seen: map<u32, P.Scan>, contacts: seq<(u32, P.Contact)>, from: u32, c: P.Contact, src: u32)
    requires seen == P.Seen(contacts, |contacts|, WINDOW, THRESHOLD)
    ensures
      var own := Own(contacts, |contacts|, src);
      CountAlerts(P.ScanAlerts(seen, from, c, WINDOW, THRESHOLD), ScanBy(src))
      == if from == src && P.AlertAt(own + [c], |own|, WINDOW, THRESHOLD) then 1 else 0
  {
    var own := Own(contacts, |contacts|, from);
    P.SourcesAreIsolated(contacts, |contacts|, from, WINDOW, THRESHOLD);
    P.AlertOfState(seen, from, own, c, WINDOW, THRESHOLD);
    CountOne(Alert(c.at, None, ScanOf(from)), ScanBy(src));
    if ScanOf(from) == ScanOf(src) {
      FmtIpv4Injective(from, src);
    }
  }

  lemma SpikesOfFlow(ewma: map<u32, real>, counts: seq<(u32, real)>, from: u32, bytes: u64, now: int, src: u32)
    requires ewma == V.Averages(counts, |counts|)
    ensures
      var own := Own(counts, |counts|, src);
      CountAlerts(V.SpikeAlerts(ewma, from, bytes, now), SpikeBy(src))
      == if from == src && V.SpikeAt(own + [bytes as real], |own|) then 1 else 0
  {
    V.AlertsAreIsolated(counts, |counts|, from, bytes, now);
    var own := Own(counts, |counts|, from);
    assert own + [bytes as real] + [] == own + [bytes as real];
    V.SpikeAtExactly(own, bytes as real, []);
    var alerts := V.SpikeAlerts(ewma, from, bytes, now);
    if alerts != [] {
      assert alerts == [alerts[0]];
      CountOne(alerts[0], SpikeBy(src));
      if IsSpike(alerts[0].finding, src) {
        FmtIpv4Injective(from, src);
      }
    }
  }

  /** A flow adds to its source's total what it adds to the alerts, and to no other. */
  lemma ScansTallyFlow(seen: map<u32, P.Scan>, contacts: seq<(u32, P.Contact)>, from: u32, c: P.Contact, src: u32)
    requires seen == P.Seen(contacts, |contacts|, WINDOW, THRESHOLD)
    ensures
      var own := Own(contacts, |contacts|, src);
      ScanTotal(own + if from == src then [c] else [])
      == ScanTotal(own) + CountAlerts(P.ScanAlerts(seen, from, c, WINDOW, THRESHOLD), ScanBy(src))
  {
    var own := Own(contacts, |contacts|, src);
    ScansOfFlow(seen, contacts, from, c, src);
    if from == src {
      ScanTotalSnoc(own, c);
    } else {
      assert own + [] == own;
    }
  }

  lemma SpikesTallyFlow(ewma: map<u32, real>, counts: seq<(u32, real)>, from: u32, bytes: u64, now: int, src: u32)
    requires ewma == V.Averages(counts, |counts|)
    ensures
      var own := Own(counts, |counts|, src);
      SpikeTotal(own + if from == src then [bytes as real] else [])
      == SpikeTotal(own) + CountAlerts(V.SpikeAlerts(ewma, from, bytes, now), SpikeBy(src))
  {
    var own := Own(counts, |counts|, src);
    SpikesOfFlow(ewma, counts, from, bytes, now, src);
    if from == src {
      SpikeTotalSnoc(own, bytes as real);
    } else {
      assert own + [] == own;
    }
  }

  /** A detector's alerts are not the other's. */
  lemma NotMixed(seen: map<u32, P.Scan>, ewma: map<u32, real>, from: u32, c: P.Contact, bytes: u64, now: int, src: u32)
    ensures CountAlerts(P.ScanAlerts(seen, from, c, WINDOW, THRESHOLD), SpikeBy(src)) == 0
    ensures CountAlerts(V.SpikeAlerts(ewma, from, bytes, now), ScanBy(src)) == 0
  {
    var scan, spike := P.ScanAlerts(seen, from, c, WINDOW, THRESHOLD), V.SpikeAlerts(ewma, from, bytes, now);
    if scan != [] {
      assert scan == [scan[0]];
      CountOne(scan[0], SpikeBy(src));
    }
    if spike != [] {
      assert spike == [spike[0]];
      CountOne(spike[0], ScanBy(src));
    }
  }

  // --- what one flow adds, from its source's own flows alone ---

  /** The contact is the one that brings the distinct ports of its window from below 20 to 20. */
  predicate ReachesTwenty(own: seq<P.Contact>, c: P.Contact) {
    var first := P.WindowOf(own + [c], |own|, 10);
    |P.Ports(own + [c], first, |own|)| < 20 <= |P.Ports(own + [c], first, |own| + 1)|
  }

  lemma ScanAlertsExactly(seen: map<u32, P.Scan>, contacts: seq<(u32, P.Contact)>, from: u32, c: P.Contact)
    requires seen == P.Seen(contacts, |contacts|, WINDOW, THRESHOLD)
    ensures P.ScanAlerts(seen, from, c, WINDOW, THRESHOLD)
         == if ReachesTwenty(Own(contacts, |contacts|, from), c)
            then [Alert(c.at, None, PortScan(FmtIpv4(from), 20, 10))] else []
  {
    var own := Own(contacts, |contacts|, from);
    P.SourcesAreIsolated(contacts, |contacts|, from, WINDOW, THRESHOLD);
    P.AlertOfState(seen, from, own, c, WINDOW, THRESHOLD);
    P.ExactWindows(own + [c], |own|, WINDOW, THRESHOLD);
  }

  function Scanned(own: seq<P.Contact>, c: P.Contact, src: u32): seq<Alert> {
    if ReachesTwenty(own, c) then [Alert(c.at, None, PortScan(FmtIpv4(src), 20, 10))] else []
  }

  function Spiked(own: seq<real>, bytes: u64, src: u32, now: int): seq<Alert> {
    if V.AlertsOn(own, bytes as real)
    then [Alert(now, None, VolumeSpike(FmtIpv4(src), bytes as real, V.WeightedSum(own, |own|, |own|)))]
    else []
  }

  lemma CountAppends(s: State, key: FlowKey, stats: FlowStats, target: Option<Mac>, now: int)
    ensures AfterCount(s, key, stats, target, now).alerts
         == s.alerts + P.ScanAlerts(s.seen, key.srcIp, P.Contact(key.dstPort, now), WINDOW, THRESHOLD)
          + V.SpikeAlerts(s.ewma, key.srcIp, stats.bytes, now)
  {
  }

  /** In every uninterrupted run of a fresh process a flow puts on record exactly this: a scan if it
      brings its source's window to 20 ports, and then a spike if its bytes reach the smallest
      alerting count of the weighted sum of the source's flows before it. */
  lemma FlowAlertsExactly(oui: Mac -> Option<string>, h: History, key: FlowKey, stats: FlowStats,
                          target: Option<Mac>, now: int)
    requires Uninterrupted(h) && Unwatched(StartOf(h))
    ensures Now(oui, Then(h, Count(key, stats, target, now))).alerts
         == Now(oui, h).alerts
          + Scanned(OwnContacts(h, key.srcIp), P.Contact(key.dstPort, now), key.srcIp)
          + Spiked(OwnBytes(h, key.srcIp), stats.bytes, key.srcIp, now)
  {
    RunMatches(oui, h);
    OwnOfRun(h, key.srcIp);
    var s := Now(oui, h);
    ScanAlertsExactly(s.seen, Contacts(h), key.srcIp, P.Contact(key.dstPort, now));
    V.AlertsAreIsolated(ByteCounts(h), |ByteCounts(h)|, key.srcIp, stats.bytes, now);
    CountAppends(s, key, stats, target, now);
  }

  // --- what one step adds for one source ---

  /** The alerts a step appends. */
  function NewAlerts(oui: Mac -> Option<string>, s: State, step: Step): seq<Alert>
    requires !step.Restart? && !step.DieSighting?
  {
    match step
    case Sight(obs, now) =>
      if obs.mac == ZERO_MAC || obs.mac in s.devices then []
      else [JoinAlert(Sighted(s.devices, oui, obs, now)[obs.mac], now)]
    case Count(key, stats, _, now) =>
      P.ScanAlerts(s.seen, key.srcIp, P.Contact(key.dstPort, now), WINDOW, THRESHOLD)
      + V.SpikeAlerts(s.ewma, key.srcIp, stats.bytes, now)
    case Persist(_) => []
  }

  lemma StepAppends(oui: Mac -> Option<string>, s: State, step: Step)
    requires !step.Restart? && !step.DieSighting?
    ensures Apply(oui, s, step).alerts == s.alerts + NewAlerts(oui, s, step)
  {
    if step.Count? {
      var scan := P.ScanAlerts(s.seen, step.key.srcIp, P.Contact(step.key.dstPort, step.now), 10, 20);
      var spike := V.SpikeAlerts(s.ewma, step.key.srcIp, step.stats.bytes, step.now);
      assert s.alerts + (scan + spike) == s.alerts + scan + spike;
    } else {
      assert s.alerts + [] == s.alerts;
    }
  }

  lemma QuietStep(oui: Mac -> Option<string>, s: State, step: Step, src: u32)
    requires step.Sight? || step.Persist?
    ensures CountAlerts(NewAlerts(oui, s, step), ScanBy(src)) == 0
    ensures CountAlerts(NewAlerts(oui, s, step), SpikeBy(src)) == 0
  {
    var more := NewAlerts(oui, s, step);
    if more != [] {
      assert more == [more[0]];
      CountOne(more[0], ScanBy(src));
      CountOne(more[0], SpikeBy(src));
    }
  }

  lemma FlowStep(oui: Mac -> Option<string>, s: State, step: Step, src: u32)
    requires step.Count?
    ensures
      var from, c := step.key.srcIp, P.Contact(step.key.dstPort, step.now);
      var scan, spike := P.ScanAlerts(s.seen, from, c, WINDOW, THRESHOLD),
                         V.SpikeAlerts(s.ewma, from, step.stats.bytes, step.now);
      && CountAlerts(NewAlerts(oui, s, step), ScanBy(src)) == CountAlerts(scan, ScanBy(src))
      && CountAlerts(NewAlerts(oui, s, step), SpikeBy(src)) == CountAlerts(spike, SpikeBy(src))
  {
    var from, c := step.key.srcIp, P.Contact(step.key.dstPort, step.now);
    var scan := P.ScanAlerts(s.seen, from, c, WINDOW, THRESHOLD);
    var spike := V.SpikeAlerts(s.ewma, from, step.stats.bytes, step.now);
    CountAppend(scan, spike, ScanBy(src));
    CountAppend(scan, spike, SpikeBy(src));
    NotMixed(s.seen, s.ewma, from, c, step.stats.bytes, step.now, src);
  }

  /** A step adds to the source's total what it adds to the alerts, if its flow does. */
  lemma ScansOfStep(oui: Mac -> Option<string>, s: State, step: Step, src: u32,
                    total: seq<P.Contact> -> nat, own: seq<P.Contact>)
    requires !step.Restart? && !step.DieSighting?
    requires step.Count? ==>
      var from, c := step.key.srcIp, P.Contact(step.key.dstPort, step.now);
      total(own + if from == src then [c] else [])
      == total(own) + CountAlerts(P.ScanAlerts(s.seen, from, c, WINDOW, THRESHOLD), ScanBy(src))
    ensures total(own + OwnContactsOf(step, src))
         == total(own) + CountAlerts(NewAlerts(oui, s, step), ScanBy(src))
  {
    if step.Count? {
      FlowStep(oui, s, step, src);
    } else {
      QuietStep(oui, s, step, src);
      assert own + [] == own;
    }
  }

  lemma SpikesOfStep(oui: Mac -> Option<string>, s: State, step: Step, src: u32,
                     total: seq<real> -> nat, own: seq<real>)
    requires !step.Restart? && !step.DieSighting?
    requires step.Count? ==>
      var from, bytes := step.key.srcIp, step.stats.bytes;
      total(own + if from == src then [bytes as real] else [])
      == total(own) + CountAlerts(V.SpikeAlerts(s.ewma, from, bytes, step.now), SpikeBy(src))
    ensures total(own + OwnBytesOf(step, src))
         == total(own) + CountAlerts(NewAlerts(oui, s, step), SpikeBy(src))
  {
    if step.Count? {
      FlowStep(oui, s, step, src);
    } else {
      QuietStep(oui, s, step, src);
      assert own + [] == own;
    }
  }

  // --- what a run adds for one source ---

  /** Since the start, as many alerts of a kind were recorded as the own flows account for. */
  predicate Tallied<E>(what: Finding -> bool, total: seq<E> -> nat, start: seq<Alert>, alerts: seq<Alert>, own: seq<E>) {
    CountAlerts(alerts, what) == CountAlerts(start, what) + total(own)
  }

  lemma TallyMore<E>(what: Finding -> bool, total: seq<E> -> nat, start: seq<Alert>, alerts: seq<Alert>,
                     more: seq<Alert>, own: seq<E>, mine: seq<E>)
    requires Tallied(what, total, start, alerts, own)
    requires total(own + mine) == total(own) + CountAlerts(more, what)
    ensures Tallied(what, total, start, alerts + more, own + mine)
  {
    CountAppend(alerts, more, what);
  }

  /** In every uninterrupted run of a fresh process, the scan and spike alerts recorded for a
      source are, one for one, those that the detectors raise on the source's own flows. */
  lemma {:induction false} RunTallies(oui: Mac -> Option<string>, h: History, src: u32)
    requires Uninterrupted(h) && Unwatched(StartOf(h))
    ensures Tallied(ScanBy(src), ScanTotal, StartOf(h).alerts, Now(oui, h).alerts, OwnContacts(h, src))
    ensures Tallied(SpikeBy(src), SpikeTotal, StartOf(h).alerts, Now(oui, h).alerts, OwnBytes(h, src))
  {
    if h.Then? {
      var s, start, more := Now(oui, h.before), StartOf(h).alerts, NewAlerts(oui, Now(oui, h.before), h.step);
      RunTallies(oui, h.before, src);
      StepAppends(oui, s, h.step);
      RunMatches(oui, h.before);
      OwnOfRun(h.before, src);
      if h.step.Count? {
        ScansTallyFlow(s.seen, Contacts(h.before), h.step.key.srcIp,
                       P.Contact(h.step.key.dstPort, h.step.now), src);
        SpikesTallyFlow(s.ewma, ByteCounts(h.before), h.step.key.srcIp, h.step.stats.bytes, h.step.now, src);
      }
      ScansOfStep(oui, s, h.step, src, ScanTotal, OwnContacts(h.before, src));
      SpikesOfStep(oui, s, h.step, src, SpikeTotal, OwnBytes(h.before, src));
      TallyMore(ScanBy(src), ScanTotal, start, s.alerts, more,
                OwnContacts(h.before, src), OwnContactsOf(h.step, src));
      TallyMore(SpikeBy(src), SpikeTotal, start, s.alerts, more,
                OwnBytes(h.before, src), OwnBytesOf(h.step, src));
    }
  }

  // --- scans cannot hide, and alerts cannot flood ---

  lemma {:induction false} HitMeansCount(hit: nat -> bool, a: nat, n: nat)
    requires a < n && hit(a)
    ensures CountTo(hit, n) >= 1
  {
    if a < n - 1 {
      HitMeansCount(hit, a, n - 1);
    }
  }

  /** In any such run, 39 distinct ports that a source contacts within ten seconds put an alert
      on disk that names the source and exactly 20 ports. */
  lemma ScanIsReported(oui: Mac -> Option<string>, h: History, src: u32, i: nat, j: nat)
    requires Uninterrupted(h) && Unwatched(StartOf(h))
    requires i <= j < |OwnContacts(h, src)| && P.InOrder(OwnContacts(h, src))
    requires OwnContacts(h, src)[j].at - OwnContacts(h, src)[i].at <= 10
    requires |P.Ports(OwnContacts(h, src), i, j + 1)| >= 39
    ensures CountAlerts(Now(oui, h).alerts, ScanBy(src)) > CountAlerts(StartOf(h).alerts, ScanBy(src))
    ensures exists a :: a in Now(oui, h).alerts && a.finding == PortScan(FmtIpv4(src), 20, 10)
  {
    var own := OwnContacts(h, src);
    P.Completeness(own, i, j, WINDOW, THRESHOLD);
    var a :| P.WindowOf(own, i, WINDOW) <= a <= j && P.AlertAt(own, a, WINDOW, THRESHOLD);
    HitMeansCount(P.AlertsAt(own, WINDOW, THRESHOLD), a, |own|);
    RunTallies(oui, h, src);
    ScanIsThere(Now(oui, h).alerts, src);
  }

  lemma ScanIsThere(alerts: seq<Alert>, src: u32)
    requires CountAlerts(alerts, ScanBy(src)) > 0
    ensures exists a :: a in alerts && a.finding == PortScan(FmtIpv4(src), 20, 10)
  {
    CountedIsThere(alerts, ScanBy(src));
    var a :| a in alerts && ScanBy(src)(a.finding);
  }

  /** In any such run the scan alerts of a source are at most one per eleven seconds and one per
      twenty of its flows. */
  lemma ScansAreBounded(oui: Mac -> Option<string>, h: History, src: u32)
    requires Uninterrupted(h) && Unwatched(StartOf(h))
    requires OwnContacts(h, src) != [] && P.InOrder(OwnContacts(h, src))
    ensures
      var own := OwnContacts(h, src);
      var more := CountAlerts(Now(oui, h).alerts, ScanBy(src)) - CountAlerts(StartOf(h).alerts, ScanBy(src));
      more <= 1 + (own[|own| - 1].at - own[0].at) / 11 && more * 20 <= |own|
  {
    RunTallies(oui, h, src);
    P.RateBounds(OwnContacts(h, src), WINDOW, THRESHOLD);
  }
}
