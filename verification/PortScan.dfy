/** The port-scan detector of lanscope/src/anomaly/heuristics.rs: distinct destination ports
    per source over tumbling windows. Time is a parameter, as in the source. */
module PortScan {
  import opened Prelude
  import opened NetFmt
  import opened Alerts
  import opened PerSource

  datatype Scan = Scan(windowStart: int, ports: set<u16>, alerted: bool)

  /** What the detector sees of one flow of a source. */
  datatype Contact = Contact(port: u16, at: int)

  /** The source's window after its next contact: opened, rolled forward or kept. */
  function Touched(s: Option<Scan>, c: Contact, window: nat, threshold: nat): Scan {
    var open :=
      if s.None? || c.at - s.value.windowStart > window then Scan(c.at, {}, false) else s.value;
    var ports := open.ports + {c.port};
    Scan(open.windowStart, ports, open.alerted || |ports| >= threshold)
  }

  predicate Fires(s: Option<Scan>, c: Contact, window: nat, threshold: nat) {
    var open := s.Some? && c.at - s.value.windowStart <= window;
    Touched(s, c, window, threshold).alerted && !(open && s.value.alerted)
  }

  class PortScanDetector {
    var seen: map<u32, Scan>
    const windowSecs: nat
    const threshold: nat

    constructor ()
      ensures seen == map[] && windowSecs == 10 && threshold == 20
    {
      seen := map[];
      windowSecs := 10;
      threshold := 20;
    }

    method OnFlow(srcIp: u32, dstPort: u16, now: int) returns (alerts: seq<Alert>)
      modifies this`seen
      ensures seen == SeenAfter(old(seen), srcIp, Contact(dstPort, now), windowSecs, threshold)
      ensures alerts == ScanAlerts(old(seen), srcIp, Contact(dstPort, now), windowSecs, threshold)
    {
      var state := if srcIp in seen then seen[srcIp] else Scan(now, {}, false);
      if now - state.windowStart > windowSecs {
        state := Scan(now, {}, false);
      }
      state := state.(ports := state.ports + {dstPort});
      if |state.ports| >= threshold && !state.alerted {
        state := state.(alerted := true);
        seen := seen[srcIp := state];
        return [Alert(now, None, PortScan(FmtIpv4(srcIp), |state.ports|, windowSecs))];
      }
      seen := seen[srcIp := state];
      return [];
    }
  }

  function SeenAfter(seen: map<u32, Scan>, srcIp: u32, c: Contact, window: nat, threshold: nat): map<u32, Scan> {
    seen[srcIp := Touched(Get(seen, srcIp), c, window, threshold)]
  }

  function ScanAlerts(seen: map<u32, Scan>, srcIp: u32, c: Contact, window: nat, threshold: nat): seq<Alert> {
    if Fires(Get(seen, srcIp), c, window, threshold) then
      var ports := Touched(Get(seen, srcIp), c, window, threshold).ports;
      [Alert(c.at, None, PortScan(FmtIpv4(srcIp), |ports|, window))]
    else []
  }

  // --- one source's trace ---

  /** The source's window after its first n contacts. */
  function After(tr: seq<Contact>, n: nat, window: nat, threshold: nat): Option<Scan>
    requires n <= |tr|
  {
    if n == 0 then None else Some(Touched(After(tr, n - 1, window, threshold), tr[n - 1], window, threshold))
  }

  predicate AlertAt(tr: seq<Contact>, i: nat, window: nat, threshold: nat)
    requires i < |tr|
  {
    Fires(After(tr, i, window, threshold), tr[i], window, threshold)
  }

  /** The index of the contact that opened the window contact i falls in. */
  function WindowOf(tr: seq<Contact>, i: nat, window: nat): (first: nat)
    requires i < |tr|
    ensures first <= i
    ensures first < i ==> tr[i].at - tr[first].at <= window
  {
    if i == 0 then 0
    else
      var first := WindowOf(tr, i - 1, window);
      if tr[i].at - tr[first].at > window then i else first
  }

  /** The distinct ports of contacts from .. to - 1. */
  function Ports(tr: seq<Contact>, from: nat, to: nat): set<u16>
    requires from <= to <= |tr|
  {
    if from == to then {} else Ports(tr, from, to - 1) + {tr[to - 1].port}
  }

  /** The detector's state, in terms of the trace alone. */
  function WindowState(tr: seq<Contact>, i: nat, window: nat, threshold: nat): Scan
    requires i < |tr|
  {
    var first := WindowOf(tr, i, window);
    var ports := Ports(tr, first, i + 1);
    Scan(tr[first].at, ports, |ports| >= threshold)
  }

  lemma KeptWindow(s: Scan, c: Contact, window: nat, threshold: nat)
    requires c.at - s.windowStart <= window && (s.alerted <==> |s.ports| >= threshold)
    ensures
      var ports := s.ports + {c.port};
      Touched(Some(s), c, window, threshold) == Scan(s.windowStart, ports, |ports| >= threshold)
  {
    GrowsByOne(s.ports, c.port);
  }

  lemma OpenedWindow(s: Option<Scan>, c: Contact, window: nat, threshold: nat)
    requires s.None? || c.at - s.value.windowStart > window
    ensures Touched(s, c, window, threshold) == Scan(c.at, {} + {c.port}, |{} + {c.port}| >= threshold)
  {
  }

  lemma StateStep(tr: seq<Contact>, i: nat, s: Option<Scan>, window: nat, threshold: nat)
    requires i < |tr| && threshold >= 1
    requires s == if i == 0 then None else Some(WindowState(tr, i - 1, window, threshold))
    ensures Touched(s, tr[i], window, threshold) == WindowState(tr, i, window, threshold)
  {
    var first := WindowOf(tr, i, window);
    assert Ports(tr, first, i + 1) == Ports(tr, first, i) + {tr[i].port};
    if first < i {
      assert Ports(tr, first, i) == s.value.ports;
      KeptWindow(s.value, tr[i], window, threshold);
    } else {
      assert Ports(tr, i, i) == {};
      OpenedWindow(s, tr[i], window, threshold);
    }
  }

  lemma {:induction false} StateIsWindow(tr: seq<Contact>, i: nat, window: nat, threshold: nat)
    requires i < |tr| && threshold >= 1
    ensures After(tr, i + 1, window, threshold) == Some(WindowState(tr, i, window, threshold))
  {
    if i > 0 {
      StateIsWindow(tr, i - 1, window, threshold);
    } else {
      assert After(tr, 0, window, threshold) == None;
    }
    StateStep(tr, i, After(tr, i, window, threshold), window, threshold);
  }

  lemma GrowsByOne(ports: set<u16>, p: u16)
    ensures |ports| <= |ports + {p}| <= |ports| + 1
    ensures p in ports ==> ports + {p} == ports
  {
    if p in ports {
      assert ports + {p} == ports;
    }
  }

  /** The detector fires at a contact exactly when that contact makes its window reach the
      threshold, and it then reports exactly threshold ports. */
  lemma ExactWindows(tr: seq<Contact>, i: nat, window: nat, threshold: nat)
    requires i < |tr| && threshold >= 1
    ensures
      var first := WindowOf(tr, i, window);
      var before, ports := Ports(tr, first, i), Ports(tr, first, i + 1);
      && After(tr, i + 1, window, threshold) == Some(Scan(tr[first].at, ports, |ports| >= threshold))
      && (AlertAt(tr, i, window, threshold) <==> |before| < threshold <= |ports|)
      && (AlertAt(tr, i, window, threshold) ==> |ports| == threshold)
  {
    StateIsWindow(tr, i, window, threshold);
    if i > 0 {
      StateIsWindow(tr, i - 1, window, threshold);
    }
    GrowsByOne(Ports(tr, WindowOf(tr, i, window), i), tr[i].port);
  }

  // --- the two sides of the alarm rate ---

  function AlertsAt(tr: seq<Contact>, window: nat, threshold: nat): nat -> bool {
    (i: nat) => i < |tr| && AlertAt(tr, i, window, threshold)
  }

  /** The alerts among the first n contacts. */
  function AlertCount(tr: seq<Contact>, n: nat, window: nat, threshold: nat): nat
    requires n <= |tr|
  {
    CountTo(AlertsAt(tr, window, threshold), n)
  }

  predicate InOrder(tr: seq<Contact>) {
    forall i, j :: 0 <= i < j < |tr| ==> tr[i].at <= tr[j].at
  }

  /** Alerts are at least a window apart, and each costs threshold flows. */
  lemma RateBounds(tr: seq<Contact>, window: nat, threshold: nat)
    requires tr != [] && threshold >= 1 && InOrder(tr)
    ensures AlertCount(tr, |tr|, window, threshold) <= 1 + (tr[|tr| - 1].at - tr[0].at) / (window + 1)
    ensures AlertCount(tr, |tr|, window, threshold) * threshold <= |tr|
  {
    var last := |tr| - 1;
    WindowsApart(tr, |tr|, window, threshold);
    EachAlertCostsContacts(tr, |tr|, window, threshold);
    assert tr[0].at <= tr[last].at;
    assert tr[WindowOf(tr, last, window)].at <= tr[last].at;
    AlertsInSpan(AlertCount(tr, |tr|, window, threshold), Elapsed(tr, |tr|, window, threshold),
                 window + 1, tr[last].at - tr[0].at);
  }

  lemma AlertsInSpan(n: nat, left: int, d: nat, span: nat)
    requires d > 0 && n - 1 <= left && left * d <= span
    ensures n <= 1 + span / d
  {
    if n > 0 {
      TimesMonotone(n - 1, left, d);
      MultipleBelow(n - 1, d, span);
    }
  }

  lemma TimesMonotone(a: int, b: int, d: nat)
    requires a <= b
    ensures a * d <= b * d
  {
  }

  lemma MultipleBelow(n: nat, d: nat, x: int)
    requires d > 0 && n * d <= x
    ensures n <= x / d
  {
    var q := x / d;
    assert x == q * d + x % d;
    OneMoreTimes(q, d);
    if q < n {
      TimesMonotone(q + 1, n, d);
      assert false;
    }
  }

  /** The alerts so far, not counting one in the window still open. */
  function Elapsed(tr: seq<Contact>, n: nat, window: nat, threshold: nat): int
    requires 0 < n <= |tr|
  {
    AlertCount(tr, n, window, threshold) - if WindowState(tr, n - 1, window, threshold).alerted then 1 else 0
  }

  lemma ElapsedStep(tr: seq<Contact>, n: nat, window: nat, threshold: nat)
    requires 1 < n <= |tr| && threshold >= 1
    ensures
      var start, start' := tr[WindowOf(tr, n - 2, window)].at, tr[WindowOf(tr, n - 1, window)].at;
      var left, left' := Elapsed(tr, n - 1, window, threshold), Elapsed(tr, n, window, threshold);
      (left' == left && start' >= start) || (left' == left + 1 && start' >= start + window + 1)
  {
    var prev, cur := WindowState(tr, n - 2, window, threshold), WindowState(tr, n - 1, window, threshold);
    ExactWindows(tr, n - 1, window, threshold);
    assert AlertCount(tr, n, window, threshold)
        == AlertCount(tr, n - 1, window, threshold) + if AlertAt(tr, n - 1, window, threshold) then 1 else 0;
    if WindowOf(tr, n - 1, window) < n - 1 {
      assert Ports(tr, WindowOf(tr, n - 1, window), n - 1) == prev.ports;
      GrowsByOne(prev.ports, tr[n - 1].port);
    } else {
      assert Ports(tr, n - 1, n - 1) == {};
    }
  }

  lemma FirstWindow(tr: seq<Contact>, window: nat, threshold: nat)
    requires tr != [] && threshold >= 1
    ensures Elapsed(tr, 1, window, threshold) == 0
  {
    ExactWindows(tr, 0, window, threshold);
    assert AlertCount(tr, 0, window, threshold) == 0;
  }

  /** Each alert but the last lies in a window that was left more than `window` seconds later. */
  lemma {:induction false} WindowsApart(tr: seq<Contact>, n: nat, window: nat, threshold: nat)
    requires 0 < n <= |tr| && threshold >= 1
    ensures Elapsed(tr, n, window, threshold) * (window + 1) <= tr[WindowOf(tr, n - 1, window)].at - tr[0].at
  {
    if n == 1 {
      FirstWindow(tr, window, threshold);
    } else {
      WindowsApart(tr, n - 1, window, threshold);
      ElapsedStep(tr, n, window, threshold);
      OneWindowMore(Elapsed(tr, n - 1, window, threshold), Elapsed(tr, n, window, threshold), window + 1,
                    tr[WindowOf(tr, n - 2, window)].at, tr[WindowOf(tr, n - 1, window)].at, tr[0].at);
    }
  }

  lemma OneWindowMore(left: int, left': int, d: nat, start: int, start': int, origin: int)
    requires left * d <= start - origin
    requires (left' == left && start' >= start) || (left' == left + 1 && start' >= start + d)
    ensures left' * d <= start' - origin
  {
    OneMoreTimes(left, d);
  }

  lemma OneMoreTimes(k: int, d: int)
    ensures (k + 1) * d == k * d + d
  {
  }

  /** Distinct ports of the open window that have not yet been paid into an alert. */
  function Unspent(tr: seq<Contact>, n: nat, window: nat, threshold: nat): nat
    requires 0 < n <= |tr|
  {
    var state := WindowState(tr, n - 1, window, threshold);
    if state.alerted then 0 else |state.ports|
  }

  /** Contact i takes its window from below the threshold to it. */
  predicate Crosses(tr: seq<Contact>, i: nat, window: nat, threshold: nat)
    requires i < |tr|
  {
    var first := WindowOf(tr, i, window);
    |Ports(tr, first, i)| < threshold <= |Ports(tr, first, i + 1)|
  }

  function Crossings(tr: seq<Contact>, window: nat, threshold: nat): nat -> bool {
    (i: nat) => i < |tr| && Crosses(tr, i, window, threshold)
  }

  lemma AlertsAreCrossings(tr: seq<Contact>, n: nat, window: nat, threshold: nat)
    requires n <= |tr| && threshold >= 1
    ensures AlertCount(tr, n, window, threshold) == CountTo(Crossings(tr, window, threshold), n)
  {
    forall i: nat | i < n
      ensures AlertsAt(tr, window, threshold)(i) == Crossings(tr, window, threshold)(i)
    {
      ExactWindows(tr, i, window, threshold);
    }
    CountToSame(AlertsAt(tr, window, threshold), Crossings(tr, window, threshold), n);
  }

  lemma UnspentStep(tr: seq<Contact>, n: nat, window: nat, threshold: nat)
    requires 1 < n <= |tr| && threshold >= 1
    ensures
      (if Crosses(tr, n - 1, window, threshold) then threshold else 0) + Unspent(tr, n, window, threshold)
      <= Unspent(tr, n - 1, window, threshold) + 1
  {
    var first := WindowOf(tr, n - 1, window);
    GrowsByOne(Ports(tr, first, n - 1), tr[n - 1].port);
    if first == n - 1 {
      assert Ports(tr, n - 1, n - 1) == {};
    }
  }

  lemma UnspentFirst(tr: seq<Contact>, window: nat, threshold: nat)
    requires tr != [] && threshold >= 1
    ensures (if Crosses(tr, 0, window, threshold) then threshold else 0) + Unspent(tr, 1, window, threshold) <= 1
  {
    assert Ports(tr, 0, 1) == {tr[0].port} by {
      assert Ports(tr, 0, 0) == {};
    }
  }

  function Savings(tr: seq<Contact>, window: nat, threshold: nat): nat -> nat {
    (n: nat) => if 0 < n <= |tr| then Unspent(tr, n, window, threshold) else 0
  }

  /** Step i saves at most one, and a hit uses up threshold savings. */
  predicate Pays(hit: nat -> bool, savings: nat -> nat, threshold: nat, i: nat) {
    (if hit(i) then threshold else 0) + savings(i + 1) <= savings(i) + 1
  }

  lemma ContactPays(tr: seq<Contact>, i: nat, window: nat, threshold: nat)
    requires i < |tr| && threshold >= 1
    ensures Pays(Crossings(tr, window, threshold), Savings(tr, window, threshold), threshold, i)
  {
    if i == 0 {
      UnspentFirst(tr, window, threshold);
    } else {
      UnspentStep(tr, i + 1, window, threshold);
    }
  }

  lemma {:induction false} HitsCost(hit: nat -> bool, savings: nat -> nat, threshold: nat, n: nat)
    requires savings(0) == 0 && forall i: nat :: i < n ==> Pays(hit, savings, threshold, i)
    ensures CountTo(hit, n) * threshold + savings(n) <= n
  {
    if n > 0 {
      HitsCost(hit, savings, threshold, n - 1);
      assert Pays(hit, savings, threshold, n - 1);
      OneMoreTimes(CountTo(hit, n - 1), threshold);
    }
  }

  lemma EachAlertCostsContacts(tr: seq<Contact>, n: nat, window: nat, threshold: nat)
    requires n <= |tr| && threshold >= 1
    ensures AlertCount(tr, n, window, threshold) * threshold <= n
  {
    var hit, savings := Crossings(tr, window, threshold), Savings(tr, window, threshold);
    AlertsAreCrossings(tr, n, window, threshold);
    forall i: nat | i < n
      ensures Pays(hit, savings, threshold, i)
    {
      ContactPays(tr, i, window, threshold);
    }
    HitsCost(hit, savings, threshold, n);
  }

  // --- completeness ---

  /** A scan of 2 * threshold - 1 distinct ports within any stretch of `window` seconds is
      always caught, wherever the tumbling windows happen to start: an alert falls in one of
      the (at most two) windows that meet the stretch. */
  lemma Completeness(tr: seq<Contact>, i: nat, j: nat, window: nat, threshold: nat)
    requires i <= j < |tr| && threshold >= 1 && InOrder(tr)
    requires tr[j].at - tr[i].at <= window
    requires |Ports(tr, i, j + 1)| >= 2 * threshold - 1
    ensures exists a :: WindowOf(tr, i, window) <= a <= j && AlertAt(tr, a, window, threshold)
  {
    WithinSpan(tr, i, j, window);
    var split := OneRollAtMost(tr, i, j, window);
    var a := AlertInStretch(tr, i, j, split, window, threshold);
  }

  lemma WithinSpan(tr: seq<Contact>, i: nat, j: nat, window: nat)
    requires i <= j < |tr| && InOrder(tr) && tr[j].at - tr[i].at <= window
    ensures forall k :: i <= k <= j ==> tr[i].at <= tr[k].at <= tr[i].at + window
  {
    forall k | i <= k <= j
      ensures tr[i].at <= tr[k].at <= tr[i].at + window
    {
      assert k > i ==> tr[i].at <= tr[k].at;
      assert k < j ==> tr[k].at <= tr[j].at;
    }
  }

  lemma AlertInStretch(tr: seq<Contact>, i: nat, j: nat, split: nat, window: nat, threshold: nat) returns (a: nat)
    requires i <= split <= j < |tr| && threshold >= 1
    requires WindowOf(tr, j, window) <= split
    requires split > i ==> WindowOf(tr, split - 1, window) <= i
    requires |Ports(tr, i, j + 1)| >= 2 * threshold - 1
    ensures a <= j && AlertAt(tr, a, window, threshold)
    ensures a >= WindowOf(tr, j, window) || (split > i && a >= WindowOf(tr, split - 1, window))
  {
    PortsSplit(tr, i, split, j + 1);
    var early, late := Ports(tr, i, split), Ports(tr, split, j + 1);
    UnionSize(early, late);
    if |late| >= threshold {
      a := CrowdedStretch(tr, split, j, window, threshold);
    } else {
      a := CrowdedStretch(tr, i, split - 1, window, threshold);
    }
  }

  lemma CrowdedStretch(tr: seq<Contact>, from: nat, to: nat, window: nat, threshold: nat) returns (a: nat)
    requires from <= to < |tr| && threshold >= 1
    requires WindowOf(tr, to, window) <= from
    requires |Ports(tr, from, to + 1)| >= threshold
    ensures WindowOf(tr, to, window) <= a <= to && AlertAt(tr, a, window, threshold)
  {
    var first := WindowOf(tr, to, window);
    PortsSplit(tr, first, from, to + 1);
    SubsetSize(Ports(tr, from, to + 1), Ports(tr, first, to + 1));
    a := FindAlert(tr, to, window, threshold);
  }

  lemma {:induction false} PortsSplit(tr: seq<Contact>, a: nat, b: nat, c: nat)
    requires a <= b <= c <= |tr|
    ensures Ports(tr, a, c) == Ports(tr, a, b) + Ports(tr, b, c)
  {
    if b < c {
      PortsSplit(tr, a, b, c - 1);
    }
  }

  /** Between contacts at most `window` seconds apart the window rolls at most once: from
      `split` on, all contacts share j's window; before it, all share i's. */
  lemma {:induction false} OneRollAtMost(tr: seq<Contact>, i: nat, j: nat, window: nat) returns (split: nat)
    requires i <= j < |tr|
    requires forall k :: i <= k <= j ==> tr[i].at <= tr[k].at <= tr[i].at + window
    ensures i <= split <= j
    ensures split > i ==> WindowOf(tr, j, window) == split && WindowOf(tr, split - 1, window) == WindowOf(tr, i, window)
    ensures split == i ==> WindowOf(tr, j, window) == WindowOf(tr, i, window)
  {
    if i == j {
      split := i;
    } else {
      split := OneRollAtMost(tr, i, j - 1, window);
      if split > i {
        assert WindowOf(tr, j, window) == split;
      } else if WindowOf(tr, j, window) == j {
        split := j;
      }
    }
  }

  /** A window whose contacts up to i reach the threshold has alerted by then. */
  lemma {:induction false} FindAlert(tr: seq<Contact>, i: nat, window: nat, threshold: nat) returns (a: nat)
    requires i < |tr| && threshold >= 1
    requires |Ports(tr, WindowOf(tr, i, window), i + 1)| >= threshold
    ensures WindowOf(tr, i, window) <= a <= i && AlertAt(tr, a, window, threshold)
  {
    ExactWindows(tr, i, window, threshold);
    if |Ports(tr, WindowOf(tr, i, window), i)| < threshold {
      a := i;
    } else {
      a := FindAlert(tr, i - 1, window, threshold);
    }
  }

  lemma {:induction false} SubsetSize(a: set<u16>, b: set<u16>)
    requires a <= b
    ensures |a| <= |b|
  {
    if a != {} {
      var x :| x in a;
      SubsetSize(a - {x}, b - {x});
    }
  }

  lemma UnionSize(a: set<u16>, b: set<u16>)
    ensures |a + b| <= |a| + |b|
  {
    assert |a + b| == |a| + |b| - |a * b|;
  }

  // --- the bound is the best possible ---

  /** One contact opens a window; threshold - 1 ports follow at its very end, and as many new
      ones a second later, when the window has just rolled. */
  function Straddling(window: nat, threshold: nat): (tr: seq<Contact>)
    requires window >= 1 && 2 <= threshold <= 0x8001
    ensures |tr| == 2 * threshold - 1
  {
    seq(2 * threshold - 1, k requires 0 <= k < 2 * threshold - 1 =>
      if k == 0 then Contact(0, 0) else Contact(k - 1, if k < threshold then window else window + 1))
  }

  lemma {:induction false} StraddlingPorts(window: nat, threshold: nat, from: nat, to: nat)
    requires window >= 1 && 2 <= threshold <= 0x8001
    requires 1 <= from <= to < 2 * threshold
    ensures
      var ports := Ports(Straddling(window, threshold), from, to);
      && |ports| == to - from
      && (forall p :: p in ports ==> from - 1 <= p < to - 1)
  {
    if from < to {
      StraddlingPorts(window, threshold, from, to - 1);
    }
  }

  lemma {:induction false} StraddlingWindows(window: nat, threshold: nat, i: nat)
    requires window >= 1 && 2 <= threshold <= 0x8001
    requires i < 2 * threshold - 1
    ensures WindowOf(Straddling(window, threshold), i, window) == if i < threshold then 0 else threshold
  {
    if i > 0 {
      StraddlingWindows(window, threshold, i - 1);
    }
  }

  /** One distinct port fewer can stay unnoticed: 2 * threshold - 2 of them within two
      consecutive seconds, and no alert at all. */
  lemma CompletenessIsTight(window: nat, threshold: nat)
    requires window >= 1 && 2 <= threshold <= 0x8001
    ensures
      var tr := Straddling(window, threshold);
      && InOrder(tr)
      && tr[|tr| - 1].at - tr[1].at <= window
      && |Ports(tr, 1, |tr|)| == 2 * threshold - 2
      && (forall i :: 0 <= i < |tr| ==> !AlertAt(tr, i, window, threshold))
  {
    var tr := Straddling(window, threshold);
    StraddlingPorts(window, threshold, 1, |tr|);
    forall i | 0 <= i < |tr|
      ensures !AlertAt(tr, i, window, threshold)
    {
      StraddlingIsQuiet(window, threshold, i);
    }
  }

  lemma StraddlingIsQuiet(window: nat, threshold: nat, i: nat)
    requires window >= 1 && 2 <= threshold <= 0x8001 && i < 2 * threshold - 1
    ensures !AlertAt(Straddling(window, threshold), i, window, threshold)
  {
    ExactWindows(Straddling(window, threshold), i, window, threshold);
    StraddlingWindows(window, threshold, i);
    if i < threshold {
      QuietFirstWindow(window, threshold, i);
    } else {
      StraddlingPorts(window, threshold, threshold, i + 1);
    }
  }

  lemma QuietFirstWindow(window: nat, threshold: nat, i: nat)
    requires window >= 1 && 2 <= threshold <= 0x8001 && i < threshold
    ensures |Ports(Straddling(window, threshold), 0, i + 1)| < threshold
  {
    var tr := Straddling(window, threshold);
    PortsSplit(tr, 0, 1, i + 1);
    StraddlingPorts(window, threshold, 1, i + 1);
    assert Ports(tr, 0, 1) == {0} by {
      assert Ports(tr, 0, 0) == {};
    }
    if i >= 1 {
      PortsSplit(tr, 1, 2, i + 1);
      assert Ports(tr, 1, 2) == {0} by {
        assert Ports(tr, 1, 1) == {};
      }
      assert Ports(tr, 0, i + 1) == Ports(tr, 1, i + 1);
    }
  }

  /** Only a window of no seconds does better: any threshold distinct ports within one second
      are caught. */
  lemma ZeroWindowIsSharp(tr: seq<Contact>, i: nat, j: nat, threshold: nat)
    requires i <= j < |tr| && threshold >= 1 && InOrder(tr)
    requires tr[i].at == tr[j].at && |Ports(tr, i, j + 1)| >= threshold
    ensures exists a :: 0 <= a <= j && AlertAt(tr, a, 0, threshold)
  {
    OneSecondOneWindow(tr, i, j);
    var a := CrowdedStretch(tr, i, j, 0, threshold);
  }

  lemma {:induction false} OneSecondOneWindow(tr: seq<Contact>, i: nat, j: nat)
    requires i <= j < |tr| && InOrder(tr) && tr[i].at == tr[j].at
    ensures WindowOf(tr, j, 0) == WindowOf(tr, i, 0)
  {
    if i < j {
      assert tr[i].at <= tr[j - 1].at;
      OneSecondOneWindow(tr, i, j - 1);
      var first := WindowOf(tr, i, 0);
      assert first < i ==> tr[first].at <= tr[i].at;
    }
  }

  // --- sources do not interfere ---

  function StepOf(window: nat, threshold: nat): (Option<Scan>, Contact) -> Scan {
    (s, c) => Touched(s, c, window, threshold)
  }

  lemma {:induction false} AloneIsAfter(own: seq<Contact>, n: nat, window: nat, threshold: nat)
    requires n <= |own|
    ensures Alone(StepOf(window, threshold), own[..n]) == After(own, n, window, threshold)
  {
    if n > 0 {
      AloneIsAfter(own, n - 1, window, threshold);
      assert own[..n][..n - 1] == own[..n - 1];
    }
  }

  /** The detector's table over an interleaved trace, as `OnFlow` maintains it. */
  function Seen(tr: seq<(u32, Contact)>, n: nat, window: nat, threshold: nat): map<u32, Scan>
    requires n <= |tr|
  {
    if n == 0 then map[]
    else SeenAfter(Seen(tr, n - 1, window, threshold), tr[n - 1].0, tr[n - 1].1, window, threshold)
  }

  lemma {:induction false} SeenIsTable(tr: seq<(u32, Contact)>, n: nat, window: nat, threshold: nat)
    requires n <= |tr|
    ensures Seen(tr, n, window, threshold) == Table(StepOf(window, threshold), tr, n)
  {
    if n > 0 {
      SeenIsTable(tr, n - 1, window, threshold);
    }
  }

  /** A source's window is what the detector would have computed from its flows alone. */
  lemma SourcesAreIsolated(tr: seq<(u32, Contact)>, n: nat, srcIp: u32, window: nat, threshold: nat)
    requires n <= |tr|
    ensures
      var own := Own(tr, n, srcIp);
      Get(Seen(tr, n, window, threshold), srcIp) == After(own, |own|, window, threshold)
  {
    var own := Own(tr, n, srcIp);
    SeenIsTable(tr, n, window, threshold);
    Isolated(StepOf(window, threshold), tr, n, srcIp);
    AloneIsAfter(own, |own|, window, threshold);
    assert own[..|own|] == own;
  }

  lemma {:induction false} AfterIgnoresRest(a: seq<Contact>, c: Contact, n: nat, window: nat, threshold: nat)
    requires n <= |a|
    ensures After(a + [c], n, window, threshold) == After(a, n, window, threshold)
  {
    if n > 0 {
      AfterIgnoresRest(a, c, n - 1, window, threshold);
    }
  }

  /** And so is each of its alerts: it names the source and exactly threshold ports. */
  lemma AlertsAreIsolated(tr: seq<(u32, Contact)>, n: nat, window: nat, threshold: nat)
    requires n < |tr| && threshold >= 1
    ensures
      var (srcIp, c) := tr[n];
      var own := Own(tr, n, srcIp) + [c];
      ScanAlerts(Seen(tr, n, window, threshold), srcIp, c, window, threshold)
      == if AlertAt(own, |own| - 1, window, threshold)
         then [Alert(c.at, None, PortScan(FmtIpv4(srcIp), threshold, window))]
         else []
  {
    var (srcIp, c) := tr[n];
    var before := Own(tr, n, srcIp);
    SourcesAreIsolated(tr, n, srcIp, window, threshold);
    AlertOfState(Seen(tr, n, window, threshold), srcIp, before, c, window, threshold);
  }

  lemma AlertOfState(seen: map<u32, Scan>, srcIp: u32, before: seq<Contact>, c: Contact, window: nat, threshold: nat)
    requires threshold >= 1
    requires Get(seen, srcIp) == After(before, |before|, window, threshold)
    ensures
      ScanAlerts(seen, srcIp, c, window, threshold)
      == if AlertAt(before + [c], |before|, window, threshold)
         then [Alert(c.at, None, PortScan(FmtIpv4(srcIp), threshold, window))]
         else []
  {
    AfterIgnoresRest(before, c, |before|, window, threshold);
    ExactWindows(before + [c], |before|, window, threshold);
  }
}
