/** The volume-spike detector of lanscope/src/anomaly/heuristics.rs: an exponentially
    weighted moving average of byte counts per source. Floating point is modelled by `real`. */
module VolumeSpike {
  import opened Prelude
  import opened NetFmt
  import opened Alerts
  import opened PerSource

  const ALPHA: real := 0.3
  const SPIKE_FACTOR: real := 5.0
  const FLOOR_BYTES: real := 1_000_000.0

  class VolumeSpikeDetector {
    var ewma: map<u32, real>

    constructor ()
      ensures ewma == map[]
    {
      ewma := map[];
    }

    method OnFlow(srcIp: u32, flowBytes: u64, now: int) returns (alerts: seq<Alert>)
      modifies this
      ensures ewma == EwmaAfter(old(ewma), srcIp, flowBytes)
      ensures alerts == SpikeAlerts(old(ewma), srcIp, flowBytes, now)
    {
      var bytes := flowBytes as real;
      var avg := if srcIp in ewma then Some(ewma[srcIp]) else None;
      var newAvg := bytes;
      if avg.Some? {
        newAvg := 0.3 * bytes + (1.0 - 0.3) * avg.value;
      }
      ewma := ewma[srcIp := newAvg];
      if avg.Some? {
        var a := avg.value;
        if bytes > 1_000_000.0 && a > 0.0 && bytes > 5.0 * a {
          return [Alert(now, None, VolumeSpike(FmtIpv4(srcIp), bytes, a))];
        }
      }
      return [];
    }
  }

  function Updated(avg: Option<real>, bytes: real): real {
    match avg
    case Some(a) => ALPHA * bytes + (1.0 - ALPHA) * a
    case None => bytes
  }

  predicate Spikes(avg: Option<real>, bytes: real) {
    avg.Some? && bytes > FLOOR_BYTES && avg.value > 0.0 && bytes > SPIKE_FACTOR * avg.value
  }

  function EwmaAfter(ewma: map<u32, real>, srcIp: u32, bytes: u64): map<u32, real> {
    ewma[srcIp := Updated(Get(ewma, srcIp), bytes as real)]
  }

  function SpikeAlerts(ewma: map<u32, real>, srcIp: u32, bytes: u64, now: int): seq<Alert> {
    if Spikes(Get(ewma, srcIp), bytes as real) then
      [Alert(now, None, VolumeSpike(FmtIpv4(srcIp), bytes as real, ewma[srcIp]))]
    else []
  }

  // --- one source's byte counts ---

  /** The source's average after its first n flows. */
  function Average(xs: seq<real>, n: nat): Option<real>
    requires n <= |xs|
  {
    if n == 0 then None else Some(Updated(Average(xs, n - 1), xs[n - 1]))
  }

  function Pow(b: real, n: nat): real {
    if n == 0 then 1.0 else b * Pow(b, n - 1)
  }

  /** The weight of the i-th of n observations: 0.7^(n-1) for the first, 0.3 * 0.7^(n-1-i) after it. */
  function Weight(i: nat, n: nat): real
    requires i < n
  {
    if i == 0 then Pow(0.7, n - 1) else 0.3 * Pow(0.7, n - 1 - i)
  }

  /** The first k terms of the weighted sum over n observations. */
  function WeightedSum(xs: seq<real>, k: nat, n: nat): real
    requires k <= n <= |xs|
  {
    if k == 0 then 0.0 else WeightedSum(xs, k - 1, n) + Weight(k - 1, n) * xs[k - 1]
  }

  lemma {:induction false} WeightedSumDecays(xs: seq<real>, k: nat, n: nat)
    requires k <= n < |xs|
    ensures WeightedSum(xs, k, n + 1) == 0.7 * WeightedSum(xs, k, n)
  {
    if k > 0 {
      WeightedSumDecays(xs, k - 1, n);
      WeightDecays(k - 1, n);
      Distribute(WeightedSum(xs, k - 1, n), WeightedSum(xs, k - 1, n + 1), Weight(k - 1, n), Weight(k - 1, n + 1), xs[k - 1]);
    }
  }

  lemma WeightDecays(i: nat, n: nat)
    requires i < n
    ensures Weight(i, n + 1) == 0.7 * Weight(i, n)
  {
  }

  lemma Distribute(s: real, s': real, w: real, w': real, x: real)
    requires s' == 0.7 * s && w' == 0.7 * w
    ensures s' + w' * x == 0.7 * (s + w * x)
  {
    assert w' * x == 0.7 * (w * x);
  }

  lemma UpdatedInNumbers(a: real, x: real)
    ensures Updated(Some(a), x) == 0.7 * a + 0.3 * x
  {
  }

  /** The running average is the closed-form weighted sum of everything seen. */
  lemma {:induction false} AverageIsWeightedSum(xs: seq<real>, n: nat)
    requires 0 < n <= |xs|
    ensures Average(xs, n) == Some(WeightedSum(xs, n, n))
  {
    if n == 1 {
      assert Average(xs, 0) == None;
      assert WeightedSum(xs, 0, 1) == 0.0;
      assert Weight(0, 1) == Pow(0.7, 0) == 1.0;
    } else {
      AverageIsWeightedSum(xs, n - 1);
      WeightedSumDecays(xs, n - 1, n - 1);
      assert Pow(0.7, 0) == 1.0;
      assert Weight(n - 1, n) == 0.3 * 1.0 == 0.3;
      UpdatedInNumbers(WeightedSum(xs, n - 1, n - 1), xs[n - 1]);
    }
  }

  /** ... and never leaves the range of what was observed. */
  lemma {:induction false} AverageWithinRange(xs: seq<real>, n: nat, low: real, high: real)
    requires 0 < n <= |xs|
    requires forall i :: 0 <= i < n ==> low <= xs[i] <= high
    ensures low <= Average(xs, n).value <= high
  {
    if n > 1 {
      AverageWithinRange(xs, n - 1, low, high);
    } else {
      assert Average(xs, 0) == None;
    }
  }

  // --- consecutive alerts grow geometrically ---

  predicate SpikeAt(xs: seq<real>, i: nat)
    requires i < |xs|
  {
    Spikes(Average(xs, i), xs[i])
  }

  /** Two alerts in a row: the second count exceeds one and a half times the first. */
  lemma NextSpikeIsLarger(xs: seq<real>, i: nat)
    requires i + 1 < |xs| && SpikeAt(xs, i) && SpikeAt(xs, i + 1)
    ensures xs[i + 1] > 1.5 * xs[i]
  {
    var a := Average(xs, i).value;
    assert Average(xs, i + 1).value == 0.3 * xs[i] + 0.7 * a;
  }

  /** An alert lifts the average above 0.3 megabytes and above 2.2 times what it was. */
  lemma SpikeLiftsAverage(xs: seq<real>, i: nat)
    requires i < |xs| && SpikeAt(xs, i)
    ensures
      var before, after := Average(xs, i).value, Average(xs, i + 1).value;
      after > 300_000.0 && after > 2.2 * before
  {
  }

  /** After k + 1 alerts in a row the average exceeds 2.2^k times 0.3 megabytes. */
  lemma {:induction false} AverageAfterSpikes(xs: seq<real>, from: nat, k: nat)
    requires from + k < |xs|
    requires forall i :: from <= i <= from + k ==> SpikeAt(xs, i)
    ensures Average(xs, from + k + 1).value > Pow(2.2, k) * 300_000.0
  {
    SpikeLiftsAverage(xs, from + k);
    if k > 0 {
      AverageAfterSpikes(xs, from, k - 1);
      assert Pow(2.2, k) == 2.2 * Pow(2.2, k - 1);
    } else {
      assert Pow(2.2, 0) == 1.0;
    }
  }

  /** The (k+1)-th of a run of consecutive alerts of one source exceeds one megabyte, and from
      the second on 1.5 * 2.2^(k-1) megabytes. */
  lemma ConsecutiveSpikes(xs: seq<real>, from: nat, k: nat)
    requires from + k < |xs|
    requires forall i :: from <= i <= from + k ==> SpikeAt(xs, i)
    ensures xs[from + k] > if k == 0 then 1_000_000.0 else 1.5 * Pow(2.2, k - 1) * 1_000_000.0
  {
    assert SpikeAt(xs, from + k);
    if k > 0 {
      AverageAfterSpikes(xs, from, k - 1);
    }
  }

  lemma {:induction false} PowAdds(b: real, m: nat, n: nat)
    ensures Pow(b, m + n) == Pow(b, m) * Pow(b, n)
  {
    if m > 0 {
      PowAdds(b, m - 1, n);
    }
  }

  lemma ProductWithin(a: real, b: real, low: real, high: real, low': real, high': real)
    requires 0.0 <= low <= a <= high && 0.0 <= low' <= b <= high'
    ensures low * low' <= a * b <= high * high'
  {
    assert low * low' <= low * b <= a * b;
    assert a * b <= a * high' <= high * high';
  }

  /** 2.2^39 is large enough for one bound, and 2.2^38 small enough for the other. */
  lemma Powers()
    ensures 22_000_000_000_000.0 <= Pow(2.2, 39)
    ensures Pow(2.2, 38) <= 10_300_000_000_000.0
  {
    assert Pow(2.2, 2) == 4.84;
    PowAdds(2.2, 2, 2);
    assert Pow(2.2, 4) == 23.4256;
    PowAdds(2.2, 4, 4);
    assert 548.75 <= Pow(2.2, 8) <= 548.76;
    PowAdds(2.2, 8, 8);
    ProductWithin(Pow(2.2, 8), Pow(2.2, 8), 548.75, 548.76, 548.75, 548.76);
    assert 301_126.0 <= Pow(2.2, 16) <= 301_138.0;
    PowAdds(2.2, 16, 16);
    ProductWithin(Pow(2.2, 16), Pow(2.2, 16), 301_126.0, 301_138.0, 301_126.0, 301_138.0);
    assert 90_676_000_000.0 <= Pow(2.2, 32) <= 90_685_000_000.0;
    PowAdds(2.2, 4, 2);
    assert Pow(2.2, 6) == 23.4256 * 4.84;
    PowAdds(2.2, 32, 6);
    PowAdds(2.2, 38, 1);
    assert Pow(2.2, 1) == 2.2;
  }

  const TOO_LARGE: real := 18_446_744_073_709_551_616.0

  /** With 64-bit byte counts no source can alert on more than 40 flows in a row ... */
  lemma AtMost40InARow(xs: seq<real>, from: nat, k: nat)
    requires from + k <= |xs|
    requires forall i :: 0 <= i < |xs| ==> xs[i] < TOO_LARGE
    requires forall i :: from <= i < from + k ==> SpikeAt(xs, i)
    ensures k <= 40
  {
    if k > 40 {
      ConsecutiveSpikes(xs, from, 40);
      Powers();
      assert false;
    }
  }

  // --- ... and 40 is reached ---

  predicate IsByteCount(x: real) {
    0.0 <= x < TOO_LARGE && x.Floor as real == x
  }

  /** The smallest count that alerts on this average. */
  function Smallest(a: real): real {
    if 5.0 * a < 1_000_000.0 then 1_000_001.0 else (5.0 * a).Floor as real + 1.0
  }

  lemma NextWhole(y: real)
    ensures (y.Floor as real + 1.0).Floor == y.Floor + 1
    ensures y < y.Floor as real + 1.0 <= y + 1.0
  {
    var n := y.Floor + 1;
    assert n as real == y.Floor as real + 1.0;
    assert (n as real).Floor == n;
  }

  lemma SmallestAlerts(a: real)
    requires a > 0.0
    ensures Spikes(Some(a), Smallest(a)) && Smallest(a).Floor as real == Smallest(a)
  {
    if 5.0 * a >= 1_000_000.0 {
      NextWhole(5.0 * a);
    } else {
      NextWhole(1_000_000.0);
    }
  }

  /** On a positive average exactly the whole counts from there on alert ... */
  lemma SpikesExactly(a: real, x: int)
    requires a > 0.0
    ensures Spikes(Some(a), x as real) <==> x as real >= Smallest(a)
  {
    if 5.0 * a >= 1_000_000.0 {
      NextWhole(5.0 * a);
      assert x as real > 5.0 * a <==> x > (5.0 * a).Floor;
    }
  }

  /** ... and on no average, or none above zero, nothing does. */
  lemma NeverSpikes(avg: Option<real>, x: real)
    requires avg.None? || avg.value <= 0.0
    ensures !Spikes(avg, x)
  {
  }

  /** Whether a flow alerts, from the counts alone: it is not the first, and it reaches the smallest
      alerting count of the weighted sum of those before it. */
  predicate AlertsOn(before: seq<real>, x: real) {
    before != [] &&
    var a := WeightedSum(before, |before|, |before|);
    a > 0.0 && x >= Smallest(a)
  }

  lemma SpikeAtExactly(before: seq<real>, x: real, rest: seq<real>)
    requires x.Floor as real == x
    ensures SpikeAt(before + [x] + rest, |before|) <==> AlertsOn(before, x)
  {
    assert before + [x] + rest == before + ([x] + rest);
    AverageIgnoresRest(before, [x] + rest, |before|);
    if before != [] {
      AverageIsWeightedSum(before, |before|);
      var a := WeightedSum(before, |before|, |before|);
      if a > 0.0 {
        SpikesExactly(a, x.Floor);
      }
    }
  }

  /** One byte, and then n times the smallest count that alerts. */
  function Climb(n: nat): (xs: seq<real>)
    ensures |xs| == n + 1
  {
    if n == 0 then [1.0] else Climb(n - 1) + [Smallest(Average(Climb(n - 1), n).value)]
  }

  lemma {:induction false} AverageIgnoresRest(xs: seq<real>, more: seq<real>, n: nat)
    requires n <= |xs|
    ensures Average(xs + more, n) == Average(xs, n)
  {
    if n > 0 {
      AverageIgnoresRest(xs, more, n - 1);
    }
  }

  lemma SpikeIgnoresRest(xs: seq<real>, more: seq<real>, i: nat)
    requires i < |xs|
    ensures SpikeAt(xs + more, i) <==> SpikeAt(xs, i)
  {
    AverageIgnoresRest(xs, more, i);
    assert (xs + more)[i] == xs[i];
  }

  /** The average of the climb after its first n alerts. */
  function Reached(n: nat): real {
    Average(Climb(n), n + 1).value
  }

  lemma ReachedNext(n: nat)
    requires n > 0
    ensures Reached(n) == 0.3 * Smallest(Reached(n - 1)) + 0.7 * Reached(n - 1)
  {
    AverageIgnoresRest(Climb(n - 1), [Smallest(Reached(n - 1))], n);
    assert Climb(n)[n] == Smallest(Reached(n - 1));
  }

  lemma ReachedFirst()
    ensures Reached(0) == 1.0 && Reached(1) == 300_001.0
  {
    assert Average([1.0], 0) == None;
    ReachedNext(1);
  }

  lemma {:induction false} ReachedWithin(n: nat)
    requires n > 0
    ensures 300_001.0 <= Reached(n) <= Pow(2.2, n - 1) * 300_001.25 - 0.25
  {
    ReachedFirst();
    if n > 1 {
      ReachedWithin(n - 1);
      ReachedNext(n);
      assert Pow(2.2, n - 1) == 2.2 * Pow(2.2, n - 2);
    }
  }

  lemma {:induction false} PowGrows(m: nat, n: nat)
    requires m <= n
    ensures 1.0 <= Pow(2.2, m) <= Pow(2.2, n)
  {
    if n > m {
      PowGrows(m, n - 1);
    } else if n > 0 {
      PowGrows(m - 1, n - 1);
    }
  }

  /** The n-th of the counts. */
  lemma ClimbCount(n: nat)
    requires n <= 40
    ensures IsByteCount(Climb(n)[n])
    ensures n > 0 ==> SpikeAt(Climb(n), n)
  {
    if n > 0 {
      ReachedFirst();
      var a := Reached(n - 1);
      AverageIgnoresRest(Climb(n - 1), [Smallest(a)], n);
      if n > 1 {
        ReachedWithin(n - 1);
        PowGrows(n - 2, 38);
        Powers();
      }
      SmallestAlerts(a);
    }
  }

  lemma ClimbKeeps(n: nat, i: nat)
    requires i < n
    ensures Climb(n)[i] == Climb(n - 1)[i]
    ensures SpikeAt(Climb(n), i) <==> SpikeAt(Climb(n - 1), i)
  {
    SpikeIgnoresRest(Climb(n - 1), [Smallest(Reached(n - 1))], i);
  }

  lemma {:induction false} ClimbCounts(n: nat, i: nat)
    requires i <= n <= 40
    ensures IsByteCount(Climb(n)[i])
    ensures i > 0 ==> SpikeAt(Climb(n), i)
  {
    if i == n {
      ClimbCount(n);
    } else {
      ClimbCounts(n - 1, i);
      ClimbKeeps(n, i);
    }
  }

  /** One source alerting on 40 flows in a row. */
  lemma FortyInARow()
    ensures |Climb(40)| == 41
    ensures forall i :: 0 <= i < 41 ==> IsByteCount(Climb(40)[i])
    ensures forall i :: 1 <= i <= 40 ==> SpikeAt(Climb(40), i)
  {
    forall i | 0 <= i < 41
      ensures IsByteCount(Climb(40)[i])
      ensures i > 0 ==> SpikeAt(Climb(40), i)
    {
      ClimbCounts(40, i);
    }
  }

  // --- there is no such bound on snapshots ---

  /** What a source may send in one snapshot: twenty small flows and one of two megabytes. */
  const BURST: seq<real> := Small(20) + [2_000_000.0]

  function Small(n: nat): (flows: seq<real>)
    ensures |flows| == n
  {
    seq(n, _ => 60.0)
  }

  lemma {:induction false} SmallFlowsSettle(xs: seq<real>, a: real, n: nat)
    requires Average(xs, |xs|) == Some(a) && a > 0.0
    ensures
      var after := Average(xs + Small(n), |xs| + n);
      after.Some? && 0.0 < after.value <= 60.0 + a * Pow(0.7, n)
  {
    if n == 0 {
      assert xs + Small(0) == xs && Pow(0.7, 0) == 1.0;
    } else {
      SmallFlowsSettle(xs, a, n - 1);
      var longer := xs + Small(n);
      assert longer == (xs + Small(n - 1)) + [60.0];
      AverageIgnoresRest(xs + Small(n - 1), [60.0], |xs| + n - 1);
      assert longer[|xs| + n - 1] == 60.0;
      assert Pow(0.7, n) == 0.7 * Pow(0.7, n - 1);
    }
  }

  lemma SmallAfterTwenty()
    ensures 0.0 <= Pow(0.7, 20) <= 0.001
  {
    assert Pow(0.7, 4) == 0.2401;
    PowAdds(0.7, 4, 4);
    PowAdds(0.7, 8, 8);
    PowAdds(0.7, 16, 4);
    ProductWithin(Pow(0.7, 8), Pow(0.7, 8), 0.0, 0.058, 0.0, 0.058);
    ProductWithin(Pow(0.7, 16), 0.2401, 0.0, 0.004, 0.2401, 0.2401);
  }

  /** Whatever the source did before, if its average is at most two megabytes, the burst ends in
      an alert and leaves the average at most two megabytes. */
  lemma BurstAlerts(xs: seq<real>)
    requires Average(xs, |xs|).Some? && 0.0 < Average(xs, |xs|).value <= 2_000_000.0
    ensures SpikeAt(xs + BURST, |xs| + 20)
    ensures 0.0 < Average(xs + BURST, |xs| + 21).value <= 2_000_000.0
  {
    var a := Average(xs, |xs|).value;
    SmallFlowsSettle(xs, a, 20);
    SmallAfterTwenty();
    ProductWithin(a, Pow(0.7, 20), 0.0, 2_000_000.0, 0.0, 0.001);
    assert xs + BURST == (xs + Small(20)) + [2_000_000.0];
    AverageIgnoresRest(xs + Small(20), [2_000_000.0], |xs| + 20);
    assert (xs + BURST)[|xs| + 20] == 2_000_000.0;
  }

  /** One small flow, and then the burst in each of n snapshots. */
  function Bursts(n: nat): (xs: seq<real>)
    ensures |xs| == 1 + 21 * n
  {
    if n == 0 then [60.0] else Bursts(n - 1) + BURST
  }

  lemma {:induction false} BurstsStayLow(n: nat)
    ensures Average(Bursts(n), |Bursts(n)|).Some?
    ensures 0.0 < Average(Bursts(n), |Bursts(n)|).value <= 2_000_000.0
  {
    if n == 0 {
      assert Average([60.0], 0) == None;
    } else {
      BurstsStayLow(n - 1);
      BurstAlerts(Bursts(n - 1));
    }
  }

  /** A source can alert in every one of any number of snapshots: a snapshot may hold many flows
      of one source, and the detector looks at each flow by itself. */
  lemma {:induction false} EverySnapshotAlerts(n: nat, i: nat)
    requires i < n
    ensures SpikeAt(Bursts(n), 1 + 21 * i + 20)
  {
    var before := Bursts(n - 1);
    if i == n - 1 {
      BurstsStayLow(n - 1);
      BurstAlerts(before);
    } else {
      EverySnapshotAlerts(n - 1, i);
      SpikeIgnoresRest(before, BURST, 1 + 21 * i + 20);
    }
  }

  // --- sources do not interfere ---

  const Smooth: (Option<real>, real) -> real := (avg, bytes) => Updated(avg, bytes)

  lemma {:induction false} AloneIsAverage(own: seq<real>, n: nat)
    requires n <= |own|
    ensures Alone(Smooth, own[..n]) == Average(own, n)
  {
    if n > 0 {
      AloneIsAverage(own, n - 1);
      assert own[..n][..n - 1] == own[..n - 1];
    }
  }

  /** The detector's table over an interleaved trace, as `OnFlow` maintains it. */
  function Averages(tr: seq<(u32, real)>, n: nat): map<u32, real>
    requires n <= |tr|
  {
    if n == 0 then map[]
    else
      var before := Averages(tr, n - 1);
      before[tr[n - 1].0 := Updated(Get(before, tr[n - 1].0), tr[n - 1].1)]
  }

  lemma {:induction false} AveragesAreTable(tr: seq<(u32, real)>, n: nat)
    requires n <= |tr|
    ensures Averages(tr, n) == Table(Smooth, tr, n)
  {
    if n > 0 {
      AveragesAreTable(tr, n - 1);
    }
  }

  /** A source's average on an interleaved trace is the one its own flows give. */
  lemma AveragesAreIsolated(tr: seq<(u32, real)>, n: nat, srcIp: u32)
    requires n <= |tr|
    ensures
      var own := Own(tr, n, srcIp);
      Get(Averages(tr, n), srcIp) == Average(own, |own|)
  {
    var own := Own(tr, n, srcIp);
    AveragesAreTable(tr, n);
    Isolated(Smooth, tr, n, srcIp);
    AloneIsAverage(own, |own|);
    assert own[..|own|] == own;
  }

  /** And so is its next alert: it is raised exactly when the bytes reach the smallest alerting
      count of the weighted sum of the source's own flows so far, and names both and the source. */
  lemma AlertsAreIsolated(tr: seq<(u32, real)>, n: nat, srcIp: u32, bytes: u64, now: int)
    requires n <= |tr|
    ensures
      var own := Own(tr, n, srcIp);
      SpikeAlerts(Averages(tr, n), srcIp, bytes, now)
      == if AlertsOn(own, bytes as real)
         then [Alert(now, None, VolumeSpike(FmtIpv4(srcIp), bytes as real, WeightedSum(own, |own|, |own|)))]
         else []
  {
    var own := Own(tr, n, srcIp);
    AveragesAreIsolated(tr, n, srcIp);
    AverageIgnoresRest(own, [bytes as real], |own|);
    SpikeAtExactly(own, bytes as real, []);
    assert own + [bytes as real] + [] == own + [bytes as real];
    if own != [] {
      AverageIsWeightedSum(own, |own|);
    }
  }
}
