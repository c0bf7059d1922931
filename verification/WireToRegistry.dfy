/** All traffic of a run at once: what crossed the wire (lanscope-ebpf/src/main.rs) against what
    the devices of the registry were charged with (lanscope/src/registry/mod.rs). */
module WireToRegistry {
  import opened Prelude
  import opened FlowCounters
  import opened NetFmt
  import opened AppTraffic
  import opened EndToEnd
  import D = Drain
  import A = App
  import AppRuns

  // --- amounts ---

  function Amount(c: Counter, p: Packet): nat {
    if c.Packets? then 1 else p.len
  }

  function AmountOf(c: Counter, block: seq<Packet>): nat {
    if c.Packets? then |block| else TotalLen(block)
  }

  lemma AmountAppend(c: Counter, a: seq<Packet>, b: seq<Packet>)
    ensures AmountOf(c, a + b) == AmountOf(c, a) + AmountOf(c, b)
  {
    D.TotalLenAppend(a, b);
  }

  lemma AmountOne(c: Counter, p: Packet)
    ensures AmountOf(c, [p]) == Amount(c, p) && AmountOf(c, []) == 0
  {
    assert [p][..|[p]| - 1] == [];
    assert TotalLen([p]) == TotalLen([]) + p.len;
  }

  // --- sums over flows ---

  function SumKeys(keys: seq<FlowKey>, f: FlowKey -> nat): nat {
    if keys == [] then 0 else SumKeys(keys[..|keys| - 1], f) + f(keys[|keys| - 1])
  }

  predicate DistinctKeys(keys: seq<FlowKey>) {
    forall i, j :: 0 <= i < j < |keys| ==> keys[i] != keys[j]
  }

  lemma {:induction false} SumSame(keys: seq<FlowKey>, f: FlowKey -> nat, g: FlowKey -> nat)
    requires forall k :: k in keys ==> f(k) == g(k)
    ensures SumKeys(keys, f) == SumKeys(keys, g)
  {
    if keys != [] {
      SumSame(keys[..|keys| - 1], f, g);
    }
  }

  /** One flow gains x, the others nothing. */
  lemma {:induction false} SumBump(keys: seq<FlowKey>, f: FlowKey -> nat, g: FlowKey -> nat, key: FlowKey, x: nat)
    requires DistinctKeys(keys) && key in keys
    requires forall k :: g(k) == f(k) + if k == key then x else 0
    ensures SumKeys(keys, g) == SumKeys(keys, f) + x
  {
    var n := |keys| - 1;
    if keys[n] == key {
      SumSame(keys[..n], f, g);
    } else {
      SumBump(keys[..n], f, g, key, x);
    }
  }

  lemma {:induction false} SumOrder(keys: seq<FlowKey>, f: FlowKey -> nat, g: FlowKey -> nat)
    requires forall k :: k in keys ==> f(k) <= g(k)
    ensures SumKeys(keys, f) <= SumKeys(keys, g)
  {
    if keys != [] {
      SumOrder(keys[..|keys| - 1], f, g);
    }
  }

  lemma {:induction false} SumOfThree(keys: seq<FlowKey>, a: FlowKey -> nat, b: FlowKey -> nat, c: FlowKey -> nat,
                                      all: FlowKey -> nat)
    requires forall k :: all(k) == a(k) + b(k) + c(k)
    ensures SumKeys(keys, all) == SumKeys(keys, a) + SumKeys(keys, b) + SumKeys(keys, c)
  {
    if keys != [] {
      SumOfThree(keys[..|keys| - 1], a, b, c, all);
    }
  }

  // --- the wire ---

  /** All that arrived, over all flows. */
  function WireTotal(c: Counter, d: D.History): nat {
    if d.Boot? then 0 else WireTotal(c, d.before) + if d.step.Arrive? then Amount(c, d.step.p) else 0
  }

  /** A packet that finds the table full, or falls between its entry's read and removal. */
  predicate IsLost(s: D.State, step: D.Step) {
    step.Arrive? && (!D.Admits(s.flows, step.p.key) || D.Pending(s, step.p.key))
  }

  function LostTotal(c: Counter, d: D.History): nat
    requires D.IsRun(d)
  {
    if d.Boot? then 0
    else LostTotal(c, d.before) + if IsLost(D.Now(d.before), d.step) then Amount(c, d.step.p) else 0
  }

  function ArrivalKeys(d: D.History): seq<FlowKey> {
    if d.Boot? then [] else ArrivalKeys(d.before) + if d.step.Arrive? then [d.step.p.key] else []
  }

  predicate Covers(keys: seq<FlowKey>, d: D.History) {
    d.Then? ==> Covers(keys, d.before) && (d.step.Arrive? ==> d.step.p.key in keys)
  }

  function ArrivedFor(c: Counter, d: D.History): FlowKey -> nat {
    (k: FlowKey) => AmountOf(c, D.Arrived(d, k))
  }

  function LostFor(c: Counter, d: D.History): FlowKey -> nat
    requires D.IsRun(d)
  {
    (k: FlowKey) => AmountOf(c, D.Dropped(d, k)) + AmountOf(c, Flatten(D.Gaps(d, k)))
  }

  lemma ArrivedStep(c: Counter, d: D.History, k: FlowKey)
    requires d.Then?
    ensures ArrivedFor(c, d)(k)
         == ArrivedFor(c, d.before)(k) + if d.step.Arrive? && k == d.step.p.key then Amount(c, d.step.p) else 0
  {
    AmountAppend(c, D.Arrived(d.before, k), D.ArrivedBy(d.step, k));
    if d.step.Arrive? {
      AmountOne(c, d.step.p);
    }
  }

  lemma {:induction false} WireIsSum(c: Counter, d: D.History, keys: seq<FlowKey>)
    requires DistinctKeys(keys) && Covers(keys, d)
    ensures WireTotal(c, d) == SumKeys(keys, ArrivedFor(c, d))
  {
    if d.Boot? {
      SumOfNothing(keys, ArrivedFor(c, d));
    } else {
      WireIsSum(c, d.before, keys);
      forall k
        ensures ArrivedFor(c, d)(k)
             == ArrivedFor(c, d.before)(k) + if d.step.Arrive? && k == d.step.p.key then Amount(c, d.step.p) else 0
      {
        ArrivedStep(c, d, k);
      }
      if d.step.Arrive? {
        SumBump(keys, ArrivedFor(c, d.before), ArrivedFor(c, d), d.step.p.key, Amount(c, d.step.p));
      } else {
        SumSame(keys, ArrivedFor(c, d.before), ArrivedFor(c, d));
      }
    }
  }

  lemma {:induction false} SumOfNothing(keys: seq<FlowKey>, f: FlowKey -> nat)
    requires forall k :: f(k) == 0
    ensures SumKeys(keys, f) == 0
  {
    if keys != [] {
      SumOfNothing(keys[..|keys| - 1], f);
    }
  }

  // --- what is lost ---

  /** A step other than the loss of a packet of k leaves the gaps of k as full as they were. */
  lemma GapStep(c: Counter, s: D.State, step: D.Step, k: FlowKey, gaps: seq<seq<Packet>>)
    requires D.Pending(s, k) ==> gaps != []
    ensures AmountOf(c, Flatten(D.GapsAfter(s, step, k, gaps)))
         == AmountOf(c, Flatten(gaps))
          + if step != D.Read(k) && D.Pending(s, k) then AmountOf(c, D.ArrivedBy(step, k)) else 0
  {
    if step == D.Read(k) {
      FlattenSnoc(gaps, []);
      assert Flatten(gaps) + [] == Flatten(gaps);
    } else if D.Pending(s, k) {
      D.FlattenAppendToLast(gaps, D.ArrivedBy(step, k));
      AmountAppend(c, Flatten(gaps), D.ArrivedBy(step, k));
    }
  }

  lemma LossOfStep(c: Counter, s: D.State, step: D.Step, k: FlowKey)
    requires D.Pending(s, k) ==> k in s.flows
    ensures AmountOf(c, D.DroppedBy(s, step, k))
          + (if step != D.Read(k) && D.Pending(s, k) then AmountOf(c, D.ArrivedBy(step, k)) else 0)
         == if IsLost(s, step) && k == step.p.key then Amount(c, step.p) else 0
  {
    if step.Arrive? {
      AmountOne(c, step.p);
    }
  }

  lemma DroppedStep(c: Counter, d: D.History, k: FlowKey)
    requires d.Then? && D.IsRun(d)
    ensures AmountOf(c, D.Dropped(d, k))
         == AmountOf(c, D.Dropped(d.before, k)) + AmountOf(c, D.DroppedBy(D.Now(d.before), d.step, k))
  {
    AmountAppend(c, D.Dropped(d.before, k), D.DroppedBy(D.Now(d.before), d.step, k));
  }

  lemma GapsStep(c: Counter, d: D.History, k: FlowKey)
    requires d.Then? && D.IsRun(d)
    ensures AmountOf(c, Flatten(D.Gaps(d, k)))
         == AmountOf(c, Flatten(D.Gaps(d.before, k)))
          + if d.step != D.Read(k) && D.Pending(D.Now(d.before), k) then AmountOf(c, D.ArrivedBy(d.step, k)) else 0
  {
    D.PendingEntryOnlyGrows(d.before, k);
    GapStep(c, D.Now(d.before), d.step, k, D.Gaps(d.before, k));
  }

  lemma LostStep(c: Counter, d: D.History, k: FlowKey)
    requires d.Then? && D.IsRun(d)
    ensures LostFor(c, d)(k)
         == LostFor(c, d.before)(k)
          + if IsLost(D.Now(d.before), d.step) && k == d.step.p.key then Amount(c, d.step.p) else 0
  {
    D.RunIsConsistent(d.before);
    DroppedStep(c, d, k);
    GapsStep(c, d, k);
    LossOfStep(c, D.Now(d.before), d.step, k);
  }

  lemma {:induction false} LostIsSum(c: Counter, d: D.History, keys: seq<FlowKey>)
    requires D.IsRun(d) && DistinctKeys(keys) && Covers(keys, d)
    ensures LostTotal(c, d) == SumKeys(keys, LostFor(c, d))
  {
    if d.Boot? {
      SumOfNothing(keys, LostFor(c, d));
    } else {
      LostIsSum(c, d.before, keys);
      var lost := IsLost(D.Now(d.before), d.step);
      forall k
        ensures LostFor(c, d)(k)
             == LostFor(c, d.before)(k) + if lost && k == d.step.p.key then Amount(c, d.step.p) else 0
      {
        LostStep(c, d, k);
      }
      if lost {
        SumBump(keys, LostFor(c, d.before), LostFor(c, d), d.step.p.key, Amount(c, d.step.p));
      } else {
        SumSame(keys, LostFor(c, d.before), LostFor(c, d));
      }
    }
  }

  // --- what the handler counted ---

  function CountedBy(c: Counter, h: A.History): FlowKey -> nat {
    (k: FlowKey) => CountedFor(c, h, k)
  }

  lemma {:induction false} CountedIsSum(c: Counter, h: A.History, keys: seq<FlowKey>)
    requires DistinctKeys(keys) && forall e :: e in EntriesOf(h) ==> e.0 in keys
    ensures Counted(c, h) == SumKeys(keys, CountedBy(c, h))
  {
    if h.From? {
      SumOfNothing(keys, CountedBy(c, h));
    } else {
      assert forall e :: e in EntriesOf(h.before) ==> e in EntriesOf(h);
      CountedIsSum(c, h.before, keys);
      if h.step.Count? {
        assert (h.step.key, h.step.stats) in EntriesOf(h);
        SumBump(keys, CountedBy(c, h.before), CountedBy(c, h), h.step.key, In(c, h.step.stats));
      } else {
        SumSame(keys, CountedBy(c, h.before), CountedBy(c, h));
      }
    }
  }

  lemma {:induction false} ArrivedKeyIsCovered(d: D.History, keys: seq<FlowKey>, k: FlowKey)
    requires Covers(keys, d) && D.Arrived(d, k) != []
    ensures k in keys
  {
    if D.Arrived(d.before, k) != [] {
      ArrivedKeyIsCovered(d.before, keys, k);
    }
  }

  /** Only flows of which packets arrived are ever reported. */
  lemma ReportedKeyArrived(d: D.History, e: D.Entry)
    requires D.IsRun(d) && e in Flatten(D.Now(d).snapshots)
    ensures D.Arrived(d, e.0) != []
  {
    var k, sent := e.0, Flatten(D.Now(d).snapshots) + D.Now(d).out;
    assert e in sent;
    D.RecordIsReported(sent, e);
    var i :| 0 <= i < |D.Reported(D.Now(d), k)| && D.Reported(D.Now(d), k)[i] == e.1;
    D.RecordsAggregateBlocks(d, k);
    BlockIsInside(D.Blocks(d, k), i);
    D.HistoryPartition(d, k);
    D.WeaveTotals(D.Blocks(d, k), D.Gaps(d, k));
    D.ArrivedTotals(d, k);
  }

  lemma {:induction false} BlockIsInside(blocks: seq<seq<Packet>>, i: nat)
    requires i < |blocks|
    ensures |blocks[i]| <= |Flatten(blocks)|
  {
    if i < |blocks| - 1 {
      BlockIsInside(blocks[..|blocks| - 1], i);
    }
  }

  // --- one flow ---

  function HeldFor(c: Counter, d: D.History): FlowKey -> nat
    requires D.IsRun(d)
  {
    (k: FlowKey) => Sum(c, D.Held(D.Now(d), k))
  }

  function AccountedFor(c: Counter, d: D.History, h: A.History): FlowKey -> nat
    requires D.IsRun(d)
  {
    var counted, held, lost := CountedBy(c, h), HeldFor(c, d), LostFor(c, d);
    (k: FlowKey) => counted(k) + held(k) + lost(k)
  }

  /** The handler was given the drained snapshots, in order. */
  predicate Delivered(d: D.History, h: A.History)
    requires D.IsRun(d)
  {
    D.Now(d).phase == D.Idle && EntriesOf(h) == Flatten(D.Now(d).snapshots)
  }

  lemma AccountedIsCounted(c: Counter, d: D.History, h: A.History, k: FlowKey)
    requires D.IsRun(d) && Delivered(d, h)
    ensures AccountedFor(c, d, h)(k) == if c.Packets? then D.PacketsCounted(d, k) else D.BytesCounted(d, k)
  {
    AllSent(d, k);
    CountedIsReported(c, h, k);
  }

  lemma FlowAccounted(c: Counter, d: D.History, h: A.History, k: FlowKey)
    requires D.IsRun(d) && Delivered(d, h)
    ensures AccountedFor(c, d, h)(k) <= ArrivedFor(c, d)(k)
    ensures D.NothingWrapped(d, k) ==> AccountedFor(c, d, h)(k) == ArrivedFor(c, d)(k)
  {
    AccountedIsCounted(c, d, h, k);
    D.TrafficConservation(d, k);
  }

  // --- all flows ---

  function FlowsSeen(d: D.History): seq<FlowKey> {
    Dedup(ArrivalKeys(d))
  }

  lemma {:induction false} ArrivalKeysCover(keys: seq<FlowKey>, d: D.History)
    requires forall k :: k in ArrivalKeys(d) ==> k in keys
    ensures Covers(keys, d)
  {
    if d.Then? {
      assert forall k :: k in ArrivalKeys(d.before) ==> k in ArrivalKeys(d);
      ArrivalKeysCover(keys, d.before);
    }
  }

  lemma FlowsSeenCover(d: D.History)
    ensures DistinctKeys(FlowsSeen(d)) && Covers(FlowsSeen(d), d)
  {
    DedupNoDuplicates(ArrivalKeys(d));
    forall k | k in ArrivalKeys(d)
      ensures k in FlowsSeen(d)
    {
      DedupMember(ArrivalKeys(d), k);
    }
    ArrivalKeysCover(FlowsSeen(d), d);
  }

  /** What the table holds and no snapshot has. */
  function HeldTotal(c: Counter, d: D.History): nat
    requires D.IsRun(d)
  {
    SumKeys(FlowsSeen(d), HeldFor(c, d))
  }

  lemma WireIsCounted(c: Counter, d: D.History, h: A.History)
    requires D.IsRun(d) && Delivered(d, h)
    ensures Counted(c, h) + HeldTotal(c, d) + LostTotal(c, d) <= WireTotal(c, d)
    ensures (forall k :: k in FlowsSeen(d) ==> D.NothingWrapped(d, k)) ==>
      Counted(c, h) + HeldTotal(c, d) + LostTotal(c, d) == WireTotal(c, d)
  {
    var keys := FlowsSeen(d);
    FlowsSeenCover(d);
    forall e | e in EntriesOf(h)
      ensures e.0 in keys
    {
      ReportedKeyArrived(d, e);
      ArrivedKeyIsCovered(d, keys, e.0);
    }
    CountedIsSum(c, h, keys);
    LostIsSum(c, d, keys);
    WireIsSum(c, d, keys);
    SumOfThree(keys, CountedBy(c, h), HeldFor(c, d), LostFor(c, d), AccountedFor(c, d, h));
    forall k
      ensures AccountedFor(c, d, h)(k) <= ArrivedFor(c, d)(k)
      ensures D.NothingWrapped(d, k) ==> AccountedFor(c, d, h)(k) == ArrivedFor(c, d)(k)
    {
      FlowAccounted(c, d, h, k);
    }
    SumOrder(keys, AccountedFor(c, d, h), ArrivedFor(c, d));
    if forall k :: k in keys ==> D.NothingWrapped(d, k) {
      SumSame(keys, AccountedFor(c, d, h), ArrivedFor(c, d));
    }
  }

  /** From the wire to the registry: what the devices were charged with, what no device held the
      address for, what the table still holds and what was lost never exceed what crossed the
      wire, and are all of it if no record and no device counter overflows. */
  lemma WireReachesRegistry(c: Counter, oui: Mac -> Option<string>, d: D.History, h: A.History)
    requires D.IsRun(d) && Delivered(d, h)
    requires A.IsRun(oui, h) && AppRuns.Uninterrupted(h)
    ensures
      var start, end := Total(c, AppRuns.StartOf(h).devices), Total(c, A.Now(oui, h).devices);
      var gone := Unattributed(c, h) + HeldTotal(c, d) + LostTotal(c, d);
      && end + gone <= start + WireTotal(c, d)
      && (NoSaturation(c, oui, h) && (forall k :: k in FlowsSeen(d) ==> D.NothingWrapped(d, k)) ==>
            end + gone == start + WireTotal(c, d))
  {
    WireIsCounted(c, d, h);
    TrafficIsConserved(c, oui, h);
  }
}
