/** From the wire to the registry: the drained snapshots (lanscope/src/capture/ebpf.rs) are
    what the event handler counts (lanscope/src/app.rs). */
module EndToEnd {
  import opened Prelude
  import opened FlowCounters
  import opened AppTraffic
  import D = Drain
  import A = App

  /** The flow records a run of the handler was given, in order. */
  function EntriesOf(h: A.History): seq<D.Entry> {
    if h.From? then []
    else EntriesOf(h.before) + if h.step.Count? then [(h.step.key, h.step.stats)] else []
  }

  /** What the handler counted for one flow. */
  function CountedFor(c: Counter, h: A.History, k: FlowKey): nat {
    if h.From? then 0
    else CountedFor(c, h.before, k) + if h.step.Count? && h.step.key == k then In(c, h.step.stats) else 0
  }

  function Sum(c: Counter, records: seq<FlowStats>): nat {
    if c.Packets? then D.SumPackets(records) else D.SumBytes(records)
  }

  lemma SumSnoc(c: Counter, records: seq<FlowStats>, s: FlowStats)
    ensures Sum(c, records + [s]) == Sum(c, records) + In(c, s)
  {
    assert (records + [s])[..|records|] == records;
  }

  lemma RecordsSumStep(c: Counter, entries: seq<D.Entry>, e: D.Entry, k: FlowKey)
    ensures Sum(c, D.RecordsIn(entries + [e], k))
         == Sum(c, D.RecordsIn(entries, k)) + if e.0 == k then In(c, e.1) else 0
  {
    D.RecordsSnoc(entries, e, k);
    var records := D.RecordsIn(entries, k);
    if e.0 == k {
      SumSnoc(c, records, e.1);
    } else {
      assert records + [] == records;
    }
  }

  lemma {:induction false} CountedIsReported(c: Counter, h: A.History, k: FlowKey)
    ensures CountedFor(c, h, k) == Sum(c, D.RecordsIn(EntriesOf(h), k))
  {
    if h.Then? {
      var before := EntriesOf(h.before);
      CountedIsReported(c, h.before, k);
      if h.step.Count? {
        RecordsSumStep(c, before, (h.step.key, h.step.stats), k);
      } else {
        assert before + [] == before;
      }
    }
  }

  /** Between drains all that was reported is in the snapshots. */
  lemma AllSent(d: D.History, k: FlowKey)
    requires D.IsRun(d) && D.Now(d).phase == D.Idle
    ensures D.Reported(D.Now(d), k) == D.RecordsIn(Flatten(D.Now(d).snapshots), k)
  {
    D.RunIsConsistent(d);
    var sent := Flatten(D.Now(d).snapshots);
    assert sent + D.Now(d).out == sent;
  }

  /** Between drains, for a handler that was given exactly the drained snapshots: every packet
      of a flow that crossed the wire was counted for that flow, or is still in the table, or
      found the table full, or fell between a read and its removal, exactly when no single
      record outgrew its counters. */
  lemma EveryPacketAccountedFor(d: D.History, h: A.History, k: FlowKey)
    requires D.IsRun(d) && D.Now(d).phase == D.Idle
    requires EntriesOf(h) == Flatten(D.Now(d).snapshots)
    ensures
      && |D.Arrived(d, k)|
         == CountedFor(Packets, h, k) + D.SumPackets(D.Held(D.Now(d), k))
          + |D.Dropped(d, k)| + |Flatten(D.Gaps(d, k))|
      && TotalLen(D.Arrived(d, k))
         == CountedFor(Bytes, h, k) + D.SumBytes(D.Held(D.Now(d), k))
          + TotalLen(D.Dropped(d, k)) + TotalLen(Flatten(D.Gaps(d, k)))
      <==> D.NothingWrapped(d, k)
  {
    D.TrafficConservation(d, k);
    AllSent(d, k);
    CountedIsReported(Packets, h, k);
    CountedIsReported(Bytes, h, k);
  }
}
