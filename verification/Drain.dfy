/** The shared flow table while the kernel counts packets and userspace drains it:
    `update_flow` (lanscope-ebpf/src/main.rs) interleaved with the two passes of
    `drain_flows` (lanscope/src/capture/ebpf.rs). Every table operation is one atomic step. */
module Drain {
  import opened Prelude
  import opened FlowCounters

  type Entry = (FlowKey, FlowStats)

  /** Where the drain stands. `start` is the key set when the reading pass began; `next` is
      the position in the collected list that the removing pass has reached. */
  datatype Phase = Idle | Reading(start: set<FlowKey>) | Removing(next: nat)

  datatype State = State(
    flows: map<FlowKey, FlowStats>,
    phase: Phase,
    out: seq<Entry>,
    snapshots: seq<seq<Entry>>)

  datatype Step =
    | Arrive(p: Packet)
    | Start
    | Read(key: FlowKey)
    | ReadDone
    | Remove(key: FlowKey)
    | End

  /** What has happened to the table since boot, latest step outermost. */
  datatype History = Boot | Then(before: History, step: Step)

  function KeysOf(out: seq<Entry>): seq<FlowKey> {
    seq(|out|, i requires 0 <= i < |out| => out[i].0)
  }

  predicate Copied(keys: set<FlowKey>, out: seq<Entry>) {
    forall k :: k in keys ==> k in KeysOf(out)
  }

  /** An insert into a full table fails, and `update_flow` ignores the failure. */
  predicate Admits(flows: map<FlowKey, FlowStats>, key: FlowKey) {
    key in flows || |flows| < 10_240
  }

  function AfterPacket(flows: map<FlowKey, FlowStats>, p: Packet): map<FlowKey, FlowStats> {
    if p.key in flows then flows[p.key := GrownEntry(flows[p.key], p)]
    else if |flows| < CAPACITY then flows[p.key := FreshEntry(p)]
    else flows
  }

  /** The table cursor visits a key at most once, and visits every key present throughout. */
  predicate Enabled(s: State, step: Step) {
    match step
    case Arrive(_) => true
    case Start => s.phase.Idle?
    case Read(k) => s.phase.Reading? && k in s.flows && k !in KeysOf(s.out)
    case ReadDone => s.phase.Reading? && Copied(s.phase.start, s.out)
    case Remove(k) => s.phase.Removing? && s.phase.next < |s.out| && s.out[s.phase.next].0 == k
    case End => s.phase.Removing? && s.phase.next == |s.out|
  }

  function Apply(s: State, step: Step): State
    requires Enabled(s, step)
  {
    match step
    case Arrive(p) => s.(flows := AfterPacket(s.flows, p))
    case Start => s.(phase := Reading(s.flows.Keys), out := [])
    case Read(k) => s.(out := s.out + [(k, s.flows[k])])
    case ReadDone => s.(phase := Removing(0))
    case Remove(k) => s.(flows := s.flows - {k}, phase := Removing(s.phase.next + 1))
    case End => s.(phase := Idle, out := [], snapshots := if s.out == [] then s.snapshots else s.snapshots + [s.out])
  }

  /** Every step was possible when it was taken. */
  predicate IsRun(h: History)
    decreases h, 0
  {
    h.Boot? || (IsRun(h.before) && Enabled(Now(h.before), h.step))
  }

  /** The state after a run. */
  function Now(h: History): State
    requires IsRun(h)
    decreases h, 1
  {
    if h.Boot? then State(map[], Idle, [], []) else Apply(Now(h.before), h.step)
  }

  // --- the packet history of one key ---

  /** k has been copied into the list under construction but not yet removed from the table. */
  predicate Pending(s: State, k: FlowKey) {
    match s.phase
    case Idle => false
    case Reading(_) => k in KeysOf(s.out)
    case Removing(next) => next <= |s.out| && k in KeysOf(s.out)[next..]
  }

  function ArrivedBy(step: Step, k: FlowKey): seq<Packet> {
    if step.Arrive? && step.p.key == k then [step.p] else []
  }

  function AdmittedBy(s: State, step: Step, k: FlowKey): seq<Packet> {
    if Admits(s.flows, k) then ArrivedBy(step, k) else []
  }

  function DroppedBy(s: State, step: Step, k: FlowKey): seq<Packet> {
    if Admits(s.flows, k) then [] else ArrivedBy(step, k)
  }

  function Arrived(h: History, k: FlowKey): seq<Packet> {
    if h.Boot? then [] else Arrived(h.before, k) + ArrivedBy(h.step, k)
  }

  function Admitted(h: History, k: FlowKey): seq<Packet>
    requires IsRun(h)
  {
    if h.Boot? then [] else Admitted(h.before, k) + AdmittedBy(Now(h.before), h.step, k)
  }

  /** The packets of k turned away because the table was full. */
  function Dropped(h: History, k: FlowKey): seq<Packet>
    requires IsRun(h)
  {
    if h.Boot? then [] else Dropped(h.before, k) + DroppedBy(Now(h.before), h.step, k)
  }

  /** The admitted packets of k since its last removal. */
  function Live(h: History, k: FlowKey): seq<Packet>
    requires IsRun(h)
  {
    if h.Boot? then [] else LiveAfter(Now(h.before), h.step, k, Live(h.before, k))
  }

  function LiveAfter(s: State, step: Step, k: FlowKey, live: seq<Packet>): seq<Packet> {
    if step == Remove(k) then [] else live + AdmittedBy(s, step, k)
  }

  /** The packets of k that arrived between its i-th read and the removal that follows it. */
  function Gaps(h: History, k: FlowKey): seq<seq<Packet>>
    requires IsRun(h)
  {
    if h.Boot? then [] else GapsAfter(Now(h.before), h.step, k, Gaps(h.before, k))
  }

  function GapsAfter(s: State, step: Step, k: FlowKey, gaps: seq<seq<Packet>>): seq<seq<Packet>> {
    if step == Read(k) then gaps + [[]]
    else if Pending(s, k) then AppendToLast(gaps, ArrivedBy(step, k))
    else gaps
  }

  function AppendToLast(gaps: seq<seq<Packet>>, more: seq<Packet>): (grown: seq<seq<Packet>>)
    ensures |grown| == |gaps|
  {
    if gaps == [] then [] else gaps[|gaps| - 1 := gaps[|gaps| - 1] + more]
  }

  /** What each read of k had in front of it: the live packets at that moment. */
  function Blocks(h: History, k: FlowKey): seq<seq<Packet>>
    requires IsRun(h)
  {
    if h.Boot? then []
    else Blocks(h.before, k) + if h.step == Read(k) then [Live(h.before, k)] else []
  }

  /** The records handed out for k, oldest first: all snapshots, then the list being built. */
  function RecordsIn(out: seq<Entry>, k: FlowKey): seq<FlowStats> {
    if out == [] then []
    else
      RecordsIn(out[..|out| - 1], k) + if out[|out| - 1].0 == k then [out[|out| - 1].1] else []
  }

  function Reported(s: State, k: FlowKey): seq<FlowStats> {
    RecordsIn(Flatten(s.snapshots) + s.out, k)
  }

  function Weave(blocks: seq<seq<Packet>>, gaps: seq<seq<Packet>>): seq<Packet>
    requires |blocks| == |gaps|
  {
    if blocks == [] then []
    else
      var n := |blocks| - 1;
      Weave(blocks[..n], gaps[..n]) + blocks[n] + gaps[n]
  }

  // --- invariants of the machine ---

  predicate Distinct(out: seq<Entry>) {
    forall i, j :: 0 <= i < j < |out| ==> out[i].0 != out[j].0
  }

  /** Every collected key is still in the table until the removing pass reaches it. */
  ghost predicate Consistent(s: State) {
    && |s.flows| <= 10_240
    && Distinct(s.out)
    && (s.phase.Idle? ==> s.out == [])
    && (s.phase.Removing? ==> s.phase.next <= |s.out|)
    && (forall k :: Pending(s, k) ==> k in s.flows)
  }

  lemma PacketKeepsKeys(flows: map<FlowKey, FlowStats>, p: Packet)
    requires |flows| <= 10_240
    ensures flows.Keys <= AfterPacket(flows, p).Keys
    ensures |AfterPacket(flows, p)| <= 10_240
  {
    var after := AfterPacket(flows, p);
    if p.key in flows {
      assert after.Keys == flows.Keys;
    } else if |flows| < CAPACITY {
      assert after.Keys == flows.Keys + {p.key};
    }
    assert |after| == |after.Keys| && |flows| == |flows.Keys|;
  }

  lemma RemoveKeepsSize(flows: map<FlowKey, FlowStats>, k: FlowKey)
    ensures |flows - {k}| <= |flows|
  {
    assert (flows - {k}).Keys == flows.Keys - {k};
    assert |flows - {k}| == |(flows - {k}).Keys| && |flows| == |flows.Keys|;
  }

  lemma RemovedKeyIsGone(s: State, k: FlowKey)
    requires Consistent(s) && Enabled(s, Remove(k))
    ensures KeysOf(s.out)[s.phase.next..] == [k] + KeysOf(s.out)[s.phase.next + 1..]
    ensures k !in KeysOf(s.out)[s.phase.next + 1..]
  {
    assert forall i :: 0 <= i < |s.out| ==> KeysOf(s.out)[i] == s.out[i].0;
  }

  lemma StepKeepsConsistent(s: State, step: Step)
    requires Consistent(s) && Enabled(s, step)
    ensures Consistent(Apply(s, step))
  {
    var t := Apply(s, step);
    match step {
      case Arrive(p) =>
        PacketKeepsKeys(s.flows, p);
      case Read(k) =>
        assert forall i :: 0 <= i < |s.out| ==> KeysOf(s.out)[i] == s.out[i].0;
        assert KeysOf(t.out) == KeysOf(s.out) + [k];
      case ReadDone =>
        assert KeysOf(t.out)[0..] == KeysOf(s.out);
      case Remove(k) =>
        RemoveKeepsSize(s.flows, k);
        RemovedKeyIsGone(s, k);
      case _ =>
    }
  }

  lemma {:induction false} RunIsConsistent(h: History)
    requires IsRun(h)
    ensures Consistent(Now(h))
  {
    if h.Then? {
      RunIsConsistent(h.before);
      StepKeepsConsistent(Now(h.before), h.step);
    }
  }

  // --- the table holds exactly the packets since the last removal ---

  ghost predicate EntryMatches(s: State, k: FlowKey, live: seq<Packet>) {
    && (k in s.flows <==> live != [])
    && (k in s.flows ==> Aggregates(s.flows[k], live))
  }

  lemma EntryStep(s: State, step: Step, k: FlowKey, live: seq<Packet>)
    requires Enabled(s, step) && EntryMatches(s, k, live)
    ensures EntryMatches(Apply(s, step), k, LiveAfter(s, step, k, live))
  {
    var more := AdmittedBy(s, step, k);
    if more != [] {
      var p := step.p;
      assert more == [p];
      if k in s.flows {
        GrownEntryAggregates(s.flows[k], live, p);
      } else {
        FreshEntryAggregates(p);
        assert live + [p] == [p];
      }
    } else {
      assert live + more == live;
    }
  }

  lemma {:induction false} EntryAggregatesLive(h: History, k: FlowKey)
    requires IsRun(h)
    ensures k in Now(h).flows <==> Live(h, k) != []
    ensures k in Now(h).flows ==> Aggregates(Now(h).flows[k], Live(h, k))
  {
    if h.Then? {
      EntryAggregatesLive(h.before, k);
      EntryStep(Now(h.before), h.step, k, Live(h.before, k));
    }
  }

  // --- where every admitted packet went ---

  /** Only its own read makes a key pending, and only its own removal ends that. */
  lemma PendingStep(s: State, step: Step, k: FlowKey)
    requires Consistent(s) && Enabled(s, step)
    ensures Pending(Apply(s, step), k) <==> (step == Read(k) || (Pending(s, k) && step != Remove(k)))
  {
    var t := Apply(s, step);
    match step {
      case Read(key) =>
        assert KeysOf(t.out) == KeysOf(s.out) + [key];
      case ReadDone =>
        assert KeysOf(t.out)[0..] == KeysOf(s.out);
      case Remove(key) =>
        RemovedIsDone(s, key, k);
      case _ =>
    }
  }

  lemma RemovedIsDone(s: State, key: FlowKey, k: FlowKey)
    requires Consistent(s) && Enabled(s, Remove(key))
    ensures k in KeysOf(s.out)[s.phase.next + 1..] <==> k in KeysOf(s.out)[s.phase.next..] && k != key
  {
    var keys, next := KeysOf(s.out), s.phase.next;
    assert keys[next..] == [key] + keys[next + 1..];
    assert forall i :: 0 <= i < |keys| ==> keys[i] == s.out[i].0;
  }

  ghost predicate GrowsOnly(s: State, k: FlowKey, live: seq<Packet>, blocks: seq<seq<Packet>>, gaps: seq<seq<Packet>>) {
    && |gaps| == |blocks|
    && (Pending(s, k) ==> blocks != [] && live == blocks[|blocks| - 1] + gaps[|gaps| - 1])
  }

  lemma GrowsOnlyStep(s: State, step: Step, k: FlowKey, live: seq<Packet>, blocks: seq<seq<Packet>>, gaps: seq<seq<Packet>>)
    requires Consistent(s) && Enabled(s, step) && GrowsOnly(s, k, live, blocks, gaps)
    ensures GrowsOnly(Apply(s, step), k, LiveAfter(s, step, k, live),
                      blocks + if step == Read(k) then [live] else [], GapsAfter(s, step, k, gaps))
  {
    PendingStep(s, step, k);
    if step == Read(k) {
      assert live + [] == live;
    } else if Pending(s, k) && step != Remove(k) {
      assert AdmittedBy(s, step, k) == ArrivedBy(step, k);
      assert blocks + [] == blocks;
    }
  }

  /** A copied entry is the front of what the table goes on accumulating for its key. */
  lemma PendingEntryOnlyGrows(h: History, k: FlowKey)
    requires IsRun(h)
    ensures |Gaps(h, k)| == |Blocks(h, k)|
    ensures Pending(Now(h), k) ==>
      var n := |Blocks(h, k)|;
      n > 0 && Live(h, k) == Blocks(h, k)[n - 1] + Gaps(h, k)[n - 1]
  {
    RunGrowsOnly(h, k);
  }

  lemma {:induction false} RunGrowsOnly(h: History, k: FlowKey)
    requires IsRun(h)
    ensures GrowsOnly(Now(h), k, Live(h, k), Blocks(h, k), Gaps(h, k))
  {
    if h.Then? {
      RunGrowsOnly(h.before, k);
      RunIsConsistent(h.before);
      GrowsOnlyStep(Now(h.before), h.step, k, Live(h.before, k), Blocks(h.before, k), Gaps(h.before, k));
    }
  }

  lemma WeaveSnoc(blocks: seq<seq<Packet>>, gaps: seq<seq<Packet>>, block: seq<Packet>, gap: seq<Packet>)
    requires |blocks| == |gaps|
    ensures Weave(blocks + [block], gaps + [gap]) == Weave(blocks, gaps) + block + gap
  {
    assert (blocks + [block])[..|blocks|] == blocks;
    assert (gaps + [gap])[..|gaps|] == gaps;
  }

  lemma WeaveGrowLast(blocks: seq<seq<Packet>>, gaps: seq<seq<Packet>>, more: seq<Packet>)
    requires 0 < |blocks| == |gaps|
    ensures Weave(blocks, AppendToLast(gaps, more)) == Weave(blocks, gaps) + more
  {
    var n := |gaps| - 1;
    assert AppendToLast(gaps, more)[..n] == gaps[..n];
    assert Weave(blocks[..n], gaps[..n]) + blocks[n] + (gaps[n] + more)
        == Weave(blocks[..n], gaps[..n]) + blocks[n] + gaps[n] + more;
  }

  function NotYetHandedOut(s: State, k: FlowKey, live: seq<Packet>): seq<Packet> {
    if Pending(s, k) then [] else live
  }

  lemma PartitionStep(s: State, step: Step, k: FlowKey, live: seq<Packet>, blocks: seq<seq<Packet>>, gaps: seq<seq<Packet>>)
    requires Consistent(s) && Enabled(s, step) && GrowsOnly(s, k, live, blocks, gaps)
    ensures
      var blocks', gaps' := blocks + if step == Read(k) then [live] else [], GapsAfter(s, step, k, gaps);
      && |blocks'| == |gaps'|
      && Weave(blocks', gaps') + NotYetHandedOut(Apply(s, step), k, LiveAfter(s, step, k, live))
      == Weave(blocks, gaps) + NotYetHandedOut(s, k, live) + AdmittedBy(s, step, k)
  {
    PendingStep(s, step, k);
    if step == Read(k) {
      WeaveSnoc(blocks, gaps, live, []);
    } else {
      assert blocks + [] == blocks;
      if Pending(s, k) {
        assert AdmittedBy(s, step, k) == ArrivedBy(step, k);
        WeaveGrowLast(blocks, gaps, ArrivedBy(step, k));
      } else {
        if step == Remove(k) {
          RemovesOnlyPending(s, step, k);
        }
        var more := AdmittedBy(s, step, k);
        assert Weave(blocks, gaps) + live + more == Weave(blocks, gaps) + (live + more);
      }
    }
  }

  /** The admitted history of a key, in order, is its first reported block, the packets lost
      in the gap before its removal, the second reported block, and so on, and then the
      packets the table still holds. The blocks are contiguous and disjoint. */
  lemma {:induction false} HistoryPartition(h: History, k: FlowKey)
    requires IsRun(h)
    ensures |Gaps(h, k)| == |Blocks(h, k)|
    ensures Admitted(h, k)
         == Weave(Blocks(h, k), Gaps(h, k)) + NotYetHandedOut(Now(h), k, Live(h, k))
  {
    if h.Then? {
      var init := h.before;
      HistoryPartition(init, k);
      PendingEntryOnlyGrows(init, k);
      RunIsConsistent(init);
      PartitionStep(Now(init), h.step, k, Live(init, k), Blocks(init, k), Gaps(init, k));
    }
  }

  lemma RemovesOnlyPending(s: State, step: Step, k: FlowKey)
    requires Enabled(s, step) && step == Remove(k)
    ensures Pending(s, k)
  {
    assert KeysOf(s.out)[s.phase.next..][0] == k;
  }

  lemma RecordsSnoc(out: seq<Entry>, e: Entry, k: FlowKey)
    ensures RecordsIn(out + [e], k) == RecordsIn(out, k) + if e.0 == k then [e.1] else []
  {
    assert (out + [e])[..|out|] == out;
  }

  /** Reading a key's entry reports it, and nothing else reports anything. */
  lemma ReportedStep(s: State, step: Step, k: FlowKey)
    requires Consistent(s) && Enabled(s, step)
    ensures Reported(Apply(s, step), k) == Reported(s, k) + if step == Read(k) then [s.flows[k]] else []
  {
    var t, sent := Apply(s, step), Flatten(s.snapshots);
    match step {
      case Read(key) =>
        var e := (key, s.flows[key]);
        assert sent + (s.out + [e]) == (sent + s.out) + [e];
        RecordsSnoc(sent + s.out, e, k);
      case End =>
        FlattenSnoc(s.snapshots, s.out);
        assert Flatten(t.snapshots) + [] == sent + s.out;
      case _ =>
        assert t.out == s.out;
    }
  }

  ghost predicate RecordsMatch(records: seq<FlowStats>, blocks: seq<seq<Packet>>) {
    |records| == |blocks| && forall i :: 0 <= i < |blocks| ==> Aggregates(records[i], blocks[i])
  }

  lemma {:induction false} RunRecordsMatch(h: History, k: FlowKey)
    requires IsRun(h)
    ensures RecordsMatch(Reported(Now(h), k), Blocks(h, k))
  {
    if h.Then? {
      RunRecordsMatch(h.before, k);
      RunIsConsistent(h.before);
      ReportedStep(Now(h.before), h.step, k);
      EntryAggregatesLive(h.before, k);
    }
  }

  /** The i-th record handed out for a key is the exact aggregate of its i-th block. */
  lemma RecordsAggregateBlocks(h: History, k: FlowKey)
    requires IsRun(h)
    ensures |Reported(Now(h), k)| == |Blocks(h, k)|
    ensures forall i :: 0 <= i < |Blocks(h, k)| ==> Aggregates(Reported(Now(h), k)[i], Blocks(h, k)[i])
  {
    RunRecordsMatch(h, k);
  }

  // --- conservation of packets and bytes ---

  function SumPackets(records: seq<FlowStats>): nat {
    if records == [] then 0 else SumPackets(records[..|records| - 1]) + records[|records| - 1].packets
  }

  function SumBytes(records: seq<FlowStats>): nat {
    if records == [] then 0 else SumBytes(records[..|records| - 1]) + records[|records| - 1].bytes
  }

  /** What the table still holds for k and has not handed out. */
  function Held(s: State, k: FlowKey): seq<FlowStats> {
    if Pending(s, k) || k !in s.flows then [] else [s.flows[k]]
  }

  lemma {:induction false} TotalLenAppend(a: seq<Packet>, b: seq<Packet>)
    ensures TotalLen(a + b) == TotalLen(a) + TotalLen(b)
  {
    if b == [] {
      assert a + b == a;
    } else {
      TotalLenAppend(a, b[..|b| - 1]);
      assert (a + b)[..|a + b| - 1] == a + b[..|b| - 1];
    }
  }

  lemma {:induction false} WeaveTotals(blocks: seq<seq<Packet>>, gaps: seq<seq<Packet>>)
    requires |blocks| == |gaps|
    ensures |Weave(blocks, gaps)| == |Flatten(blocks)| + |Flatten(gaps)|
    ensures TotalLen(Weave(blocks, gaps)) == TotalLen(Flatten(blocks)) + TotalLen(Flatten(gaps))
  {
    if blocks != [] {
      var n := |blocks| - 1;
      WeaveTotals(blocks[..n], gaps[..n]);
      TotalLenAppend(Weave(blocks[..n], gaps[..n]) + blocks[n], gaps[n]);
      TotalLenAppend(Weave(blocks[..n], gaps[..n]), blocks[n]);
      TotalLenAppend(Flatten(blocks[..n]), blocks[n]);
      TotalLenAppend(Flatten(gaps[..n]), gaps[n]);
    }
  }

  lemma {:induction false} ArrivedTotals(h: History, k: FlowKey)
    requires IsRun(h)
    ensures |Arrived(h, k)| == |Admitted(h, k)| + |Dropped(h, k)|
    ensures TotalLen(Arrived(h, k)) == TotalLen(Admitted(h, k)) + TotalLen(Dropped(h, k))
  {
    if h.Then? {
      var init, step := h.before, h.step;
      var s := Now(init);
      ArrivedTotals(init, k);
      TotalLenAppend(Arrived(init, k), ArrivedBy(step, k));
      TotalLenAppend(Admitted(init, k), AdmittedBy(s, step, k));
      TotalLenAppend(Dropped(init, k), DroppedBy(s, step, k));
    }
  }

  lemma {:induction false} SumsOfRecords(records: seq<FlowStats>, blocks: seq<seq<Packet>>)
    requires |records| == |blocks|
    requires forall i :: 0 <= i < |blocks| ==> Aggregates(records[i], blocks[i])
    ensures SumPackets(records) <= |Flatten(blocks)| && SumBytes(records) <= TotalLen(Flatten(blocks))
    ensures SumPackets(records) == |Flatten(blocks)| && SumBytes(records) == TotalLen(Flatten(blocks))
       <==> AllCountable(blocks)
  {
    if blocks != [] {
      var n := |blocks| - 1;
      var init, last := blocks[..n], blocks[n];
      TotalLenAppend(Flatten(init), last);
      SumsOfRecords(records[..n], init);
      ShowsAtMost(records[n], last);
      CountableSnoc(blocks);
    }
  }

  predicate AllCountable(blocks: seq<seq<Packet>>) {
    forall i :: 0 <= i < |blocks| ==> Countable(blocks[i])
  }

  lemma CountableSnoc(blocks: seq<seq<Packet>>)
    requires blocks != []
    ensures AllCountable(blocks) <==> AllCountable(blocks[..|blocks| - 1]) && Countable(blocks[|blocks| - 1])
  {
  }

  /** Neither a record of k that was handed out nor the one in the table outgrew its counters. */
  predicate NothingWrapped(h: History, k: FlowKey)
    requires IsRun(h)
  {
    AllCountable(Blocks(h, k)) && Countable(NotYetHandedOut(Now(h), k, Live(h, k)))
  }

  /** At every moment of every interleaving the records, the table and the losses together never
      count a packet or byte twice, and each has been counted in exactly one of four places: a
      record handed out, the table, the losses at a full table, and the losses between a read
      and its removal, exactly when no single record outgrew its 64-bit counters. */
  lemma TrafficConservation(h: History, k: FlowKey)
    requires IsRun(h)
    ensures PacketsCounted(h, k) <= |Arrived(h, k)| && BytesCounted(h, k) <= TotalLen(Arrived(h, k))
    ensures PacketsCounted(h, k) == |Arrived(h, k)| && BytesCounted(h, k) == TotalLen(Arrived(h, k))
       <==> NothingWrapped(h, k)
  {
    var blocks, gaps := Blocks(h, k), Gaps(h, k);
    var held := NotYetHandedOut(Now(h), k, Live(h, k));
    HistoryPartition(h, k);
    ArrivedTotals(h, k);
    WeaveTotals(blocks, gaps);
    TotalLenAppend(Weave(blocks, gaps), held);
    RecordsAggregateBlocks(h, k);
    SumsOfRecords(Reported(Now(h), k), blocks);
    HeldTotals(h, k);
  }

  /** Packets reported, held, turned away and lost in gaps. */
  function PacketsCounted(h: History, k: FlowKey): nat
    requires IsRun(h)
  {
    SumPackets(Reported(Now(h), k)) + SumPackets(Held(Now(h), k)) + |Dropped(h, k)| + |Flatten(Gaps(h, k))|
  }

  function BytesCounted(h: History, k: FlowKey): nat
    requires IsRun(h)
  {
    SumBytes(Reported(Now(h), k)) + SumBytes(Held(Now(h), k)) + TotalLen(Dropped(h, k)) + TotalLen(Flatten(Gaps(h, k)))
  }

  lemma HeldTotals(h: History, k: FlowKey)
    requires IsRun(h)
    ensures
      var held, shown := NotYetHandedOut(Now(h), k, Live(h, k)), Held(Now(h), k);
      && SumPackets(shown) <= |held| && SumBytes(shown) <= TotalLen(held)
      && (SumPackets(shown) == |held| && SumBytes(shown) == TotalLen(held) <==> Countable(held))
  {
    EntryAggregatesLive(h, k);
    if Held(Now(h), k) != [] {
      var e := Now(h).flows[k];
      ShowsAtMost(e, Live(h, k));
      assert [e][..0] == [];
    }
  }

  // --- every reported record is plausible ---

  lemma PlausibleFront(seen: seq<Packet>, more: seq<Packet>)
    requires Plausible(seen + more)
    ensures Plausible(seen)
    ensures forall p, q :: p in seen && q in more ==> p.at <= q.at
  {
    var all := seen + more;
    assert forall p :: p in seen ==> p in all;
    assert forall i :: 0 <= i < |seen| ==> all[i] == seen[i];
    forall p, q | p in seen && q in more
      ensures p.at <= q.at
    {
      var i :| 0 <= i < |seen| && seen[i] == p;
      var j :| 0 <= j < |more| && more[j] == q;
      assert all[i] == p && all[|seen| + j] == q;
    }
  }

  /** One packet more, later than the others. */
  lemma PlausibleSnoc(live: seq<Packet>, seen: seq<Packet>, more: seq<Packet>)
    requires Plausible(seen + more) && Plausible(live) && |more| <= 1
    requires forall p :: p in live ==> p in seen
    ensures Plausible(live + more)
  {
    PlausibleFront(seen, more);
    assert forall p :: p in more ==> p in seen + more;
  }

  lemma {:induction false} LivePlausible(h: History, k: FlowKey)
    requires IsRun(h) && Plausible(Arrived(h, k))
    ensures Plausible(Live(h, k)) && forall p :: p in Live(h, k) ==> p in Arrived(h, k)
  {
    if h.Then? {
      PlausibleFront(Arrived(h.before, k), ArrivedBy(h.step, k));
      LivePlausible(h.before, k);
      LivePlausibleStep(Now(h.before), h.step, k, Live(h.before, k), Arrived(h.before, k));
    }
  }

  lemma LivePlausibleStep(s: State, step: Step, k: FlowKey, live: seq<Packet>, seen: seq<Packet>)
    requires Plausible(seen + ArrivedBy(step, k)) && Plausible(live)
    requires forall p :: p in live ==> p in seen
    ensures Plausible(LiveAfter(s, step, k, live))
    ensures forall p :: p in LiveAfter(s, step, k, live) ==> p in seen + ArrivedBy(step, k)
  {
    PlausibleSnoc(live, seen, ArrivedBy(step, k));
    assert live + [] == live;
  }

  lemma {:induction false} BlocksPlausible(h: History, k: FlowKey)
    requires IsRun(h) && Plausible(Arrived(h, k))
    ensures forall i :: 0 <= i < |Blocks(h, k)| ==> Plausible(Blocks(h, k)[i])
  {
    if h.Then? {
      PlausibleFront(Arrived(h.before, k), ArrivedBy(h.step, k));
      BlocksPlausible(h.before, k);
      LivePlausible(h.before, k);
    }
  }

  lemma {:induction false} RecordIsReported(out: seq<Entry>, e: Entry)
    requires e in out
    ensures e.1 in RecordsIn(out, e.0)
  {
    var n := |out| - 1;
    if e != out[n] {
      assert e in out[..n];
      RecordIsReported(out[..n], e);
    }
  }

  lemma {:induction false} InFlattened(snapshots: seq<seq<Entry>>, i: nat, e: Entry)
    requires i < |snapshots| && e in snapshots[i]
    ensures e in Flatten(snapshots)
  {
    if i < |snapshots| - 1 {
      InFlattened(snapshots[..|snapshots| - 1], i, e);
    }
  }

  /** Every record of every snapshot of every run obeys the bounds, if the packets of its flow
      arrived in the order of the clock and it did not outgrow its counters. */
  lemma SnapshotsWithinBounds(h: History, i: nat, e: Entry)
    requires IsRun(h) && i < |Now(h).snapshots| && e in Now(h).snapshots[i]
    requires Plausible(Arrived(h, e.0)) && AllCountable(Blocks(h, e.0))
    ensures WithinBounds(e.1)
  {
    var k, sent := e.0, Flatten(Now(h).snapshots) + Now(h).out;
    InFlattened(Now(h).snapshots, i, e);
    assert e in sent;
    RecordIsReported(sent, e);
    var j :| 0 <= j < |Reported(Now(h), k)| && Reported(Now(h), k)[j] == e.1;
    RecordsAggregateBlocks(h, k);
    BlocksPlausible(h, k);
    RecordBounds(e.1, Blocks(h, k)[j]);
  }

  // --- when the snapshots are exact deltas ---

  /** No packet of k arrives between a read of k and its removal, or finds a full table. */
  predicate LossFree(h: History, k: FlowKey)
    requires IsRun(h)
  {
    h.Boot? ||
    (LossFree(h.before, k) &&
     (h.step.Arrive? && h.step.p.key == k ==>
       !Pending(Now(h.before), k) && Admits(Now(h.before).flows, k)))
  }

  lemma {:induction false} LossFreeMeansNoLosses(h: History, k: FlowKey)
    requires IsRun(h)
    ensures LossFree(h, k) <==> Dropped(h, k) == [] && Flatten(Gaps(h, k)) == []
  {
    if h.Then? {
      var init := h.before;
      var gaps := Gaps(init, k);
      LossFreeMeansNoLosses(init, k);
      PendingEntryOnlyGrows(init, k);
      RunIsConsistent(init);
      if h.step == Read(k) {
        FlattenSnoc(gaps, []);
      } else if Pending(Now(init), k) {
        FlattenAppendToLast(gaps, ArrivedBy(h.step, k));
      }
    }
  }

  lemma FlattenAppendToLast(gaps: seq<seq<Packet>>, more: seq<Packet>)
    requires gaps != []
    ensures Flatten(AppendToLast(gaps, more)) == Flatten(gaps) + more
  {
    var n := |gaps| - 1;
    assert AppendToLast(gaps, more)[..n] == gaps[..n];
    assert Flatten(gaps[..n]) + (gaps[n] + more) == Flatten(gaps[..n]) + gaps[n] + more;
  }

  /** Each snapshot is the exact delta since the previous drain, that is, the blocks
      reported for k and what the table holds make up all that ever arrived for k,
      if and only if the schedule is loss-free for k. */
  lemma SnapshotsAreDeltas(h: History, k: FlowKey)
    requires IsRun(h)
    ensures LossFree(h, k)
       <==> Arrived(h, k) == Flatten(Blocks(h, k)) + NotYetHandedOut(Now(h), k, Live(h, k))
  {
    LossFreeMeansNoLosses(h, k);
    HistoryPartition(h, k);
    ArrivedTotals(h, k);
    WeaveTotals(Blocks(h, k), Gaps(h, k));
    if LossFree(h, k) {
      NothingDropped(h, k);
      WeaveWithoutGaps(Blocks(h, k), Gaps(h, k));
    }
  }

  lemma {:induction false} NothingDropped(h: History, k: FlowKey)
    requires IsRun(h)
    requires Dropped(h, k) == []
    ensures Arrived(h, k) == Admitted(h, k)
  {
    if h.Then? {
      NothingDropped(h.before, k);
    }
  }

  lemma {:induction false} WeaveWithoutGaps(blocks: seq<seq<Packet>>, gaps: seq<seq<Packet>>)
    requires |blocks| == |gaps|
    requires Flatten(gaps) == []
    ensures Weave(blocks, gaps) == Flatten(blocks)
  {
    if blocks != [] {
      WeaveWithoutGaps(blocks[..|blocks| - 1], gaps[..|gaps| - 1]);
    }
  }

  /** The schedule behind the exception: a drain in which one more packet of k lands between
      k's read and its removal. */
  function RacedDrain(p: Packet): History {
    Then(Then(Then(Then(Then(Then(Then(Boot,
      Arrive(p)), Start), Read(p.key)), ReadDone), Arrive(p)), Remove(p.key)), End)
  }

  lemma Extend(h: History, s: State, step: Step)
    requires IsRun(h) && Now(h) == s && Enabled(s, step)
    ensures IsRun(Then(h, step)) && Now(Then(h, step)) == Apply(s, step)
  {
  }

  /** Both packets arrived, one was reported, and the table is empty: the second is lost. */
  lemma GapPacketIsLost(p: Packet)
    ensures
      var h := RacedDrain(p);
      && IsRun(h)
      && Now(h) == State(map[], Idle, [], [[(p.key, FreshEntry(p))]])
      && Arrived(h, p.key) == [p, p]
      && !LossFree(h, p.key)
  {
    var k, e, grown := p.key, FreshEntry(p), GrownEntry(FreshEntry(p), p);
    assert KeysOf([(k, e)]) == [k];
    var h0 := Then(Boot, Arrive(p));
    Extend(Boot, State(map[], Idle, [], []), Arrive(p));
    var s0 := State(map[k := e], Idle, [], []);
    assert s0.flows.Keys == {k};
    Extend(h0, s0, Start);
    var s1 := State(map[k := e], Reading({k}), [], []);
    Extend(Then(h0, Start), s1, Read(k));
    var h2, s2 := Then(Then(h0, Start), Read(k)), State(map[k := e], Reading({k}), [(k, e)], []);
    Extend(h2, s2, ReadDone);
    var h3, s3 := Then(h2, ReadDone), s2.(phase := Removing(0));
    Extend(h3, s3, Arrive(p));
    var h4, s4 := Then(h3, Arrive(p)), s3.(flows := map[k := grown]);
    assert Pending(s3, k);
    assert !LossFree(h4, k);
    Extend(h4, s4, Remove(k));
    var s5 := State(map[], Removing(1), [(k, e)], []);
    assert Apply(s4, Remove(k)) == s5;
    Extend(Then(h4, Remove(k)), s5, End);
    ArrivedInRace(p);
  }

  lemma ArrivedInRace(p: Packet)
    ensures Arrived(RacedDrain(p), p.key) == [p, p]
  {
    var counted := Then(Boot, Arrive(p));
    assert Arrived(counted, p.key) == [p];
    var collected := Then(Then(counted, Start), Read(p.key));
    assert Arrived(collected, p.key) == [p];
    var raced := Then(Then(collected, ReadDone), Arrive(p));
    assert Arrived(raced, p.key) == [p] + [p];
  }

  /** The schedule behind the other exception: packets of n flows, none of them k. */
  function Filling(k: FlowKey, n: nat): History
    requires n <= CAPACITY
  {
    if n == 0 then Boot else Then(Filling(k, n - 1), Arrive(Packet(OtherKey(k, n - 1), 60, 0, 0)))
  }

  function OtherKey(k: FlowKey, i: nat): FlowKey
    requires i < CAPACITY
  {
    FlowKey(i, if k.dstIp == 0 then 1 else 0, 0, 0, 0)
  }

  /** After h the idle table holds n flows, none of them k, and no packet of k has come. */
  predicate HoldsOthers(h: History, k: FlowKey, n: nat) {
    && IsRun(h) && Now(h).phase == Idle && |Now(h).flows| == n
    && (forall q :: q in Now(h).flows ==> q.srcIp < n && q.dstIp != k.dstIp)
    && Arrived(h, k) == [] && Dropped(h, k) == []
  }

  lemma OneFlowMore(h: History, k: FlowKey, n: nat)
    requires n < CAPACITY && HoldsOthers(h, k, n)
    ensures HoldsOthers(Then(h, Arrive(Packet(OtherKey(k, n), 60, 0, 0))), k, n + 1)
  {
    var p := Packet(OtherKey(k, n), 60, 0, 0);
    NewEntry(Now(h).flows, p);
    Extend(h, Now(h), Arrive(p));
  }

  lemma {:induction false} FillingIsFull(k: FlowKey, n: nat)
    requires n <= CAPACITY
    ensures HoldsOthers(Filling(k, n), k, n)
  {
    if n > 0 {
      FillingIsFull(k, n - 1);
      OneFlowMore(Filling(k, n - 1), k, n - 1);
    }
  }

  lemma NewEntry(flows: map<FlowKey, FlowStats>, p: Packet)
    requires p.key !in flows && |flows| < 10_240
    ensures AfterPacket(flows, p).Keys == flows.Keys + {p.key}
    ensures |AfterPacket(flows, p)| == |flows| + 1
  {
    var after := AfterPacket(flows, p);
    assert |after| == |after.Keys| && |flows| == |flows.Keys|;
  }

  /** The table is full of other flows, and the packet is counted nowhere. */
  lemma FullTablePacketIsLost(p: Packet)
    ensures
      var before := Filling(p.key, CAPACITY);
      var h := Then(before, Arrive(p));
      && IsRun(h) && Now(h) == Now(before)
      && Arrived(h, p.key) == [p] && Dropped(h, p.key) == [p]
      && !LossFree(h, p.key)
  {
    FillingIsFull(p.key, CAPACITY);
    assert [] + [p] == [p];
  }

  // --- a drain that no packet interrupts ---

  /** Mid-drain, with f the table when the drain began and no packet since. */
  ghost predicate Undisturbed(f: map<FlowKey, FlowStats>, s: State) {
    && Consistent(s)
    && (forall e :: e in s.out ==> e.0 in f && e.1 == f[e.0])
    && match s.phase
       case Idle => false
       case Reading(start) => s.flows == f && start == f.Keys
       case Removing(next) =>
         && (forall k :: k in f ==> k in KeysOf(s.out))
         && (forall k :: k in s.flows <==> k in f && k !in KeysOf(s.out)[..next])
  }

  lemma UndisturbedStep(f: map<FlowKey, FlowStats>, s: State, step: Step)
    requires Undisturbed(f, s) && Enabled(s, step) && !step.Arrive? && step != End
    ensures Undisturbed(f, Apply(s, step))
  {
    StepKeepsConsistent(s, step);
    if step.Remove? {
      UndisturbedRemove(f, s, step.key);
    } else if step == ReadDone {
      assert KeysOf(s.out)[..0] == [];
      forall k | k in s.flows
        ensures k in KeysOf(s.out)
      {
        assert k in s.phase.start;
      }
    }
  }

  lemma UndisturbedRemove(f: map<FlowKey, FlowStats>, s: State, key: FlowKey)
    requires Undisturbed(f, s) && Enabled(s, Remove(key))
    ensures forall k :: k in s.flows - {key} <==> k in f && k !in KeysOf(s.out)[..s.phase.next + 1]
  {
    TakeMembers(KeysOf(s.out), s.phase.next);
    assert key == KeysOf(s.out)[s.phase.next];
  }

  lemma TakeMembers(keys: seq<FlowKey>, n: nat)
    requires n < |keys|
    ensures forall k :: k in keys[..n + 1] <==> k in keys[..n] || k == keys[n]
  {
    assert keys[..n + 1] == keys[..n] + [keys[n]];
  }

  /** h goes on from `base` by drain operations alone: no packet, and the drain has not ended. */
  predicate QuietSince(base: History, h: History) {
    h == base || (h.Then? && !h.step.Arrive? && h.step != End && QuietSince(base, h.before))
  }

  /** The list holds every entry of the table, once, as it is in the table, and nothing else. */
  predicate ListsAll(out: seq<Entry>, f: map<FlowKey, FlowStats>) {
    && Distinct(out)
    && (forall e :: e in out ==> e.0 in f && e.1 == f[e.0])
    && (forall k :: k in f ==> (k, f[k]) in out)
  }

  lemma {:induction false} UndisturbedRun(f: map<FlowKey, FlowStats>, base: History, h: History)
    requires QuietSince(base, h) && IsRun(h)
    requires IsRun(base) && Undisturbed(f, Now(base))
    ensures Undisturbed(f, Now(h))
  {
    if h != base {
      UndisturbedRun(f, base, h.before);
      UndisturbedStep(f, Now(h.before), h.step);
    }
  }

  /** With no packet in the way, a drain hands out the whole table, each entry once and as it
      was, and leaves the table empty. */
  lemma QuietDrainTakesAll(before: History, h: History)
    requires IsRun(Then(before, Start)) && QuietSince(Then(before, Start), h)
    requires IsRun(h) && Enabled(Now(h), End)
    ensures Now(h).flows == map[]
    ensures ListsAll(Now(h).out, Now(before).flows)
  {
    var f := Now(before).flows;
    RunIsConsistent(before);
    StepKeepsConsistent(Now(before), Start);
    UndisturbedRun(f, Then(before, Start), h);
    UndisturbedEnd(f, Now(h));
  }

  lemma UndisturbedEnd(f: map<FlowKey, FlowStats>, s: State)
    requires Undisturbed(f, s) && Enabled(s, End)
    ensures s.flows == map[]
    ensures ListsAll(s.out, f)
  {
    var keys := KeysOf(s.out);
    assert keys[..|s.out|] == keys;
    assert s.flows.Keys == {};
    forall k | k in f
      ensures (k, f[k]) in s.out
    {
      var i :| 0 <= i < |keys| && keys[i] == k;
      assert s.out[i] in s.out && s.out[i].0 == k;
    }
  }
}
