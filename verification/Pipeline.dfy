/** One tick of the drain timer (lanscope/src/capture/ebpf.rs) with the handling of the event it
    sends (lanscope/src/app.rs): the handler is given exactly the drained snapshots. */
module Pipeline {
  import opened Prelude
  import opened NetFmt
  import opened FlowCounters
  import opened EndToEnd
  import opened WireToRegistry
  import opened AppHandler
  import opened KernelTable
  import D = Drain
  import A = App
  import Signals

  // --- what the calls of the handler add to the records it was given ---

  lemma {:induction false} CountsAllEntries(h: A.History, after: A.History, flows: seq<D.Entry>, now: int)
    requires CountsAll(h, after, flows, now)
    ensures EntriesOf(after) == EntriesOf(h) + flows
  {
    if flows == [] {
      assert EntriesOf(h) + [] == EntriesOf(h);
    } else {
      var n := |flows| - 1;
      CountsAllEntries(h, after.before, flows[..n], now);
      assert flows == flows[..n] + [flows[n]];
      assert EntriesOf(h) + flows[..n] + [flows[n]] == EntriesOf(h) + (flows[..n] + [flows[n]]);
    }
  }

  lemma {:induction false} SightsAllEntries(h: A.History, after: A.History, observations: seq<Signals.Observation>, now: int)
    requires SightsAll(h, after, observations, now)
    ensures EntriesOf(after) == EntriesOf(h)
  {
    if observations != [] {
      SightsAllEntries(h, after.before, observations[..|observations| - 1], now);
    }
  }

  lemma {:induction false} FlushEntries(h: A.History, order: seq<Mac>)
    ensures EntriesOf(FlushSteps(h, order)) == EntriesOf(h)
  {
    if order != [] {
      FlushEntries(h, order[..|order| - 1]);
    }
  }

  lemma DrainedEntries(s: seq<seq<D.Entry>>, out: seq<D.Entry>)
    ensures Flatten(s + if out == [] then [] else [out]) == Flatten(s) + out
  {
    if out == [] {
      assert s + [] == s && Flatten(s) + [] == Flatten(s);
    } else {
      FlattenSnoc(s, out);
    }
  }

  /** Drain the table, and handle the snapshot if there is anything in it. Whatever arrives
      meanwhile, the records the handler was ever given remain the snapshots ever drained. */
  method Tick(table: FlowTable, agent: Agent, env: nat -> Packet, due: nat -> nat, now: int,
              ghost d: D.History, ghost h: A.History)
    returns (ghost d': D.History, ghost h': A.History)
    requires D.IsRun(d) && D.Now(d).flows == table.flows
    requires agent.Ready() && agent.Follows(h)
    requires Rising(due) && Delivered(d, h)
    modifies table, agent.registry`devices, agent.store, agent.engine.scan`seen, agent.engine.spike
    ensures D.IsRun(d') && D.Now(d').flows == table.flows && agent.Follows(h')
    ensures Delivered(d', h')
    ensures exists n :: OneDrain(d, d', env, due(n))
    ensures exists out :: EntriesOf(h') == EntriesOf(h) + out && CountsAll(h, h', out, now)
  {
    var out;
    out, d' := table.DrainFlows(env, due, d);
    DrainedEntries(D.Now(d).snapshots, out);
    h' := h;
    if out != [] {
      var n;
      n, h' := agent.HandleEvent(Flows(out), now, h);
    }
    CountsAllEntries(h, h', out, now);
  }
}
