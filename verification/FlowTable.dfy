/** The flow table as the program updates it: `update_flow` in place, and the two loops of
    `drain_flows`, with the packets that arrive before each table operation as a parameter. */
module KernelTable {
  import opened Prelude
  import opened FlowCounters
  import opened Drain

  method AccumulateFlags(stats: FlowStats, flags: bv8) returns (s: FlowStats)
    ensures s == WithFlags(stats, flags)
  {
    s := stats;
    if flags & 0x02 != 0 {
      s := s.(syn := Add32(s.syn, 1));
    }
    if flags & 0x01 != 0 {
      s := s.(fin := Add32(s.fin, 1));
    }
    if flags & 0x04 != 0 {
      s := s.(rst := Add32(s.rst, 1));
    }
    if flags & 0x10 != 0 {
      s := s.(ack := Add32(s.ack, 1));
    }
  }

  class FlowTable {
    var flows: map<FlowKey, FlowStats>

    constructor ()
      ensures flows == map[]
    {
      flows := map[];
    }

    method UpdateFlow(key: FlowKey, pktLen: u64, flags: bv8, now: u64)
      modifies this
      ensures flows == AfterPacket(old(flows), Packet(key, pktLen, flags, now))
    {
      var len16 := if pktLen > 0xffff then 0xffff else pktLen;
      if key in flows {
        var stats := flows[key];
        stats := stats.(packets := Add64(stats.packets, 1));
        stats := stats.(bytes := Add64(stats.bytes, pktLen));
        stats := stats.(lastSeen := now);
        if len16 < stats.minLen {
          stats := stats.(minLen := len16);
        }
        if len16 > stats.maxLen {
          stats := stats.(maxLen := len16);
        }
        stats := AccumulateFlags(stats, flags);
        flows := flows[key := stats];
      } else {
        var stats := FlowStats(1, pktLen, now, now, 0, 0, 0, 0, len16, len16);
        stats := AccumulateFlags(stats, flags);
        if |flows| < CAPACITY {
          flows := flows[key := stats];
        }
      }
    }

    /** The kernel handling packet i of the traffic. */
    method ReceiveOne(env: nat -> Packet, i: nat, ghost part: Part, ghost base: History, ghost h: History)
      returns (ghost after: History)
      requires IsRun(h) && Within(part, base, h, env, i)
      requires Now(h).flows == flows
      modifies this
      ensures IsRun(after) && Within(part, base, after, env, i + 1)
      ensures Now(after) == Now(h).(flows := flows)
      ensures old(flows.Keys) <= flows.Keys
    {
      var p := env(i);
      ArrivalKeepsKeys(flows, p);
      Arrives(part, base, h, env, i);
      UpdateFlow(p.key, p.len, p.flags, p.at);
      after := Then(h, Arrive(p));
    }

    /** The kernel handling packets m to n - 1 of the traffic. */
    method Receive(env: nat -> Packet, m: nat, n: nat, ghost part: Part, ghost base: History, ghost h: History)
      returns (ghost after: History)
      requires m <= n && IsRun(h) && Within(part, base, h, env, m)
      requires Now(h).flows == flows
      modifies this
      ensures IsRun(after) && Within(part, base, after, env, n)
      ensures Now(after) == Now(h).(flows := flows)
      ensures old(flows.Keys) <= flows.Keys
    {
      after := h;
      for i := m to n
        invariant IsRun(after) && Within(part, base, after, env, i)
        invariant Now(after) == Now(h).(flows := flows)
        invariant old(flows.Keys) <= flows.Keys
      {
        after := ReceiveOne(env, i, part, base, after);
      }
    }

    method CopyEntry(key: FlowKey, env: nat -> Packet, m: nat, ghost base: History, ghost h: History)
      returns (ghost after: History)
      requires IsRun(h) && Within(FirstPass, base, h, env, m)
      requires Now(h).flows == flows && Enabled(Now(h), Read(key))
      ensures IsRun(after) && Within(FirstPass, base, after, env, m)
      ensures Now(after) == Now(h).(out := Now(h).out + [(key, flows[key])])
      ensures |Now(h).out| < CAPACITY
    {
      ReadFits(h, key);
      after := Then(h, Read(key));
    }

    method RemoveEntry(key: FlowKey, env: nat -> Packet, m: nat, ghost base: History, ghost h: History)
      returns (ghost after: History)
      requires IsRun(h) && Within(SecondPass, base, h, env, m)
      requires Now(h).flows == flows && Enabled(Now(h), Remove(key))
      modifies this
      ensures IsRun(after) && Within(SecondPass, base, after, env, m)
      ensures Now(after) == Apply(Now(h), Remove(key)) && Now(after).flows == flows
    {
      flows := flows - {key};
      after := Then(h, Remove(key));
    }

    /** First pass of a drain: copy every entry. The cursor may or may not meet late arrivals. */
    method CopyEntries(env: nat -> Packet, due: nat -> nat, ghost base: History, ghost h: History)
      returns (out: seq<Entry>, m: nat, ghost after: History)
      requires IsRun(h) && Within(FirstPass, base, h, env, 0)
      requires Now(h).flows == flows && Now(h).phase == Reading(flows.Keys) && Now(h).out == []
      requires Rising(due)
      modifies this
      ensures IsRun(after) && Within(FirstPass, base, after, env, m)
      ensures Now(after) == Now(h).(flows := flows, out := out)
      ensures Enabled(Now(after), ReadDone) && Copied(old(flows.Keys), out)
      ensures m == due(|out|)
    {
      var start := flows.Keys;  // what the cursor is sure to meet
      after := h;
      out, m := [], 0;
      while true
        invariant IsRun(after) && Within(FirstPass, base, after, env, m)
        invariant Now(after) == Now(h).(flows := flows, out := out)
        invariant start <= flows.Keys && m <= due(|out|)
        decreases CAPACITY - |out|
      {
        after := Receive(env, m, due(|out|), FirstPass, base, after);
        m := due(|out|);
        if Copied(flows.Keys, out) {
          CopiedSubset(start, flows.Keys, out);
          return;
        }
        if Copied(start, out) {
          if * {
            return;
          }
        }
        var key :| key in flows && key !in KeysOf(out);
        after := CopyEntry(key, env, m, base, after);
        out := out + [(key, flows[key])];
      }
    }

    /** Second pass: remove what was copied, `ops` table operations into the drain. */
    method RemoveEntries(out: seq<Entry>, env: nat -> Packet, due: nat -> nat, ops: nat,
                         ghost base: History, ghost h: History)
      returns (m: nat, ghost after: History)
      requires IsRun(h) && Within(SecondPass, base, h, env, due(ops))
      requires Now(h).flows == flows && Now(h).phase == Removing(0) && Now(h).out == out
      requires Rising(due)
      modifies this
      ensures IsRun(after) && Within(SecondPass, base, after, env, m)
      ensures Now(after) == Now(h).(flows := flows, phase := Removing(|out|))
      ensures m == due(ops + |out|)
    {
      after := h;
      m := due(ops);
      for i := 0 to |out|
        invariant IsRun(after) && Within(SecondPass, base, after, env, m)
        invariant Now(after) == Now(h).(flows := flows, phase := Removing(i))
        invariant m == due(ops + i)
      {
        after := Receive(env, m, due(ops + i + 1), SecondPass, base, after);
        m := due(ops + i + 1);
        after := RemoveEntry(out[i].0, env, m, base, after);
      }
    }

    /** One drain, as a run of table operations that continues the history `before`. The
        traffic is env(0), env(1), ...; due(i) of its packets have arrived by the i-th table
        operation: the cursor is asked once for each entry and once more at its end, and then
        each entry is removed. */
    method DrainFlows(env: nat -> Packet, due: nat -> nat, ghost before: History)
      returns (out: seq<Entry>, ghost after: History)
      requires IsRun(before) && Now(before).flows == flows && Now(before).phase == Idle
      requires Rising(due)
      modifies this
      ensures IsRun(after) && OneDrain(before, after, env, due(2 * |out|))
      ensures Now(after)
           == State(flows, Idle, [], Now(before).snapshots + if out == [] then [] else [out])
      ensures Copied(old(flows.Keys), out)
    {
      var m;
      StartsDrain(before, env);
      after := Then(before, Start);
      out, m, after := CopyEntries(env, due, before, after);
      SwitchesPass(before, after, env, m);
      after := Then(after, ReadDone);
      m, after := RemoveEntries(out, env, due, |out|, before, after);
      assert m == due(2 * |out|);
      EndsDrain(before, after, env, m);
      after := Then(after, End);
    }
  }

  /** How many packets have arrived by each table operation. */
  ghost predicate Rising(due: nat -> nat) {
    forall i: nat, j: nat :: i <= j ==> due(i) <= due(j)
  }

  datatype Part = FirstPass | SecondPass

  /** h continues `base` by a drain that has not ended: its start and the reads so far, or all
      of the first pass and the removals so far. Between them there are arrivals only, and they
      are the first m packets of env. */
  ghost predicate Within(part: Part, base: History, h: History, env: nat -> Packet, m: nat)
    decreases h
  {
    h.Then? &&
    match h.step
    case Start => part == FirstPass && h.before == base && m == 0
    case Arrive(p) => m > 0 && p == env(m - 1) && Within(part, base, h.before, env, m - 1)
    case Read(_) => part == FirstPass && Within(FirstPass, base, h.before, env, m)
    case ReadDone => part == SecondPass && Within(FirstPass, base, h.before, env, m)
    case Remove(_) => part == SecondPass && Within(SecondPass, base, h.before, env, m)
    case End => false
  }

  /** h continues `base` by one complete drain, during which the first m packets of env arrived. */
  ghost predicate OneDrain(base: History, h: History, env: nat -> Packet, m: nat) {
    h.Then? && h.step == End && Within(SecondPass, base, h.before, env, m)
  }

  lemma Arrives(part: Part, base: History, h: History, env: nat -> Packet, i: nat)
    requires IsRun(h) && Within(part, base, h, env, i)
    ensures
      var after := Then(h, Arrive(env(i)));
      && IsRun(after) && Within(part, base, after, env, i + 1)
      && Now(after) == Now(h).(flows := AfterPacket(Now(h).flows, env(i)))
  {
  }

  lemma StartsDrain(base: History, env: nat -> Packet)
    requires IsRun(base) && Now(base).phase == Idle
    ensures IsRun(Then(base, Start)) && Within(FirstPass, base, Then(base, Start), env, 0)
    ensures Now(Then(base, Start)) == Now(base).(phase := Reading(Now(base).flows.Keys), out := [])
  {
  }

  lemma SwitchesPass(base: History, h: History, env: nat -> Packet, m: nat)
    requires IsRun(h) && Within(FirstPass, base, h, env, m) && Enabled(Now(h), ReadDone)
    ensures IsRun(Then(h, ReadDone)) && Within(SecondPass, base, Then(h, ReadDone), env, m)
    ensures Now(Then(h, ReadDone)) == Now(h).(phase := Removing(0))
  {
  }

  lemma EndsDrain(base: History, h: History, env: nat -> Packet, m: nat)
    requires IsRun(h) && Within(SecondPass, base, h, env, m) && Now(h).phase == Removing(|Now(h).out|)
    ensures IsRun(Then(h, End)) && OneDrain(base, Then(h, End), env, m)
    ensures
      var s := Now(h);
      Now(Then(h, End))
      == State(s.flows, Idle, [], s.snapshots + if s.out == [] then [] else [s.out])
  {
  }

  lemma ArrivalKeepsKeys(flows: map<FlowKey, FlowStats>, p: Packet)
    ensures flows.Keys <= AfterPacket(flows, p).Keys
  {
  }

  lemma CopiedSubset(a: set<FlowKey>, b: set<FlowKey>, out: seq<Entry>)
    requires a <= b && Copied(b, out)
    ensures Copied(a, out)
  {
  }

  /** A read finds room: collected keys are distinct and all still in the table. */
  lemma ReadFits(h: History, key: FlowKey)
    requires IsRun(h) && Enabled(Now(h), Read(key))
    ensures |Now(h).out| < CAPACITY
  {
    RunIsConsistent(h);
    CopiesFit(Now(h), key);
  }

  lemma CopiesFit(s: State, key: FlowKey)
    requires Consistent(s) && Enabled(s, Read(key))
    ensures |s.out| < CAPACITY
  {
    var keys := KeysOf(s.out);
    assert forall i :: 0 <= i < |keys| ==> keys[i] == s.out[i].0;
    DistinctKeys(keys);
    var copied := set k | k in keys;
    assert copied + {key} <= s.flows.Keys by {
      forall k | k in copied
        ensures k in s.flows
      {
        assert Pending(s, k);
      }
    }
    SubsetSize(copied + {key}, s.flows.Keys);
    assert |s.flows| == |s.flows.Keys|;
  }

  lemma {:induction false} DistinctKeys(keys: seq<FlowKey>)
    requires forall i, j :: 0 <= i < j < |keys| ==> keys[i] != keys[j]
    ensures |set k | k in keys| == |keys|
  {
    if keys != [] {
      var n := |keys| - 1;
      DistinctKeys(keys[..n]);
      assert (set k | k in keys) == (set k | k in keys[..n]) + {keys[n]};
    }
  }

  lemma {:induction false} SubsetSize(a: set<FlowKey>, b: set<FlowKey>)
    requires a <= b
    ensures |a| <= |b|
  {
    if a != {} {
      var k :| k in a;
      SubsetSize(a - {k}, b - {k});
    }
  }
}
