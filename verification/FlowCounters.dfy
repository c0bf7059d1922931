/** Per-flow packet counters as the XDP program keeps them: `update_flow` and
    `accumulate_flags` of lanscope-ebpf/src/main.rs over the `FlowStats` record.
    The kernel program is built without overflow checks, so counters wrap. */
module FlowCounters {
  import opened Prelude

  /** Entries the kernel's flow table can hold. */
  const CAPACITY: nat := 10_240

  const FIN: bv8 := 0x01
  const SYN: bv8 := 0x02
  const RST: bv8 := 0x04
  const ACK: bv8 := 0x10

  datatype FlowKey = FlowKey(srcIp: u32, dstIp: u32, srcPort: u16, dstPort: u16, protocol: byte)

  datatype FlowStats = FlowStats(
    packets: u64, bytes: u64, firstSeen: u64, lastSeen: u64,
    syn: u32, fin: u32, rst: u32, ack: u32, minLen: u16, maxLen: u16)

  /** One call of `update_flow`, with the kernel clock at that moment. */
  datatype Packet = Packet(key: FlowKey, len: u64, flags: bv8, at: u64)

  /** The length, or the largest 16-bit value below it. */
  function ClampLen(len: u64): (clamped: u16)
    ensures clamped <= len && (clamped == len || clamped == 65535)
  {
    if len > 0xffff then 0xffff else len
  }

  // --- what an entry means: the aggregate of a non-empty block of packets ---

  function TotalLen(block: seq<Packet>): nat {
    if block == [] then 0 else TotalLen(block[..|block| - 1]) + block[|block| - 1].len
  }

  /** The bit of the packet's flag byte, the lowest being bit 0, is set. */
  predicate HasFlag(p: Packet, bit: nat)
    requires bit < 8
  {
    (p.flags >> bit) & 1 == 1
  }

  function CountFlag(block: seq<Packet>, bit: nat): nat
    requires bit < 8
  {
    if block == [] then 0
    else CountFlag(block[..|block| - 1], bit) + if HasFlag(block[|block| - 1], bit) then 1 else 0
  }

  /** The block is one that 64-bit counters can hold. */
  predicate Countable(block: seq<Packet>) {
    |block| < 0x1_0000_0000_0000_0000 && TotalLen(block) < 0x1_0000_0000_0000_0000
  }

  predicate IsShortest(block: seq<Packet>, len: int) {
    && (exists p :: p in block && ClampLen(p.len) == len)
    && (forall p :: p in block ==> len <= ClampLen(p.len))
  }

  predicate IsLongest(block: seq<Packet>, len: int) {
    && (exists p :: p in block && ClampLen(p.len) == len)
    && (forall p :: p in block ==> ClampLen(p.len) <= len)
  }

  /** The record says, field by field, what the block of packets was. */
  ghost predicate Aggregates(s: FlowStats, block: seq<Packet>) {
    && block != []
    && s.packets == Wrap64(|block|)
    && s.bytes == Wrap64(TotalLen(block))
    && s.firstSeen == block[0].at
    && s.lastSeen == block[|block| - 1].at
    && s.syn == Wrap32(CountFlag(block, 1))
    && s.fin == Wrap32(CountFlag(block, 0))
    && s.rst == Wrap32(CountFlag(block, 2))
    && s.ack == Wrap32(CountFlag(block, 4))
    && IsShortest(block, s.minLen)
    && IsLongest(block, s.maxLen)
  }

  // --- what one packet does to an entry ---

  function WithFlags(s: FlowStats, flags: bv8): FlowStats {
    s.(syn := if flags & SYN != 0 then Add32(s.syn, 1) else s.syn,
       fin := if flags & FIN != 0 then Add32(s.fin, 1) else s.fin,
       rst := if flags & RST != 0 then Add32(s.rst, 1) else s.rst,
       ack := if flags & ACK != 0 then Add32(s.ack, 1) else s.ack)
  }

  function FreshEntry(p: Packet): FlowStats {
    WithFlags(FlowStats(1, p.len, p.at, p.at, 0, 0, 0, 0, ClampLen(p.len), ClampLen(p.len)), p.flags)
  }

  function GrownEntry(s: FlowStats, p: Packet): FlowStats {
    var len := ClampLen(p.len);
    WithFlags(
      s.(packets := Add64(s.packets, 1),
         bytes := Add64(s.bytes, p.len),
         lastSeen := p.at,
         minLen := if len < s.minLen then len else s.minLen,
         maxLen := if len > s.maxLen then len else s.maxLen),
      p.flags)
  }

  /** FIN, SYN, RST and ACK are bits 0, 1, 2 and 4. */
  lemma FlagBits(p: Packet)
    ensures p.flags & FIN != 0 <==> HasFlag(p, 0)
    ensures p.flags & SYN != 0 <==> HasFlag(p, 1)
    ensures p.flags & RST != 0 <==> HasFlag(p, 2)
    ensures p.flags & ACK != 0 <==> HasFlag(p, 4)
  {
  }

  lemma FreshEntryAggregates(p: Packet)
    ensures Aggregates(FreshEntry(p), [p])
  {
    FlagBits(p);
    assert [p][..0] == [];
    assert p in [p];
  }

  lemma Wrap64Add(a: nat, b: u64)
    ensures Add64(Wrap64(a), b) == Wrap64(a + b)
  {
    var q, r := a / 0x1_0000_0000_0000_0000, a % 0x1_0000_0000_0000_0000;
    assert a == 0x1_0000_0000_0000_0000 * q + r;
    if r + b < 0x1_0000_0000_0000_0000 {
      assert (a + b) / 0x1_0000_0000_0000_0000 == q;
    } else {
      assert (a + b) / 0x1_0000_0000_0000_0000 == q + 1;
    }
  }

  lemma Wrap32Add(a: nat)
    ensures Add32(Wrap32(a), 1) == Wrap32(a + 1)
  {
    var q, r := a / 0x1_0000_0000, a % 0x1_0000_0000;
    assert a == 0x1_0000_0000 * q + r;
    if r + 1 < 0x1_0000_0000 {
      assert (a + 1) / 0x1_0000_0000 == q;
    } else {
      assert (a + 1) / 0x1_0000_0000 == q + 1;
    }
  }

  /** Updating an entry in place keeps it the aggregate of everything folded in so far. */
  lemma GrownEntryAggregates(s: FlowStats, block: seq<Packet>, p: Packet)
    requires Aggregates(s, block)
    ensures Aggregates(GrownEntry(s, p), block + [p])
  {
    var longer := block + [p];
    assert longer[..|longer| - 1] == block;
    Wrap64Add(|block|, 1);
    Wrap64Add(TotalLen(block), p.len);
    FlagsAdd(s, block, p);
    LengthExtremes(block, p, s.minLen, s.maxLen);
  }

  lemma FlagsAdd(s: FlowStats, block: seq<Packet>, p: Packet)
    requires s.syn == Wrap32(CountFlag(block, 1)) && s.fin == Wrap32(CountFlag(block, 0))
    requires s.rst == Wrap32(CountFlag(block, 2)) && s.ack == Wrap32(CountFlag(block, 4))
    ensures
      var (t, longer) := (WithFlags(s, p.flags), block + [p]);
      && t.syn == Wrap32(CountFlag(longer, 1)) && t.fin == Wrap32(CountFlag(longer, 0))
      && t.rst == Wrap32(CountFlag(longer, 2)) && t.ack == Wrap32(CountFlag(longer, 4))
  {
    FlagBits(p);
    FlagAdds(block, p, 1);
    FlagAdds(block, p, 0);
    FlagAdds(block, p, 2);
    FlagAdds(block, p, 4);
  }

  lemma FlagAdds(block: seq<Packet>, p: Packet, bit: nat)
    requires bit < 8
    ensures Wrap32(CountFlag(block + [p], bit))
         == if HasFlag(p, bit) then Add32(Wrap32(CountFlag(block, bit)), 1) else Wrap32(CountFlag(block, bit))
  {
    assert (block + [p])[..|block|] == block;
    Wrap32Add(CountFlag(block, bit));
  }

  lemma LengthExtremes(block: seq<Packet>, p: Packet, low: u16, high: u16)
    requires IsShortest(block, low) && IsLongest(block, high)
    ensures IsShortest(block + [p], if ClampLen(p.len) < low then ClampLen(p.len) else low)
    ensures IsLongest(block + [p], if ClampLen(p.len) > high then ClampLen(p.len) else high)
  {
    assert p in block + [p];
    forall q | q in block
      ensures q in block + [p]
    {
    }
  }

  /** A record determines no more than one aggregate: two records of one block are equal. */
  lemma AggregateUnique(a: FlowStats, b: FlowStats, block: seq<Packet>)
    requires Aggregates(a, block) && Aggregates(b, block)
    ensures a == b
  {
  }

  /** Exactly when one more packet makes a field of the record smaller: the minimum when a
      shorter packet comes, the last time when the clock went back, a counter when it wraps. */
  lemma ShrinksExactly(s: FlowStats, p: Packet)
    ensures
      var g := GrownEntry(s, p);
      && (g.minLen < s.minLen <==> ClampLen(p.len) < s.minLen)
      && g.maxLen >= s.maxLen && g.firstSeen == s.firstSeen
      && (g.lastSeen < s.lastSeen <==> p.at < s.lastSeen)
      && (g.packets < s.packets <==> s.packets == 0xffff_ffff_ffff_ffff)
      && (g.bytes < s.bytes <==> s.bytes + p.len >= 0x1_0000_0000_0000_0000)
      && (g.syn < s.syn <==> HasFlag(p, 1) && s.syn == 0xffff_ffff)
      && (g.fin < s.fin <==> HasFlag(p, 0) && s.fin == 0xffff_ffff)
      && (g.rst < s.rst <==> HasFlag(p, 2) && s.rst == 0xffff_ffff)
      && (g.ack < s.ack <==> HasFlag(p, 4) && s.ack == 0xffff_ffff)
  {
    FlagBits(p);
  }

  /** A full-sized packet and then a bare acknowledgement, one nanosecond later. */
  lemma MinLenShrinks(key: FlowKey)
    ensures FreshEntry(Packet(key, 1500, ACK, 0)).minLen == 1500
    ensures GrownEntry(FreshEntry(Packet(key, 1500, ACK, 0)), Packet(key, 40, ACK, 1)).minLen == 40
  {
  }

  // --- sanity bounds every reported record obeys ---

  /** Frames in the order of the clock, with lengths that came from the 16-bit IPv4 total
      length (as all do in `handle_ipv4`). */
  predicate Plausible(block: seq<Packet>) {
    && (forall p :: p in block ==> p.len <= 0xffff)
    && (forall i, j :: 0 <= i < j < |block| ==> block[i].at <= block[j].at)
  }

  predicate WithinBounds(s: FlowStats) {
    && 0 < s.packets
    && s.minLen * s.packets <= s.bytes <= s.maxLen * s.packets
    && s.syn <= s.packets && s.fin <= s.packets && s.rst <= s.packets && s.ack <= s.packets
    && s.firstSeen <= s.lastSeen
  }

  lemma {:induction false} LengthBounds(block: seq<Packet>, low: nat, high: nat)
    requires forall p :: p in block ==> low <= p.len <= high
    ensures low * |block| <= TotalLen(block) <= high * |block|
  {
    if block != [] {
      var init := block[..|block| - 1];
      LengthBounds(init, low, high);
      assert block[|block| - 1] in block;
      OneTimeMore(low, |init|);
      OneTimeMore(high, |init|);
    }
  }

  lemma OneTimeMore(x: nat, n: nat)
    ensures x * (n + 1) == x * n + x
  {
  }

  lemma {:induction false} FlagBound(block: seq<Packet>, bit: nat)
    requires bit < 8
    ensures CountFlag(block, bit) <= |block|
  {
    if block != [] {
      FlagBound(block[..|block| - 1], bit);
    }
  }

  /** A record never shows more than its block, and shows all of it if counters can hold it. */
  lemma ShowsAtMost(s: FlowStats, block: seq<Packet>)
    requires Aggregates(s, block)
    ensures s.packets <= |block| && s.bytes <= TotalLen(block)
    ensures s.packets == |block| && s.bytes == TotalLen(block) <==> Countable(block)
  {
    WrapsDown(|block|);
    WrapsDown(TotalLen(block));
  }

  lemma WrapsDown(x: nat)
    ensures Wrap64(x) <= x && (Wrap64(x) == x <==> x < 0x1_0000_0000_0000_0000)
    ensures Wrap32(x) <= x
  {
  }

  lemma FlagsAtMost(s: FlowStats, block: seq<Packet>)
    requires Aggregates(s, block)
    ensures s.syn <= |block| && s.fin <= |block| && s.rst <= |block| && s.ack <= |block|
  {
    FlagBound(block, 1);
    FlagBound(block, 0);
    FlagBound(block, 2);
    FlagBound(block, 4);
    WrapsDown(CountFlag(block, 1));
    WrapsDown(CountFlag(block, 0));
    WrapsDown(CountFlag(block, 2));
    WrapsDown(CountFlag(block, 4));
  }

  lemma RecordBounds(s: FlowStats, block: seq<Packet>)
    requires Aggregates(s, block) && Plausible(block) && Countable(block)
    ensures WithinBounds(s)
  {
    BytesWithinExtremes(block, s.minLen, s.maxLen);
    FlagsAtMost(s, block);
    ShowsAtMost(s, block);
  }

  lemma BytesWithinExtremes(block: seq<Packet>, low: u16, high: u16)
    requires IsShortest(block, low) && IsLongest(block, high)
    requires forall p :: p in block ==> p.len <= 0xffff
    ensures low * |block| <= TotalLen(block) <= high * |block|
  {
    forall p | p in block
      ensures low <= p.len <= high
    {
      assert ClampLen(p.len) == p.len;
    }
    LengthBounds(block, low, high);
  }
}
