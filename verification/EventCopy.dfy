/** The bounded payload copy of `emit` (lanscope-ebpf/src/main.rs) into the event record of
    lanscope-common/src/event.rs, and why decoding it is safe. */
module EventCopy {
  import opened Prelude
  import Dhcp
  import Dns
  import Mdns

  const COPY_LEN: nat := 256
  const EVENT_PAYLOAD_LEN: nat := 512

  function Min(a: nat, b: nat): nat {
    if a < b then a else b
  }

  /** What the record carries of a frame: at most 256 bytes from the payload offset on.
      `loaded` says whether the kernel's copy helper succeeded. */
  function Copied(frame: seq<byte>, off: Option<nat>, loaded: bool): (payload: seq<byte>)
    ensures off.Some? && off.value <= |frame| ==> payload <= frame[off.value..]
    ensures |payload|
         == if off.Some? && off.value <= |frame| && loaded then Min(256, |frame| - off.value) else 0
  {
    if off.None? || off.value >= |frame| || !loaded then []
    else frame[off.value..off.value + Min(COPY_LEN, |frame| - off.value)]
  }

  class Event {
    var payloadLen: u16
    const payload: array<byte>

    ghost predicate Valid() {
      payload.Length == EVENT_PAYLOAD_LEN
    }

    /** `Event::payload`. */
    function Payload(): seq<byte>
      requires Valid()
      reads this, payload
    {
      payload[..Min(payloadLen, EVENT_PAYLOAD_LEN)]
    }

    constructor ()
      ensures Valid() && fresh(payload) && Payload() == []
    {
      payload := new byte[EVENT_PAYLOAD_LEN](_ => 0);
      payloadLen := 0;
    }

    method Emit(frame: seq<byte>, off: Option<nat>, loaded: bool)
      requires Valid()
      modifies this, payload
      ensures Valid() && Payload() == Copied(frame, off, loaded)
    {
      var copied := 0;
      if off.Some? && |frame| > off.value {
        var avail := |frame| - off.value;
        var toCopy := if avail > COPY_LEN then COPY_LEN else avail;
        if toCopy > 0 && loaded {
          forall i | 0 <= i < toCopy {
            payload[i] := frame[off.value + i];
          }
          copied := toCopy;
        }
      }
      payloadLen := copied;
    }
  }

  /** Decoding the copy yields nothing that decoding the whole payload would not. */
  lemma CopyIsSafe(frame: seq<byte>, off: nat, loaded: bool)
    requires off <= |frame|
    ensures
      var copy, whole := Copied(frame, Some(off), loaded), frame[off..];
      && Dhcp.Decoded(copy) <= Dhcp.Decoded(whole)
      && (forall name :: name in Dns.Names(copy) ==> name in Dns.Names(whole))
      && (forall s :: s in Mdns.Decoded(copy) ==> s in Mdns.Decoded(whole))
  {
    var copy, whole := Copied(frame, Some(off), loaded), frame[off..];
    assert copy == whole[..|copy|];
    Dhcp.TruncationKeepsPrefix(whole, |copy|);
    forall name | name in Dns.Names(copy)
      ensures name in Dns.Names(whole)
    {
      Dns.TruncationInventsNoName(whole, |copy|, name);
    }
    forall s | s in Mdns.Decoded(copy)
      ensures s in Mdns.Decoded(whole)
    {
      Mdns.FlatMapMember(Mdns.ReadSignal, Dns.Names(copy), s);
      Mdns.FlatMapMember(Mdns.ReadSignal, Dns.Names(whole), s);
      var i :| 0 <= i < |Dns.Names(copy)| && s in Mdns.ReadSignal(Dns.Names(copy)[i]);
      var name := Dns.Names(copy)[i];
      assert name in Dns.Names(whole);
      var j :| 0 <= j < |Dns.Names(whole)| && Dns.Names(whole)[j] == name;
    }
  }
}
