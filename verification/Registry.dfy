/** The in-memory device registry of lanscope/src/registry/mod.rs. */
module Registry {
  import opened Prelude
  import opened NetFmt
  import opened Signals
  import F = Fingerprint

  /** Cap on stored services per device. */
  const MAX_SERVICES: nat := 32

  datatype Device = Device(
    mac: string, vendor: Option<string>, hostname: Option<string>, ips: seq<string>, services: seq<string>,
    dhcpFingerprint: Option<string>, dhcpVendorClass: Option<string>, deviceType: Option<string>,
    firstSeen: int, lastSeen: int, packets: u64, bytes: u64)

  datatype Change = Created | Updated

  function Fresh(mac: Mac, vendor: Option<string>, now: int): Device {
    Device(MacText(mac), vendor, None, [], [], None, None, None, now, now, 0, 0)
  }

  function ProfileOf(d: Device): F.Profile {
    F.Profile(d.vendor, d.dhcpVendorClass, d.hostname, d.services)
  }

  // --- what one event does to one record ---

  /** `u64::saturating_add`. */
  function SaturatingAdd(a: u64, b: u64): u64 {
    if a + b < 0x1_0000_0000_0000_0000 then a + b else 0xffff_ffff_ffff_ffff
  }

  /** The list without its first x, if it has one. */
  function RemoveFirst(s: seq<string>, x: string): seq<string> {
    if s == [] then [] else if s[0] == x then s[1..] else [s[0]] + RemoveFirst(s[1..], x)
  }

  /** x becomes the most recent element. */
  function MovedToEnd(s: seq<string>, x: string): seq<string> {
    RemoveFirst(s, x) + [x]
  }

  predicate NoDuplicates(s: seq<string>) {
    forall i, j :: 0 <= i < j < |s| ==> s[i] != s[j]
  }

  function WithIp(d: Device, ip: Option<u32>): Device {
    if ip.None? then d else d.(ips := MovedToEnd(d.ips, FmtIpv4(ip.value)))
  }

  function WithSignal(d: Device, signal: Signal): Device {
    match signal
    case Hostname(h) => d.(hostname := Some(h))
    case Service(s) =>
      if s !in d.services && |d.services| < MAX_SERVICES then d.(services := d.services + [s]) else d
    case DhcpFingerprint(f) => d.(dhcpFingerprint := Some(f))
    case DhcpVendorClass(v) => d.(dhcpVendorClass := Some(v))
    case Seen => d
  }

  function WithSighting(d: Device, ip: Option<u32>, signal: Signal, now: int): Device {
    WithSignal(WithIp(d.(lastSeen := now), ip), signal)
  }

  function WithTraffic(d: Device, packets: u64, bytes: u64, now: int): Device {
    d.(packets := SaturatingAdd(d.packets, packets), bytes := SaturatingAdd(d.bytes, bytes), lastSeen := now)
  }

  // --- the registry ---

  type Devices = map<Mac, Device>

  function AfterObserve(devices: Devices, oui: Mac -> Option<string>, obs: Observation, now: int): Devices {
    var known := if obs.mac in devices then devices[obs.mac] else Fresh(obs.mac, oui(obs.mac), now);
    devices[obs.mac := WithSighting(known, obs.ip, obs.signal, now)]
  }

  predicate Holds(d: Device, ip: u32) {
    FmtIpv4(ip) in d.ips
  }

  /** Some device holding the address, or none if no device does. */
  ghost predicate IsTarget(devices: Devices, ip: u32, target: Option<Mac>) {
    match target
    case None => forall m :: m in devices ==> !Holds(devices[m], ip)
    case Some(m) => m in devices && Holds(devices[m], ip)
  }

  function AfterFlow(devices: Devices, target: Option<Mac>, packets: u64, bytes: u64, now: int): Devices {
    if target.Some? && target.value in devices then
      devices[target.value := WithTraffic(devices[target.value], packets, bytes, now)]
    else devices
  }

  function AfterSetType(devices: Devices, mac: Mac, deviceType: Option<string>): Devices {
    if mac in devices then devices[mac := devices[mac].(deviceType := deviceType)] else devices
  }

  method PushIp(dev: Device, ip: u32) returns (d: Device)
    ensures d == WithIp(dev, Some(ip))
  {
    var s := FmtIpv4(ip);
    var pos := 0;
    while pos < |dev.ips| && dev.ips[pos] != s
      invariant pos <= |dev.ips| && forall i :: 0 <= i < pos ==> dev.ips[i] != s
    {
      pos := pos + 1;
    }
    RemoveFirstAt(dev.ips, s, pos);
    if pos < |dev.ips| {
      var v := dev.ips[pos];
      d := dev.(ips := dev.ips[..pos] + dev.ips[pos + 1..]);
      d := d.(ips := d.ips + [v]);
    } else {
      d := dev.(ips := dev.ips + [s]);
    }
  }

  lemma {:induction false} RemoveFirstAt(s: seq<string>, x: string, pos: nat)
    requires pos <= |s| && (forall i :: 0 <= i < pos ==> s[i] != x) && (pos < |s| ==> s[pos] == x)
    ensures RemoveFirst(s, x) == if pos < |s| then s[..pos] + s[pos + 1..] else s
  {
    if pos > 0 {
      RemoveFirstAt(s[1..], x, pos - 1);
      if pos < |s| {
        assert s[..pos] == [s[0]] + s[1..][..pos - 1];
        assert s[1..][pos..] == s[pos + 1..];
      }
    }
  }

  method ApplySignal(dev: Device, signal: Signal) returns (d: Device)
    ensures d == WithSignal(dev, signal)
  {
    d := dev;
    match signal {
      case Hostname(h) =>
        if dev.hostname != Some(h) {
          d := dev.(hostname := Some(h));
        }
      case Service(s) =>
        if s !in dev.services && |dev.services| < MAX_SERVICES {
          d := dev.(services := dev.services + [s]);
        }
      case DhcpFingerprint(f) =>
        d := dev.(dhcpFingerprint := Some(f));
      case DhcpVendorClass(v) =>
        d := dev.(dhcpVendorClass := Some(v));
      case Seen =>
    }
  }

  class DeviceRegistry {
    var devices: Devices
    const oui: Mac -> Option<string>

    constructor (oui: Mac -> Option<string>)
      ensures devices == map[] && this.oui == oui
    {
      devices := map[];
      this.oui := oui;
    }

    method Load(mac: Mac, device: Device)
      modifies this`devices
      ensures devices == old(devices)[mac := device]
    {
      devices := devices[mac := device];
    }

    method SetDeviceType(mac: Mac, deviceType: Option<string>)
      modifies this`devices
      ensures devices == AfterSetType(old(devices), mac, deviceType)
    {
      if mac in devices {
        devices := devices[mac := devices[mac].(deviceType := deviceType)];
      }
    }

    method Observe(obs: Observation, now: int) returns (mac: Mac, change: Change)
      modifies this`devices
      ensures devices == AfterObserve(old(devices), oui, obs, now)
      ensures mac == obs.mac && (change == Created <==> obs.mac !in old(devices))
    {
      change := Updated;
      var dev: Device;
      if obs.mac in devices {
        dev := devices[obs.mac];
      } else {
        change := Created;
        dev := Fresh(obs.mac, oui(obs.mac), now);
      }
      dev := dev.(lastSeen := now);
      if obs.ip.Some? {
        dev := PushIp(dev, obs.ip.value);
      }
      dev := ApplySignal(dev, obs.signal);
      devices := devices[obs.mac := dev];
      mac := obs.mac;
    }

    /** The order in which devices are visited is arbitrary. */
    method ApplyFlow(srcIp: u32, packets: u64, bytes: u64, now: int) returns (ghost target: Option<Mac>)
      modifies this`devices
      ensures IsTarget(old(devices), srcIp, target)
      ensures devices == AfterFlow(old(devices), target, packets, bytes, now)
    {
      target := None;
      var rest := devices.Keys;
      while rest != {}
        invariant rest <= devices.Keys && devices == old(devices)
        invariant forall m :: m in devices && m !in rest ==> !Holds(devices[m], srcIp)
        decreases |rest|
      {
        var m :| m in rest;
        if Holds(devices[m], srcIp) {
          target := Some(m);
          devices := devices[m := WithTraffic(devices[m], packets, bytes, now)];
          return;
        }
        rest := rest - {m};
      }
    }
  }
}
