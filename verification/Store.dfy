/** The persistent device table of lanscope/src/storage/sqlite.rs, as a map from MAC text to row. */
module Store {
  import opened Prelude
  import opened Registry
  import opened Alerts

  type i64 = x: int | -0x8000_0000_0000_0000 <= x < 0x8000_0000_0000_0000

  /** `as i64` and `as u64`. */
  function ToSigned(x: u64): i64 {
    if x < 0x8000_0000_0000_0000 then x else x - 0x1_0000_0000_0000_0000
  }

  function ToUnsigned(x: i64): u64 {
    if x >= 0 then x else x + 0x1_0000_0000_0000_0000
  }

  /** The signed column holds the same 64 bits. */
  lemma SignedIsSameBits(x: u64)
    ensures ToSigned(x) % 0x1_0000_0000_0000_0000 == x
  {
  }

  /** All columns but the primary key. */
  datatype Row = Row(
    vendor: Option<string>, hostname: Option<string>, ips: seq<string>, services: seq<string>,
    dhcpFingerprint: Option<string>, dhcpVendorClass: Option<string>, deviceType: Option<string>,
    firstSeen: int, lastSeen: int, packets: i64, bytes: i64)

  type Rows = map<string, Row>

  function RowOf(d: Device): Row {
    Row(d.vendor, d.hostname, d.ips, d.services, d.dhcpFingerprint, d.dhcpVendorClass, d.deviceType,
        d.firstSeen, d.lastSeen, ToSigned(d.packets), ToSigned(d.bytes))
  }

  function DeviceOf(mac: string, r: Row): Device {
    Device(mac, r.vendor, r.hostname, r.ips, r.services, r.dhcpFingerprint, r.dhcpVendorClass, r.deviceType,
           r.firstSeen, r.lastSeen, ToUnsigned(r.packets), ToUnsigned(r.bytes))
  }

  /** An insert, or on conflict an update of every column but first_seen. */
  function Upserted(rows: Rows, d: Device): Rows {
    if d.mac in rows then rows[d.mac := RowOf(d).(firstSeen := rows[d.mac].firstSeen)]
    else rows[d.mac := RowOf(d)]
  }

  class SqliteStore {
    var rows: Rows
    var alerts: seq<Alert>

    constructor ()
      ensures rows == map[] && alerts == []
    {
      rows := map[];
      alerts := [];
    }

    method UpsertDevice(d: Device)
      modifies this`rows
      ensures rows == Upserted(old(rows), d)
    {
      var row := RowOf(d);
      if d.mac !in rows {
        rows := rows[d.mac := row];
      } else {
        var kept := rows[d.mac];
        rows := rows[d.mac := kept.(
          vendor := row.vendor, hostname := row.hostname, ips := row.ips, services := row.services,
          dhcpFingerprint := row.dhcpFingerprint, dhcpVendorClass := row.dhcpVendorClass,
          deviceType := row.deviceType, lastSeen := row.lastSeen, packets := row.packets, bytes := row.bytes)];
      }
    }

    /** Every row once, in no particular order. */
    method LoadDevices() returns (devices: seq<Device>)
      ensures forall k :: k in rows ==> DeviceOf(k, rows[k]) in devices
      ensures forall d :: d in devices ==> d.mac in rows && d == DeviceOf(d.mac, rows[d.mac])
      ensures |devices| == |rows|
    {
      devices := [];
      var rest := rows.Keys;
      while rest != {}
        invariant rest <= rows.Keys && |devices| + |rest| == |rows.Keys|
        invariant forall k :: k in rows && k !in rest ==> DeviceOf(k, rows[k]) in devices
        invariant forall d :: d in devices ==> d.mac in rows && d == DeviceOf(d.mac, rows[d.mac])
        decreases |rest|
      {
        var k :| k in rest;
        devices := devices + [DeviceOf(k, rows[k])];
        rest := rest - {k};
      }
      assert |rows| == |rows.Keys|;
    }

    method RecordAlert(a: Alert)
      modifies this`alerts
      ensures alerts == old(alerts) + [a]
    {
      alerts := alerts + [a];
    }
  }

  /** Counters survive the signed column, so a stored row reads back as the device. */
  lemma RowRoundTrip(d: Device)
    ensures DeviceOf(d.mac, RowOf(d)) == d
  {
  }

  // --- any number of writes ---

  function UpsertAll(rows: Rows, devices: seq<Device>): Rows {
    if devices == [] then rows
    else Upserted(UpsertAll(rows, devices[..|devices| - 1]), devices[|devices| - 1])
  }

  /** The writes of one key, in order. */
  function WritesTo(devices: seq<Device>, k: string): seq<Device> {
    if devices == [] then []
    else
      var d := devices[|devices| - 1];
      WritesTo(devices[..|devices| - 1], k) + if d.mac == k then [d] else []
  }

  /** However often a device is written, its row keeps the first sighting of the first write
      (or of the row that was there before) and takes all else from the last. */
  lemma {:induction false} RowAfterWrites(rows: Rows, devices: seq<Device>, k: string)
    ensures
      var writes, after := WritesTo(devices, k), UpsertAll(rows, devices);
      if writes == [] then (k in after <==> k in rows) && (k in rows ==> after[k] == rows[k])
      else
        && k in after
        && after[k] == RowOf(writes[|writes| - 1]).(
             firstSeen := if k in rows then rows[k].firstSeen else writes[0].firstSeen)
  {
    if devices != [] {
      RowAfterWrites(rows, devices[..|devices| - 1], k);
    }
  }
}
