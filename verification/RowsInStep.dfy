/** Devices and stored rows in step, for any one-to-one text form of MAC addresses. */
module RowsInStep {
  import opened Prelude
  import opened NetFmt
  import opened Registry
  import opened Store

  type Print = Mac -> string
  type Parse = string -> Option<Mac>

  /** Parsing undoes printing, so no two addresses look alike. */
  ghost predicate Inverse(show: Print, parse: Parse) {
    forall m :: parse(show(m)) == Some(m)
  }

  predicate IsKey(show: Print, parse: Parse, k: string) {
    parse(k).Some? && show(parse(k).value) == k
  }

  /** The row trails the device: same first sighting, counters no larger. */
  predicate Trails(r: Row, d: Device) {
    && r.firstSeen == d.firstSeen
    && ToUnsigned(r.packets) <= d.packets
    && ToUnsigned(r.bytes) <= d.bytes
  }

  /** Every device has a row under its own MAC and every row a device; the row trails it. */
  ghost predicate InStep(show: Print, parse: Parse, devices: Devices, rows: Rows) {
    && (forall k :: k in rows ==> IsKey(show, parse, k))
    && (forall m :: m in devices <==> show(m) in rows)
    && (forall m :: m in devices ==> devices[m].mac == show(m) && Trails(rows[show(m)], devices[m]))
  }

  /** Seeding an empty registry reads back every row whose key parses. */
  ghost predicate Restores(parse: Parse, rows: Rows, devices: Devices) {
    && (forall k :: k in rows && parse(k).Some? ==> parse(k).value in devices)
    && (forall m :: m in devices ==>
          exists k :: k in rows && parse(k) == Some(m) && devices[m] == DeviceOf(k, rows[k]))
  }

  /** Some row whose key parses to m reads back as d. */
  ghost predicate FromRow(parse: Parse, rows: Rows, m: Mac, d: Device) {
    exists k :: k in rows && parse(k) == Some(m) && d == DeviceOf(k, rows[k])
  }

  /** Seeding a registry that may already hold devices: stored devices replace those. */
  ghost predicate Seeds(parse: Parse, rows: Rows, before: Devices, after: Devices) {
    && before.Keys <= after.Keys
    && (forall k :: k in rows && parse(k).Some? ==> parse(k).value in after)
    && (forall m :: m in after ==>
          || FromRow(parse, rows, m, after[m])
          || (m in before && after[m] == before[m] && forall k :: k in rows ==> parse(k) != Some(m)))
  }

  /** The same with the first i listed devices loaded. */
  ghost predicate Loaded(parse: Parse, rows: Rows, list: seq<Device>, i: nat, before: Devices, after: Devices)
    requires i <= |list|
  {
    && before.Keys <= after.Keys
    && (forall j :: 0 <= j < i && parse(list[j].mac).Some? ==> parse(list[j].mac).value in after)
    && (forall m :: m in after ==>
          || FromRow(parse, rows, m, after[m])
          || (m in before && after[m] == before[m] && forall j :: 0 <= j < i ==> parse(list[j].mac) != Some(m)))
  }

  lemma LoadOne(parse: Parse, rows: Rows, list: seq<Device>, i: nat, before: Devices, after: Devices)
    requires i < |list| && Loaded(parse, rows, list, i, before, after)
    requires list[i].mac in rows && list[i] == DeviceOf(list[i].mac, rows[list[i].mac])
    ensures
      var mac := parse(list[i].mac);
      Loaded(parse, rows, list, i + 1, before, if mac.Some? then after[mac.value := list[i]] else after)
  {
  }

  lemma AllLoaded(parse: Parse, rows: Rows, list: seq<Device>, before: Devices, after: Devices)
    requires Loaded(parse, rows, list, |list|, before, after)
    requires forall k :: k in rows ==> DeviceOf(k, rows[k]) in list
    ensures Seeds(parse, rows, before, after)
    ensures before == map[] ==> Restores(parse, rows, after)
  {
    forall k | k in rows
      ensures exists j :: 0 <= j < |list| && list[j].mac == k
    {
      var j :| 0 <= j < |list| && list[j] == DeviceOf(k, rows[k]);
      assert list[j].mac == k;
    }
  }

  /** Every row is its device's current record, first sighting included. */
  ghost predicate AllPersisted(show: Print, devices: Devices, rows: Rows) {
    forall m :: m in devices ==> show(m) in rows && rows[show(m)] == RowOf(devices[m])
  }

  /** No device and no first sighting is lost, and no counter comes back larger than it was. */
  predicate ComesBack(devices: Devices, restored: Devices) {
    && restored.Keys == devices.Keys
    && (forall m :: m in devices ==>
          && restored[m].mac == devices[m].mac
          && restored[m].firstSeen == devices[m].firstSeen
          && restored[m].packets <= devices[m].packets && restored[m].bytes <= devices[m].bytes)
  }

  /** Any rows can be seeded from. */
  lemma {:induction false} CanRestore(parse: Parse, rows: Rows) returns (restored: Devices)
    ensures Restores(parse, rows, restored)
    decreases |rows|
  {
    restored := map[];
    if rows != map[] {
      assert rows.Keys != {};
      var k :| k in rows;
      assert (rows - {k}).Keys == rows.Keys - {k};
      assert |rows - {k}| == |(rows - {k}).Keys| && |rows| == |rows.Keys|;
      restored := CanRestore(parse, rows - {k});
      if parse(k).Some? {
        restored := restored[parse(k).value := DeviceOf(k, rows[k])];
      }
    }
  }

  lemma UpdateKeepsInStep(show: Print, parse: Parse, devices: Devices, rows: Rows, m: Mac, d: Device)
    requires InStep(show, parse, devices, rows) && m in devices
    requires d.mac == show(m) && Trails(rows[show(m)], d)
    ensures InStep(show, parse, devices[m := d], rows)
  {
  }

  lemma CreateKeepsInStep(show: Print, parse: Parse, devices: Devices, rows: Rows, m: Mac, d: Device)
    requires Inverse(show, parse) && InStep(show, parse, devices, rows)
    requires m !in devices && d.mac == show(m)
    ensures InStep(show, parse, devices[m := d], Upserted(rows, d))
  {
    assert Upserted(rows, d) == rows[show(m) := RowOf(d)];
    assert parse(show(m)) == Some(m);
    SetRow(show, parse, devices[m := d], rows, m, RowOf(d), d);
  }

  lemma SetRow(show: Print, parse: Parse, devices: Devices, rows: Rows, m: Mac, r: Row, d: Device)
    requires Inverse(show, parse)
    requires m in devices && devices[m] == d && d.mac == show(m) && Trails(r, d)
    requires forall k :: k in rows ==> IsKey(show, parse, k)
    requires forall n :: n != m ==> (n in devices <==> show(n) in rows)
    requires forall n :: n in devices && n != m ==> devices[n].mac == show(n) && Trails(rows[show(n)], devices[n])
    ensures InStep(show, parse, devices, rows[show(m) := r])
  {
    assert parse(show(m)) == Some(m);
    forall n | show(n) == show(m)
      ensures n == m
    {
      assert parse(show(n)) == Some(n);
    }
  }

  lemma PersistKeepsInStep(show: Print, parse: Parse, devices: Devices, rows: Rows, m: Mac)
    requires Inverse(show, parse) && InStep(show, parse, devices, rows) && m in devices
    ensures InStep(show, parse, devices, Upserted(rows, devices[m]))
    ensures Upserted(rows, devices[m]) == rows[show(m) := RowOf(devices[m])]
  {
    var d := devices[m];
    assert RowOf(d).firstSeen == rows[show(m)].firstSeen;
    SetRow(show, parse, devices, rows, m, RowOf(d), d);
  }

  /** Seeding from in-step rows gives each device its own row back, whatever the order. */
  lemma RestoredRows(show: Print, parse: Parse, rows: Rows, restored: Devices)
    requires Inverse(show, parse) && (forall k :: k in rows ==> IsKey(show, parse, k))
    requires Restores(parse, rows, restored)
    ensures forall m :: m in restored <==> show(m) in rows
    ensures forall m :: m in restored ==> restored[m] == DeviceOf(show(m), rows[show(m)])
    ensures InStep(show, parse, restored, rows)
  {
    forall m: Mac
      ensures m in restored <==> show(m) in rows
      ensures m in restored ==> restored[m] == DeviceOf(show(m), rows[show(m)])
    {
      assert parse(show(m)) == Some(m);
      if m in restored {
        var k :| k in rows && parse(k) == Some(m) && restored[m] == DeviceOf(k, rows[k]);
        assert IsKey(show, parse, k);
      }
    }
  }

  lemma RestoredTrails(show: Print, parse: Parse, devices: Devices, rows: Rows, restored: Devices)
    requires Inverse(show, parse) && InStep(show, parse, devices, rows) && Restores(parse, rows, restored)
    ensures ComesBack(devices, restored)
  {
    RestoredRows(show, parse, rows, restored);
    forall m: Mac
      ensures m in restored <==> m in devices
    {
      assert m in devices <==> show(m) in rows;
    }
  }

  lemma RestoredExactly(show: Print, parse: Parse, devices: Devices, rows: Rows, restored: Devices)
    requires Inverse(show, parse) && InStep(show, parse, devices, rows) && Restores(parse, rows, restored)
    requires AllPersisted(show, devices, rows)
    ensures restored == devices
  {
    RestoredTrails(show, parse, devices, rows, restored);
    RestoredRows(show, parse, rows, restored);
    forall m | m in devices
      ensures restored[m] == devices[m]
    {
      RowRoundTrip(devices[m]);
    }
  }
}
