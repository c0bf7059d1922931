/** The anomaly findings of lanscope/src/alert.rs, with the parts of the printed message kept apart. */
module Alerts {
  import opened Prelude

  datatype Finding =
    | NewDevice(name: string, vendor: string)
    | PortScan(source: string, ports: nat, windowSecs: nat)
    | VolumeSpike(source: string, bytes: real, average: real)

  datatype Alert = Alert(at: int, mac: Option<string>, finding: Finding)
}
