# lanscope: a verified model

lanscope watches a local network passively. An XDP program counts packets per flow in a
bounded kernel table and copies interesting frames to userspace; userspace decodes them,
keeps one record per device, persists the records, guesses device types and raises alerts.
This project models the five parts that hold the state, the loops and the arithmetic, and
proves what they promise together.

- **Flow accounting and draining** (`FlowCounters`, `Drain`, `KernelTable`). `update_flow`
  folds packets into the table while `drain_flows` copies every entry and removes the copied
  entries in a second pass. `Drain` is the step machine of that race; a `History` is any
  interleaving of packets and table operations. Per flow key the history is split into the
  blocks that were reported, the packets lost between a read and its removal, those turned
  away by a full table, and those still in the table. `KernelTable` is the code itself, shown
  to produce only such histories.
- **Detectors** (`PerSource`, `PortScan`, `VolumeSpike`). Tumbling windows of distinct ports
  and an exponentially weighted average, over whole traces of many sources.
- **Decoders and their encoders** (`Text`, `DhcpOptions`, `Dhcp`, `Dns`, `MdnsScan`,
  `MdnsTraps`, `Mdns`, `MdnsMeaning`, `EventCopy`). The DHCP cookie search and option walk, the DNS name scan of
  every byte offset, and what each yields on the packets the portable backend encodes, on
  arbitrary input and on truncated input. Formats: sections 3.1 and 4.1.4 of RFC 1035,
  section 3 of RFC 2131, sections 2, 3.1, 3.2, 3.14, 9.8 and 9.13 of RFC 2132.
- **Registry, store and event handler** (`NetFmt`, `Registry`, `DeviceHistory`, `Store`,
  `RowsInStep`, `App`, `AppRuns`, `AppTraffic`, `AppDevices`, `Announcements`, `AppAlerts`,
  `AppHandler`, `EndToEnd`, `WireToRegistry`, `Pipeline`).
  `App` is a step machine of observations, flows, writes, restarts and crashes; `AppHandler`
  is the code, each call being a run of that machine. The results hold for every run.
- **Fingerprinting** (`Fingerprint`). Thirty needles searched in one newline-joined text,
  against the simple form that searches each field.

`Prelude` holds machine integers and the few list and string operations of Rust's standard
library that the code uses; `Alerts` and `Signals` hold shared record types.

Each specification function that code and results share is also pinned in terms that do not
mention it: byte and character values written as numbers, strings taken apart by concatenation,
and the source's constants written out.

Code that updates state is a class or a method with loops. Such a method is proved equal to a
specification function, and the lemmas are about that function.

## Where code and documentation differ

- ARCHITECTURE.md:68-69 and lanscope/src/capture/ebpf.rs:148-149 call each snapshot the delta
  since the previous drain. A packet that lands after its entry was read and before the entry
  is removed is in no snapshot (`Drain.GapPacketIsLost`), and neither is a packet of a new flow that finds
  the table full (`Drain.FullTablePacketIsLost`). `Drain.SnapshotsAreDeltas` proves that the
  claim holds exactly for the schedules with neither.
- lanscope-common/src/flow.rs:59 says that all fields of a flow's record are monotonically
  increasing within a drain interval. `FlowCounters.ShrinksExactly` proves when each field
  shrinks: `min_len` whenever a shorter packet comes (`FlowCounters.MinLenShrinks` gives two
  packets), `last_seen_ns` when the clock went back, a counter when it wraps.
- lanscope/src/anomaly/heuristics.rs:94-95 speaks of a source's byte volume per snapshot, and
  line 112 of a floor for a single snapshot. The detector is called for each flow of a snapshot
  and looks at each flow by itself: a source alerts on at most 40 flows in a row
  (`VolumeSpike.AtMost40InARow`), but it can alert in every snapshot
  (`VolumeSpike.EverySnapshotAlerts`).
- lanscope/src/fingerprint/rules.rs:3-5 lists the DHCP fingerprint among the searched texts.
  `build_haystack` does not append it, so it has no bearing on a device's type
  (`AppDevices.TypeIgnoresFingerprint`). Searching it would change no verdict either: no needle
  occurs in a printed request list (`Fingerprint.RequestListWouldNotMatter`).
- lanscope/src/decode/dns.rs:32-33 rejects bytes that are not printable so that a read does not
  latch onto unrelated data. Inside a long printable label it still can. `MdnsTraps.LengthsDecide`
  proves for which label lengths no content misleads the scan: first labels of at most 32 bytes
  (33 in a name of over 256 characters) and later labels of at most 31, and no others.
- lanscope/src/app.rs:244 persists a new device at once so that a crash still records it. It
  does; but a crash after the row is written and before the alert is recorded means that the
  device is never announced. `AppRuns.AnnouncedUnlessSilenced` proves that over all runs this is
  the only way a known device can go unannounced, and `AppRuns.DyingSilences` that it can happen.

## Model

| member | source | states |
|---|---|---|
| FlowCounters.FreshEntryAggregates | lanscope-ebpf/src/main.rs:200-212 | the entry inserted for a first packet is, in all ten fields, the aggregate of the one-packet block |
| FlowCounters.GrownEntryAggregates | lanscope-ebpf/src/main.rs:187-199 | updating an entry in place turns the aggregate of a block into the aggregate of that block and the packet: wrapped packet, byte and flag totals, first and last time, true minimum and maximum of the clamped lengths |
| FlowCounters.AggregateUnique | lanscope-common/src/flow.rs:62-78 | a block of packets has at most one aggregate record, so the aggregate fixes every field |
| FlowCounters.RecordBounds | lanscope-common/src/flow.rs:62-78 | for 16-bit lengths, a monotone clock and a block that 64-bit counters can hold: min_len * packets <= bytes <= max_len * packets, each flag count <= packets, first_seen <= last_seen, packets > 0 |
| FlowCounters.ShrinksExactly | lanscope-common/src/flow.rs:57-78 | for each of the ten fields, one more packet makes it smaller iff: a shorter length for min_len, a clock gone back for last_seen, a wrap for a counter, and never for max_len and first_seen |
| FlowCounters.MinLenShrinks | lanscope-common/src/flow.rs:57-78 | a packet of 1500 bytes and then one of 40 take min_len from 1500 to 40 |
| FlowCounters.ShowsAtMost | lanscope-ebpf/src/main.rs:187-199 | a record never shows more packets or bytes than its block has, and shows all of both iff 64-bit counters can hold them |
| FlowCounters.FlagBits | lanscope-ebpf/src/main.rs:216-229 | the four masks single out bits 1, 0, 2 and 4 of the flag byte for SYN, FIN, RST and ACK |
| KernelTable.AccumulateFlags | lanscope-ebpf/src/main.rs:216-229 | each of SYN, FIN, RST and ACK counts its own bit and leaves the other counters alone |
| KernelTable.FlowTable.UpdateFlow | lanscope-ebpf/src/main.rs:179-213 | one call is exactly one packet step of the drain machine, including the insert that a full table refuses |
| KernelTable.FlowTable.CopyEntries | lanscope/src/capture/ebpf.rs:152-162 | the reading pass, with packets arriving before each read, is a run of the machine made of the start, reads and exactly those arrivals, and at its end every key present at its start is copied |
| KernelTable.FlowTable.RemoveEntries | lanscope/src/capture/ebpf.rs:163-171 | the removing pass, with packets arriving before each removal, is a run of the machine made of removals of exactly the copied keys in order and exactly those arrivals |
| KernelTable.FlowTable.DrainFlows | lanscope/src/capture/ebpf.rs:150-173 | a whole drain, under any traffic and any arrival times, continues any run of the machine by exactly one start, reads, the end of the first pass, removals and an end, with only the arrivals due by its 2n + 1 table operations between them; it returns the snapshot of that run, which holds every key the table had at the start |
| KernelTable.ReadFits | lanscope/src/capture/ebpf.rs:159-161 | in every run, a read happens while fewer than 10240 entries are collected: copied keys are distinct and all still in the table |
| Drain.RunIsConsistent | lanscope/src/capture/ebpf.rs:150-173 | in every interleaving the table never exceeds its capacity, collected keys are distinct, and every collected key stays in the table until its own removal |
| Drain.EntryAggregatesLive | lanscope-ebpf/src/main.rs:179-213 | in every interleaving the table has an entry for a key iff packets of it were admitted since its last removal, and the entry is the exact aggregate of those packets |
| Drain.PendingStep | lanscope/src/capture/ebpf.rs:159-169 | only its own read makes a key read-but-unremoved, and only its own removal ends that |
| Drain.PendingEntryOnlyGrows | lanscope/src/capture/ebpf.rs:159-169 | while a key is read but not removed, the table holds the reported block followed by the gap packets: the entry only grows |
| Drain.HistoryPartition | lanscope/src/capture/ebpf.rs:148-173 | the admitted packets of a key, in order, are block, gap, block, gap, ... and what the table still holds: successive reports are disjoint contiguous blocks |
| Drain.RecordsAggregateBlocks | lanscope/src/capture/ebpf.rs:159-172 | the i-th record ever reported for a key is the exact aggregate of its i-th block |
| Drain.SnapshotsWithinBounds | lanscope/src/capture/ebpf.rs:150-173 | in every run, every record of every snapshot obeys the bounds of RecordBounds, if the packets of its flow arrived in clock order with 16-bit lengths and its blocks fit the counters |
| Drain.TrafficConservation | lanscope/src/capture/ebpf.rs:148-173 | at every moment of every interleaving, packets and bytes of a key that were reported, are still held, were refused by a full table or lost between read and removal never exceed those that arrived, and equal them iff no single reported or held block outgrew 64-bit counters |
| Drain.LossFreeMeansNoLosses | lanscope/src/capture/ebpf.rs:148-173 | a schedule is loss-free for a key iff nothing of it was refused and nothing fell into a gap |
| Drain.SnapshotsAreDeltas | lanscope/src/capture/ebpf.rs:148-149 | the reported blocks and the table together are all that ever arrived iff no packet of the key came between a read and its removal or found a full table |
| Drain.GapPacketIsLost | lanscope/src/capture/ebpf.rs:148-173 | for any packet: a drain with a second such packet in the gap reports one packet, leaves an empty table, and two had arrived |
| Drain.FullTablePacketIsLost | lanscope-ebpf/src/main.rs:200-212 | for any packet: after 10,240 packets of other flows it changes nothing, is counted as dropped, and the schedule is not loss-free |
| Drain.QuietDrainTakesAll | lanscope/src/capture/ebpf.rs:148-173 | a drain with no packet during it returns every entry once, as it was, and empties the table, whatever the cursor's order |
| PerSource.Isolated | lanscope/src/anomaly/heuristics.rs:61-65 | a detector with one state per source gives each source, on any interleaved trace, the state it would have on its own events |
| PortScan.PortScanDetector.OnFlow | lanscope/src/anomaly/heuristics.rs:58-91 | the in-place update changes only the source's window, as the per-source step prescribes, and alerts exactly when that step fires |
| PortScan.StateIsWindow | lanscope/src/anomaly/heuristics.rs:61-76 | after every flow the state is the window's start, the distinct ports since that start, and alerted iff they reach the threshold |
| PortScan.ExactWindows | lanscope/src/anomaly/heuristics.rs:67-89 | an alert is raised at a flow iff that flow takes its window from below the threshold to it, and it then reports exactly threshold ports |
| PortScan.RateBounds | lanscope/src/anomaly/heuristics.rs:58-91 | on a trace in time order, alerts <= 1 + elapsed / (window + 1) and alerts * threshold <= flows |
| PortScan.Completeness | lanscope/src/anomaly/heuristics.rs:58-91 | 2 * threshold - 1 distinct ports within any span of window seconds force an alert between the start of the first window meeting the span and the end of the span, wherever windows reset |
| PortScan.OneRollAtMost | lanscope/src/anomaly/heuristics.rs:67-72 | flows within one span of window seconds fall into at most two tumbling windows, and the split point is exhibited |
| PortScan.CompletenessIsTight | lanscope/src/anomaly/heuristics.rs:58-91 | for every window of at least one second and every threshold from 2 to 0x8001 (beyond which there are not enough ports) there is a trace with 2 * threshold - 2 distinct ports in such a span and no alert |
| PortScan.ZeroWindowIsSharp | lanscope/src/anomaly/heuristics.rs:67-76 | with a window of zero seconds, threshold distinct ports within one second already force an alert |
| PortScan.SourcesAreIsolated | lanscope/src/anomaly/heuristics.rs:58-91 | on any interleaved trace a source's window is that of the detector run on the source's own flows |
| PortScan.AlertsAreIsolated | lanscope/src/anomaly/heuristics.rs:75-89 | on any interleaved trace each flow's alert is the one the source's own trace gives, naming the source and exactly threshold ports |
| VolumeSpike.VolumeSpikeDetector.OnFlow | lanscope/src/anomaly/heuristics.rs:118-145 | the average is updated before the decision, the decision uses the average from before it, and other sources keep theirs |
| VolumeSpike.AverageIsWeightedSum | lanscope/src/anomaly/heuristics.rs:122-126 | the running average equals the closed form 0.7^(n-1) x0 + sum of 0.3 * 0.7^(n-1-i) xi |
| VolumeSpike.AverageWithinRange | lanscope/src/anomaly/heuristics.rs:122-126 | the average never leaves the range of the source's observations |
| VolumeSpike.NextSpikeIsLarger | lanscope/src/anomaly/heuristics.rs:122-129 | of two alerts in a row the second byte count exceeds 1.5 times the first |
| VolumeSpike.SpikeLiftsAverage | lanscope/src/anomaly/heuristics.rs:122-129 | an alert lifts the average above 0.3 megabytes and above 2.2 times what it was |
| VolumeSpike.ConsecutiveSpikes | lanscope/src/anomaly/heuristics.rs:122-129 | of consecutive alerts on one source's flows the first exceeds 1,000,000 bytes and the (k+1)-th, for k >= 1, exceeds 1.5 * 2.2^(k-1) * 1,000,000 |
| VolumeSpike.AtMost40InARow | lanscope/src/anomaly/heuristics.rs:117-145 | with 64-bit byte counts a source cannot alert on more than 40 of its flows in a row |
| VolumeSpike.FortyInARow | lanscope/src/anomaly/heuristics.rs:117-145 | the bound is reached: one byte and then forty times the smallest whole count that alerts is a trace of 64-bit counts that alerts on 40 flows in a row |
| VolumeSpike.SpikesExactly | lanscope/src/anomaly/heuristics.rs:128-129 | on a positive average a whole byte count alerts iff it is at least 1,000,001 if five times the average is below 1,000,000, and otherwise iff it is at least the next whole number above five times the average |
| VolumeSpike.NeverSpikes | lanscope/src/anomaly/heuristics.rs:127-129 | without an average, or on one not above zero, nothing alerts |
| VolumeSpike.BurstAlerts | lanscope/src/anomaly/heuristics.rs:118-145 | whatever came before, if a source's average is at most two megabytes then twenty flows of 60 bytes and one of two megabytes end in an alert and leave the average at most two megabytes |
| VolumeSpike.EverySnapshotAlerts | lanscope/src/anomaly/heuristics.rs:94-145 | there is no bound on alerting snapshots: a source can alert in every one of any number of snapshots |
| VolumeSpike.AveragesAreIsolated | lanscope/src/anomaly/heuristics.rs:118-126 | on any interleaved trace a source's average is the one its own flows give |
| VolumeSpike.AlertsAreIsolated | lanscope/src/anomaly/heuristics.rs:118-145 | on any interleaved trace the next flow of a source alerts iff it is not its first, the closed-form weighted sum of its flows so far is positive, and its bytes reach the smallest alerting count of that sum; the alert names the source, the bytes and the sum |
| NetFmt.FmtMac | lanscope/src/netfmt.rs:6-15 | the loop prints the two-digit lower-case hexadecimal groups joined by colons |
| NetFmt.MacTextExact | lanscope/src/netfmt.rs:6-15 | a MAC prints as 17 characters: of each byte the high and the low digit out of 0123456789abcdef, with a colon after each of the first five pairs |
| NetFmt.ParseMac | lanscope/src/netfmt.rs:18-28 | the array-filling loop accepts exactly the texts whose colon-separated pieces are six hexadecimal bytes, and fails on any other |
| NetFmt.ParseHexByteExact | lanscope/src/netfmt.rs:22-24 | a piece parses to a byte iff it is a non-empty run of hexadecimal digits of that value below 256, with or without one plus sign |
| NetFmt.MacOfTextExact | lanscope/src/netfmt.rs:18-28 | a text parses to a MAC iff it is six pieces without colon, each parsing to that byte, joined by colons |
| NetFmt.MacRoundTrip | lanscope/src/netfmt.rs:6-28 | parse_mac(fmt_mac(m)) == Some(m) for every MAC |
| NetFmt.MacTextInjective | lanscope/src/netfmt.rs:6-15 | no two MACs print alike, so store keys never collide |
| NetFmt.FmtIpv4Injective | lanscope/src/netfmt.rs:31-34 | no two IPv4 addresses print alike |
| NetFmt.FmtIpv4Exact | lanscope/src/netfmt.rs:31-34 | an address prints as four decimal numerals below 256 without leading zeros between dots, and they are its octets, most significant first |
| Text.Utf8RoundTrip | lanscope/src/decode/dhcp.rs:46-46 | text of any script survives encoding to UTF-8 and strict decoding |
| Text.Utf8AcceptsOnlyText | lanscope/src/decode/dhcp.rs:46-46 | strict decoding accepts nothing but the encoding of its result |
| Text.TrimExact | lanscope/src/decode/dhcp.rs:47-47 | trimming removes the padding at both ends and nothing else |
| Text.EveryTextIsPadded | lanscope/src/decode/dhcp.rs:47-47 | every text is padding around nothing or around something that neither starts nor ends with padding, so TrimExact and TrimPadding cover all texts |
| Text.TrimPadding | lanscope/src/decode/dhcp.rs:47-47 | padding alone trims to nothing |
| Text.DropsExact | lanscope/src/decode/dhcp.rs:47-47 | blanks are the 25 code points of the Unicode property White_Space, each listed, and NUL is code point 0 |
| DhcpOptions.WalkOptions | lanscope/src/decode/dhcp.rs:26-73 | the index-driven loop with its four exits finds what the recursive reading of the options finds, for any interpretation of an option |
| DhcpOptions.WalkMeaning | lanscope/src/decode/dhcp.rs:26-43 | if a run of pads and options occupies the payload and nothing complete follows, the walk yields exactly those options' contributions in order |
| DhcpOptions.EveryPayloadIsWritten | lanscope/src/decode/dhcp.rs:26-43 | every payload is such a run followed by an end option, a cut-off option or nothing, so WalkMeaning covers all inputs |
| DhcpOptions.LayoutInNumbers | lanscope/src/decode/dhcp.rs:15-38 | on the wire a pad is a byte 0 and an option is its code, neither 0 nor 255, its length below 256 and its data; a walk stops at the end of the payload, at 255, or at an option that is cut off |
| DhcpOptions.WalkRoundTrip | lanscope/src/decode/dhcp.rs:26-73 | options written after any front and before any tail that completes no further option read back as exactly those options |
| DhcpOptions.WalkTruncated | lanscope/src/decode/dhcp.rs:26-43 | cutting bytes off the end cuts findings off the end and changes nothing else |
| DhcpOptions.FoundInSomeOption | lanscope/src/decode/dhcp.rs:36-42 | whatever is found was read from one option of at most 255 bytes |
| Dhcp.FindOptionsFrom | lanscope/src/decode/dhcp.rs:78-83 | the result is just past the first cookie at or after the position, and none is reported iff there is none |
| Dhcp.FindOptionsExact | lanscope/src/decode/dhcp.rs:78-83 | options start at an offset iff the four bytes 63 82 53 63 stand right before it and nowhere earlier |
| Dhcp.Decode | lanscope/src/decode/dhcp.rs:21-75 | the decoder is the option walk from just past the first cookie, with nothing found when there is no cookie |
| Dhcp.FingerprintInjective | lanscope/src/decode/dhcp.rs:53-62 | distinct parameter request lists print distinct fingerprints |
| Dhcp.FirstCookie | lanscope/src/decode/dhcp.rs:78-83 | if the first cookie in preamble and cookie together is the intended one, it stays the first whatever follows, self-overlap included |
| Dhcp.DecodeRoundTrip | lanscope/src/decode/dhcp.rs:21-83 | after such a preamble and cookie, any well-formed options with pads between them and any tail that completes no further option decode to exactly the in-order signals of options 12, 55 and 60 |
| Dhcp.TruncationKeepsPrefix | lanscope/src/decode/dhcp.rs:21-83 | for every n, decoding the first n bytes gives a prefix of decoding all of them |
| Dhcp.DhcpPacket | lanscope/src/capture/mock.rs:105-116 | the encoder writes zeros, cookie, the three length-prefixed options with lengths cut to eight bits, and the end option |
| Dhcp.PacketRoundTrip | lanscope/src/capture/mock.rs:105-116 | for parts of at most 255 bytes the packet decodes to the signals of its three parts |
| Dhcp.PacketRoundTripExact | lanscope/src/capture/mock.rs:105-116 | for visible ASCII texts the packet decodes to exactly hostname, request list and vendor class (none for an empty part) iff every part has at most 255 bytes |
| Dhcp.SignalsFitOptions | lanscope/src/decode/dhcp.rs:39-70 | no decoded name or request list is longer than one option can carry |
| Dhcp.HostnameExact | lanscope/src/decode/dhcp.rs:45-52 | for all data, option 12 yields exactly Hostname(name) iff the data is the UTF-8 form of name inside blanks inside NULs, with name not empty and not padded, and it yields nothing else |
| Dhcp.VendorClassExact | lanscope/src/decode/dhcp.rs:63-70 | for all data, option 60 yields exactly DhcpVendorClass(name) iff the data is the UTF-8 form of name inside blanks, with name not empty and not padded (inner blanks and any script allowed), and it yields nothing else |
| Dhcp.RequestListExact | lanscope/src/decode/dhcp.rs:53-62 | option 55 yields nothing for no codes, and otherwise one fingerprint whose comma-separated pieces are the decimal numerals of the codes in order |
| Dhcp.OtherOptionsAreSilent | lanscope/src/decode/dhcp.rs:44-72 | no option but 12, 55 and 60 yields anything |
| Dhcp.IllFormedTextIsSilent | lanscope/src/decode/dhcp.rs:45-70 | bytes that encode no text yield no hostname and no vendor class |
| Dns.ReadName | lanscope/src/decode/dns.rs:13-40 | the loop returns the dotted labels and end offset of the run at the start offset, and fails on a leading pointer, a cut-off run or a byte that is not printable |
| Dns.ReadsLabels | lanscope/src/decode/dns.rs:13-40 | labels of 1 to 63 bytes from 0x20 to 0x7e followed by a zero byte or a byte of 0x40 or more are read exactly, whatever surrounds them |
| Dns.ReadsOnlyLabels | lanscope/src/decode/dns.rs:13-40 | conversely, whatever is read is such a run, which is exhibited: every byte of a label that was read is from 0x20 to 0x7e |
| Dns.ReadAtExact | lanscope/src/decode/dns.rs:13-40 | an offset reads a non-empty name iff the name is written there: such labels whose texts joined by dots are the name, and then a zero byte or a pointer |
| Dns.ExtractNames | lanscope/src/decode/dns.rs:43-55 | the scan of every offset returns the interesting names read at any offset, each once, in order of first occurrence |
| Dns.NamesExact | lanscope/src/decode/dns.rs:43-62 | for every packet, a name is extracted iff it is written at some offset and is interesting |
| Dns.IsInterestingExact | lanscope/src/decode/dns.rs:58-62 | a name is interesting iff it has 3 to 255 characters and is something before .local, or something around ._tcp or ._udp |
| Dns.NamesInOrder | lanscope/src/decode/dns.rs:43-55 | of two extracted names, the one first read at the smaller offset comes first |
| Dns.NamesOnce | lanscope/src/decode/dns.rs:46-48 | no name is extracted twice |
| Prelude.DedupOrder | lanscope/src/decode/dns.rs:43-55 | of two elements, the one whose first occurrence is earlier stays first when duplicates are dropped |
| Dns.ReadTruncated | lanscope/src/decode/dns.rs:13-40 | a name that can be read in a truncated packet reads the same in the whole one |
| Dns.TruncationInventsNoName | lanscope/src/decode/dns.rs:43-55 | for every n, each name extracted from the first n bytes is extracted from all of them |
| MdnsScan.DnsName | lanscope/src/capture/mock.rs:86-94 | the encoder writes each label with its length cut to eight bits, then a zero byte |
| MdnsScan.InsideReadsNothing | lanscope/src/decode/dns.rs:17-39 | a read that starts inside a label fails when its first byte looks like a pointer, or when the span that byte announces passes over a byte that is not printable |
| MdnsScan.NameScans | lanscope/src/decode/dns.rs:43-55 | over the bytes of one clear name (a label with a byte below 0x40 has at most 32 bytes, the next label at most 31), offsets where a label starts read the name from there on and all other offsets read nothing |
| MdnsScan.ScanName | lanscope/src/decode/dns.rs:43-55 | all reads over one encoded name, in order, are its label suffixes, longest first |
| MdnsScan.OverlongReads | lanscope/src/decode/dns.rs:13-55 | in a name with a first label of 33 bytes and over 256 characters the only read inside that label that can succeed yields a name too long to be interesting |
| MdnsScan.ScanExactness | lanscope/src/decode/dns.rs:43-62 | from a header of zeros and any names of printable labels of 1 to 63 bytes, such that a label holding a byte below 0x40 has at most 32 bytes and is followed by a label of at most 31 (or the first has 33 in a name of over 256 characters), exactly the interesting label suffixes are extracted, each once, in order of first occurrence |
| MdnsTraps.ShortNamesScan | lanscope/src/decode/dns.rs:43-62 | names with a first label of at most 32 bytes (33 in a name of over 256 characters) and later labels of at most 31 scan exactly, whatever printable bytes the labels hold |
| MdnsTraps.LongNameMisleads | lanscope/src/decode/dns.rs:13-62 | names of any other lengths can be filled with printable bytes so that the scan reports a name that no one encoded |
| MdnsTraps.LengthsDecide | lanscope/src/decode/dns.rs:13-62 | for any number of names with labels of 1 to 63 bytes: all printable contents of these lengths scan exactly iff every name has a first label of at most 32 bytes (33 in a name of over 256 characters) and no later label of more than 31 |
| MdnsTraps.TrapFirstIsRead | lanscope/src/decode/dns.rs:29-38 | a space at the start of a first label of 33 bytes or more makes a read succeed that starts inside the label |
| MdnsTraps.TrapLaterIsRead | lanscope/src/decode/dns.rs:29-38 | a space at the end of a label makes a read succeed that swallows the length byte of a following label of 32 bytes or more |
| MdnsMeaning.LongLabelsMislead | lanscope/src/decode/dns.rs:13-62 | a concrete 63-byte printable label, in a packet that announces nothing, makes the scan report a host; LengthsDecide says for which lengths this can happen |
| Mdns.Decode | lanscope/src/decode/mdns.rs:9-21 | the loop yields, for the extracted names in order, a service, a host without its suffix, or nothing |
| Mdns.SignalOfExact | lanscope/src/decode/mdns.rs:12-18 | for every name, whatever it ends in: something around ._tcp or ._udp is that service; else a non-empty host before .local that does not start with an underscore is that host; else nothing |
| Mdns.ServiceDecoded | lanscope/src/decode/mdns.rs:9-21 | for every packet, with or without compression pointers, a service is decoded iff its name is written in the packet, names a transport after a dot and has at most 255 characters |
| Mdns.HostDecoded | lanscope/src/decode/mdns.rs:9-21 | for every packet a host is decoded iff it and .local are written in the packet with at most 255 characters, it is not empty, has no leading underscore, and no transport is named |
| Mdns.SignalOfInjective | lanscope/src/decode/mdns.rs:12-18 | two names that say the same thing are the same name |
| Mdns.FlatMapDedup | lanscope/src/decode/mdns.rs:10-20 | for any reading that keeps names apart, dropping duplicate names first drops exactly the duplicate signals |
| MdnsMeaning.DecodeAnnouncements | lanscope/src/decode/mdns.rs:9-21 | a packet of service and host names that scan exactly by ScanExactness decodes to exactly their announcements, each once: a service and its parent services under _tcp.local or _udp.local, as far as they have at most 255 characters, and a host by its bare name |
| MdnsMeaning.ServiceSays | lanscope/src/decode/mdns.rs:12-13 | all suffixes of a service name together say the services of at most 255 characters among them and nothing else |
| MdnsMeaning.HostSays | lanscope/src/decode/mdns.rs:14-18 | all suffixes of h.local, with h free of dots and a leading underscore, together say exactly Hostname(h) |
| MdnsMeaning.PairMeaning | lanscope/src/capture/mock.rs:97-102 | any service label and host label of up to 32 printable bytes encoded as in the portable backend decode to exactly that service and that host |
| MdnsMeaning.MdnsPacket | lanscope/src/capture/mock.rs:97-102 | the sample packet is a 12-byte header and its two encoded names |
| MdnsMeaning.SamplePacketMeaning | lanscope/src/capture/mock.rs:97-102 | the sample packet decodes to exactly one service and one host |
| EventCopy.Copied | lanscope-ebpf/src/main.rs:249-263 | the copy is a prefix of the frame from the payload offset, of exactly min(256, available) bytes when the copy helper succeeds and empty otherwise |
| EventCopy.Event.Emit | lanscope-ebpf/src/main.rs:249-264 | after filling the reserved record, reading its payload back gives exactly the bounded copy, whatever the record held before |
| EventCopy.CopyIsSafe | lanscope-ebpf/src/main.rs:246-264 | decoding the bounded copy as DHCP gives a prefix, and as mDNS a subset, of decoding the whole payload |
| Fingerprint.BuildHaystack | lanscope/src/fingerprint/rules.rs:239-258 | the appending code produces the lower-cased fields in order, each followed by a newline |
| Fingerprint.Classify | lanscope/src/fingerprint/rules.rs:223-235 | the classifier is the verdict of the table on the joined text |
| Fingerprint.JoinedIsPerField | lanscope/src/fingerprint/rules.rs:239-258 | a non-empty needle without newline occurs in the joined text iff it occurs in one single field |
| Fingerprint.NeedlesAreClean | lanscope/src/fingerprint/rules.rs:26-210 | every needle of the table is non-empty and has no newline |
| Fingerprint.WinnerIsLastMaximum | lanscope/src/fingerprint/rules.rs:225-229 | for any table and any set of hits the winner is the last matching row of maximal confidence, and there is none iff no row matches |
| Fingerprint.ClassifyIsPerField | lanscope/src/fingerprint/rules.rs:223-258 | matching the joined text gives the same verdict as matching each field by itself, for every device |
| Fingerprint.VerdictIsLastMaximum | lanscope/src/fingerprint/rules.rs:223-258 | a classification is the verdict iff it is the last of the most confident rows whose needle is spelled in any case by the vendor, the vendor class, the hostname or a service; none iff no text spells any needle |
| Fingerprint.MatchExact | lanscope/src/fingerprint/rules.rs:226-242 | a needle without capitals occurs in a lowercased text iff at some offset each character of the text is the needle's or the capital of it |
| Fingerprint.CaseIsIrrelevant | lanscope/src/fingerprint/rules.rs:239-258 | devices whose texts differ only in the case of ASCII letters get the same verdict |
| Fingerprint.EchoBannerDecides | lanscope/src/fingerprint/rules.rs:26-235 | a device with a text that spells amazonecho in any case is an Amazon Echo, whatever its other texts say |
| Fingerprint.OrderIsIrrelevant | lanscope/src/fingerprint/rules.rs:223-258 | devices with the same set of texts get the same verdict, whatever order, number or field |
| Fingerprint.ServicesMayBePermuted | lanscope/src/fingerprint/rules.rs:254-256 | permuting the services never changes the verdict |
| Fingerprint.ConfidenceNeverDrops | lanscope/src/fingerprint/rules.rs:223-235 | with more texts a verdict never disappears and its confidence never drops |
| Fingerprint.RequestListWouldNotMatter | lanscope/src/fingerprint/rules.rs:3-5 | adding a printed DHCP request list to the searched texts of any device changes no verdict |
| Registry.PushIp | lanscope/src/registry/mod.rs:154-163 | the search-and-move makes the address the last one and keeps the order of the others |
| Registry.ApplySignal | lanscope/src/registry/mod.rs:165-181 | a signal sets the field it names, adds a service only if it is new and fewer than 32 are kept, and changes nothing else |
| Registry.DeviceRegistry.Observe | lanscope/src/registry/mod.rs:121-134 | only the observed MAC's record changes, by exactly one sighting; Created iff it was unknown |
| Registry.DeviceRegistry.ApplyFlow | lanscope/src/registry/mod.rs:140-151 | for any visiting order, traffic is added to one device that holds the source address, or to none iff no device holds it |
| Registry.DeviceRegistry.SetDeviceType | lanscope/src/registry/mod.rs:108-112 | only the named device's type changes, and an unknown MAC changes nothing |
| Registry.DeviceRegistry.Load | lanscope/src/registry/mod.rs:98-100 | the device is stored under its MAC and no other entry changes |
| DeviceHistory.PlayIsSummary | lanscope/src/registry/mod.rs:121-181 | any sequence of sightings and flows leaves the record that the whole history summarises: distinct addresses by last occurrence, first 32 distinct services by first occurrence, last hostname and DHCP fields, capped traffic totals |
| DeviceHistory.LastOccurrencesSnoc | lanscope/src/registry/mod.rs:154-163 | moving one address to the end keeps the list in order of last occurrence |
| Prelude.LastOccurrencesOrder | lanscope/src/registry/mod.rs:154-163 | of two elements, the one whose last occurrence is earlier comes first in the list of last occurrences |
| DeviceHistory.OfferOne | lanscope/src/registry/mod.rs:172-176 | offering one more service keeps the list the first 32 distinct ones |
| DeviceHistory.AddressWasSighted | lanscope/src/registry/mod.rs:142-145 | an address text occurs in a device's history iff the device was sighted with exactly that address |
| DeviceHistory.HoldsMeansSighted | lanscope/src/registry/mod.rs:142-145 | a device created in the run holds an address iff it was sighted with it |
| Store.SqliteStore.UpsertDevice | lanscope/src/storage/sqlite.rs:101-136 | an insert, or an update of all columns but first_seen; no other row changes |
| Store.SqliteStore.LoadDevices | lanscope/src/storage/sqlite.rs:74-99 | every row is read back once, and nothing that is not a row |
| Store.SqliteStore.RecordAlert | lanscope/src/storage/sqlite.rs:138-144 | the alert is appended and earlier alerts stay |
| Store.RowRoundTrip | lanscope/src/storage/sqlite.rs:83-133 | a device survives its row, 64-bit counters through the signed columns included |
| Store.SignedIsSameBits | lanscope/src/storage/sqlite.rs:131-132 | the signed column value is the counter modulo 2^64 |
| Store.RowAfterWrites | lanscope/src/storage/sqlite.rs:101-136 | after any sequence of writes a row has the first_seen of its first write (or of the row before) and everything else of its last write |
| RowsInStep.CreateKeepsInStep | lanscope/src/app.rs:238-246 | storing a new device at once keeps rows and devices in step, for any one-to-one text form of MACs |
| RowsInStep.PersistKeepsInStep | lanscope/src/app.rs:295-301 | writing a known device makes its row exactly its record, first_seen included, and keeps all rows in step |
| RowsInStep.RestoredRows | lanscope/src/app.rs:286-293 | seeding from in-step rows gives each device its own row back, whatever the order of rows |
| RowsInStep.RestoredExactly | lanscope/src/app.rs:286-301 | if every device's row is its record, seeding gives back exactly the devices |
| RowsInStep.CanRestore | lanscope/src/app.rs:286-293 | any rows at all can be seeded from, so a restart is possible after every crash |
| AppHandler.AnomalyEngine.OnDevice | lanscope/src/anomaly/heuristics.rs:17-29 | exactly a newly created device is announced, once, by hostname, else vendor, else MAC |
| AppHandler.AnomalyEngine.OnFlow | lanscope/src/anomaly/mod.rs:66-71 | both flow detectors see the flow, and their alerts come in the order of the stack |
| AppHandler.Agent.EmitAlerts | lanscope/src/app.rs:269-284 | all alerts are recorded, in order, and nothing else changes |
| AppHandler.Agent.HandleObservation | lanscope/src/app.rs:225-251 | one observation is exactly one sighting step of the state machine: the zero MAC is skipped, a new device is typed, stored and announced, a known one is typed only |
| AppHandler.Agent.HandleFlow | lanscope/src/app.rs:257-262 | one flow is exactly one counting step, attributed to a device holding its source or to none iff no device does |
| AppHandler.Agent.HandleEvent | lanscope/src/app.rs:213-266 | an event extends any run by exactly its observations or flows, one step each, in order, and returns the number of observations with a real MAC |
| AppHandler.Agent.FlushAll | lanscope/src/app.rs:295-301 | every device is written, none is forgotten, in an arbitrary order that is exhibited |
| AppHandler.Agent.SeedRegistry | lanscope/src/app.rs:286-293 | every row with a parsable key is loaded under its MAC and replaces what was there, all other devices stay, and from an empty registry nothing but rows is loaded |
| AppHandler.FlushIsRun | lanscope/src/app.rs:295-301 | a flush is a run of writing steps that changes the rows and nothing else |
| AppHandler.FlushReachesAll | lanscope/src/app.rs:295-301 | after a flush in any order each row is its device's current record and rows stay in step |
| AppHandler.FlushThenRestart | lanscope/src/app.rs:286-301 | after any run from an empty store, crashes included: flush, restart and seed rebuild the registry exactly |
| AppRuns.StepKeepsInv | lanscope/src/app.rs:213-301 | every step keeps: each device has a row under its own MAC and vice versa, with the same first_seen and no larger counters; at most one announcement per MAC, and only of stored devices; no zero MAC |
| AppRuns.RunKeepsInv | lanscope/src/app.rs:213-301 | the same over every run with any number of crashes and restarts |
| AppRuns.CrashLosesNoDevice | lanscope/src/app.rs:243-246 | a crash after any run from an empty store loses no device and no first_seen, and no counter comes back larger |
| AppRuns.AnnouncedAtMostOnce | lanscope/src/app.rs:238-249 | over any run with crashes and restarts, also in the middle of handling an observation, each MAC is announced at most once |
| AppRuns.AnnouncedExactlyOnce | lanscope/src/app.rs:223-252 | in one uninterrupted run a MAC gets exactly one more announcement iff it is not zero, was unknown at the start and is sighted, however often |
| AppRuns.KnownDevices | lanscope/src/app.rs:223-252 | in one uninterrupted run the devices are exactly those of the start and the non-zero MACs sighted since |
| AppRuns.AnnouncedUnlessSilenced | lanscope/src/app.rs:238-249 | over every run from an empty store with any crashes and restarts, a MAC is announced exactly once if it is known and no crash came between storing its row and recording its alert, and never otherwise |
| AppRuns.KnownIsNeverAnnounced | lanscope/src/app.rs:238-249 | a known device stays known and is never announced again over any run with crashes and restarts |
| AppRuns.KnownAfterDying | lanscope/src/app.rs:238-249 | after a crash in the middle of an observation the restarted process knows what it knew before, and the new device iff its row was written |
| AppRuns.DyingIsEnabled | lanscope/src/app.rs:244-248 | a crash in the middle of an observation, before or after the row is written, can happen in every state |
| AppRuns.DyingSilences | lanscope/src/app.rs:244-248 | after any run and for any non-zero unknown MAC there is such a crash that leaves the device known and never announced |
| Announcements.SightingIsRecorded | lanscope/src/app.rs:225-251 | in every state an all-zero address changes nothing; any other is on record afterwards, and if it was unknown exactly one alert is appended, naming its address, the hostname it just gave or else its vendor or else its address, and its vendor or "unknown vendor" |
| Announcements.AnnouncementsSay | lanscope/src/anomaly/heuristics.rs:17-29 | over every run from an empty store with any crashes, each announcement on record is, word for word, that of a sighting of the run |
| AppTraffic.TrafficIsConserved | lanscope/src/app.rs:254-264 | over any uninterrupted run the devices' packets (and bytes) plus unattributed traffic never exceed those at the start plus all that was counted, and equal them iff no device counter saturates |
| AppTraffic.FlowAddsToTotal | lanscope/src/registry/mod.rs:140-151 | one flow raises the sum over all devices by its traffic if some device holds its source and its counter does not saturate, by less iff it saturates, and not at all without such a device |
| AppDevices.RecordIsSummary | lanscope/src/registry/mod.rs:121-181 | after any uninterrupted run every device's record, type aside, is the summary of what the run did to it since it was first known |
| AppDevices.NewRecord | lanscope/src/registry/mod.rs:44-59 | after any uninterrupted run a device unknown at its start has the vendor that the lookup gives for its MAC, first_seen the time of its first sighting, last_seen that of its last event, and in each other field the summary of its history from nothing |
| AppDevices.NewRecordSays | lanscope/src/registry/mod.rs:44-59 | its hostname and DHCP fields hold only what its sightings said and are empty iff none said any, its services are said ones and all of them below 32, and it holds an address iff it was sighted with it |
| AppDevices.TypeIsCurrent | lanscope/src/app.rs:233-235 | after any uninterrupted run the device type is the verdict on the signals the record holds now |
| AppDevices.TypeByTable | lanscope/src/fingerprint/rules.rs:223-258 | a record has a type iff it is that of the last most confident table row whose needle its vendor, vendor class, hostname or a service spells in any case, and none iff it spells no needle |
| AppDevices.TypesAreFromTable | lanscope/src/app.rs:233-235 | over every run from an empty store with any crashes, every known device has exactly that type |
| AppDevices.RunKeepsFit | lanscope/src/app.rs:213-301 | in every run from an empty store with any crashes and restarts, every record in memory and in the store has distinct addresses, at most 32 distinct services, and the type its own signals imply |
| AppDevices.RecordIsSummarySince | lanscope/src/registry/mod.rs:121-181 | after any run with crashes and restarts, a further uninterrupted run leaves each record the summary of what happened since, on top of the record known or restored then, with a current type |
| AppDevices.TypeIgnoresFingerprint | lanscope/src/fingerprint/rules.rs:239-258 | changing the DHCP fingerprint of a record never changes its type |
| AppDevices.TrafficGoesToSightedDevice | lanscope/src/registry/mod.rs:140-151 | a flow is attributed to a device first seen in the run only if that device was sighted with the flow's source address |
| AppDevices.UnattributedWasNotSighted | lanscope/src/registry/mod.rs:140-151 | and it is attributed to nobody only if no device first seen in the run was sighted with that address |
| AppAlerts.RunMatches | lanscope/src/app.rs:257-262 | in every uninterrupted run of a fresh process the detectors' tables are those of the flows handled so far |
| AppAlerts.RunTallies | lanscope/src/app.rs:254-284 | in every such run, the scan alerts recorded for a source are as many as the scan detector raises on the source's own flows, and likewise the spike alerts |
| AppAlerts.FlowAlertsExactly | lanscope/src/app.rs:257-262 | in every such run a flow puts on record exactly: a scan naming its source, 20 ports and 10 seconds iff it takes the distinct ports of its source's window from below 20 to 20, and after it a spike iff its bytes reach the smallest alerting count of the weighted sum of its source's earlier flows |
| AppAlerts.ScanIsReported | lanscope/src/app.rs:254-284 | in every such run, 39 distinct ports that a source contacts within ten seconds put an alert on record that names the source and exactly 20 ports |
| AppAlerts.ScansAreBounded | lanscope/src/app.rs:254-284 | in every such run, a source's scan alerts number at most 1 + elapsed / 11 and at most a twentieth of its flows |
| EndToEnd.EveryPacketAccountedFor | lanscope/src/capture/ebpf.rs:113-117 | between drains, for a handler that was given exactly the drained snapshots, every packet and byte of a flow on the wire was counted for that flow, or is in the table, or was refused by a full table, or fell between a read and its removal, iff no single reported or held block outgrew 64-bit counters |
| Pipeline.Tick | lanscope/src/capture/ebpf.rs:113-117 | one drain and the handling of what it sends extend both runs and keep the handler's records equal to the snapshots ever drained, so the hypothesis of the other rows holds from tick to tick |
| Pipeline.CountsAllEntries | lanscope/src/app.rs:254-263 | handling a snapshot adds exactly its records, in order, to those the handler was given |
| Pipeline.SightsAllEntries | lanscope/src/app.rs:223-253 | handling discoveries adds none |
| WireToRegistry.LostIsSum | lanscope/src/capture/ebpf.rs:148-173 | over all flows, what full tables refused and gaps swallowed is exactly the packets that arrived at a full table or between their entry's read and removal |
| WireToRegistry.WireIsCounted | lanscope/src/capture/ebpf.rs:148-173 | over all flows, what the handler counted, what the table holds and what was lost never exceed what arrived, and equal it if no record outgrew its counters |
| WireToRegistry.WireReachesRegistry | lanscope/src/registry/mod.rs:140-151 | what all devices were charged with, the unattributed traffic, the traffic in the table and the lost traffic never exceed what crossed the wire (and what was charged at the start), and equal it if no record and no device counter overflows |

## Left out

- Kernel memory: each packet step is atomic. Lost updates between CPUs, recycled map elements
  and ring-buffer reservation are not part of this model.
- Map access: opening the flow map succeeds (`drain_flows` returns nothing when it does not),
  removing a present key succeeds, and a cursor visits a key at most once and every key that
  is present throughout.
- KernelTable.FlowTable.UpdateFlow: the counters wrap, as in a build without overflow checks;
  a build with them would stop the program instead.
- VolumeSpike.VolumeSpikeDetector.OnFlow: floating point is modelled by `real`, so rounding and
  the conversion of large byte counts are not covered; the confidences of the rule table are
  `real` as well.
- PortScan.RateBounds: assumes a clock that does not go back, as does Completeness; the
  detector itself is modelled for any clock.
- MdnsScan.ScanExactness: the condition on the bytes is sufficient; which names outside it scan
  exactly depends on every byte. In terms of label lengths, LengthsDecide is exact.
- MdnsTraps.LengthsDecide: labels have 1 to 63 bytes, as section 3.1 of RFC 1035 demands. The
  encoder does not enforce this; a longer label's length byte reads as a pointer.
- Dhcp.PacketRoundTripExact: stated for visible ASCII texts, on which trimming has no effect;
  PacketRoundTrip covers all bytes.
- Store.SqliteStore.UpsertDevice: writes succeed. The source logs and ignores failures. SQL
  text and the JSON form of the two list columns are the identity.
- AppHandler.Agent.HandleEvent: the wall clock is a parameter, and a crash falls between flows
  or inside the handling of an observation, not between two alerts of one flow.
- AppTraffic.TrafficIsConserved: stated for runs without a restart; after a crash, traffic since
  the last flush is gone, and CrashLosesNoDevice says what comes back.
- AppDevices.RecordIsSummary: the start records must have distinct lists, as RunKeepsFit proves
  of all that the program writes; a store edited by other programs is not covered.
- Alerts: the severity and the wording of a message are left out; its parts are kept.
- Pipeline.Tick: the channel between the two tasks delivers a snapshot before the next drain;
  queueing is not modelled.
- AppAlerts.RunTallies: stated for runs of a process that starts without windows and averages,
  as every process does, up to its end.
- The vendor lookup is a parameter, an arbitrary function of the MAC.
- SSDP line parsing, the dispatch of `decode_event`, enum conversions: easy members.
- XDP header parsing, the `NewHost` table, loading and attaching: kernel and I/O plumbing.
- Tasks, channels, signal handling, terminal interface, exporter, command line, configuration,
  the ONNX detector and its training pipeline.

Every statement above is a theorem about this model, not an observation of the running program.
