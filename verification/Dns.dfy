/** The name scan of lanscope/src/decode/dns.rs. Labels and compression pointers are those of
    sections 3.1 and 4.1.4 of RFC 1035. */
module Dns {
  import opened Prelude
  import opened Text

  /** `u8::is_ascii_graphic`, or a space. */
  predicate LabelByte(b: byte) {
    0x21 <= b < 0x7f || b == ' ' as int
  }

  predicate AllLabelBytes(data: seq<byte>) {
    forall i :: 0 <= i < |data| ==> LabelByte(data[i])
  }

  /** A length byte with one of its top two bits set: a compression pointer or reserved. */
  predicate IsPointer(len: byte) {
    len >= 0x40
  }

  /** The labels from pos on, up to a zero byte or a pointer, and the offset past the end. */
  function ReadLabels(buf: seq<byte>, pos: nat): Option<(seq<string>, nat)>
    decreases |buf| - pos
  {
    if pos >= |buf| then None
    else if buf[pos] == 0 then Some(([], pos + 1))
    else if IsPointer(buf[pos]) then Some(([], pos + 2))
    else
      var end := pos + 1 + buf[pos];
      if end > |buf| || !AllLabelBytes(buf[pos + 1..end]) then None
      else
        match ReadLabels(buf, end)
        case None => None
        case Some((labels, next)) => Some(([Ascii(buf[pos + 1..end])] + labels, next))
  }

  /** The dotted name at start; a name must not begin with a pointer. */
  function NameAt(buf: seq<byte>, start: nat): Option<(string, nat)> {
    if start < |buf| && IsPointer(buf[start]) then None
    else
      match ReadLabels(buf, start)
      case None => None
      case Some((labels, next)) => Some((Join(labels, '.'), next))
  }

  /** ReadLabels with the labels found before pos in front. */
  function ReadOnto(buf: seq<byte>, pos: nat, found: seq<string>): Option<(seq<string>, nat)> {
    match ReadLabels(buf, pos)
    case None => None
    case Some((labels, next)) => Some((found + labels, next))
  }

  method ReadName(buf: seq<byte>, start: nat) returns (r: Option<(string, nat)>)
    ensures r == NameAt(buf, start)
  {
    var pos := start;
    var labels: seq<string> := [];
    NothingBefore(buf, start);
    while true
      invariant labels == [] ==> pos == start
      invariant labels != [] ==> start < |buf| && !IsPointer(buf[start])
      invariant ReadOnto(buf, pos, labels) == ReadLabels(buf, start)
      decreases |buf| - pos
    {
      if pos >= |buf| {
        return None;
      }
      var len := buf[pos];
      if len == 0 {
        assert labels + [] == labels;
        return Some((Join(labels, '.'), pos + 1));
      }
      if IsPointer(len) {
        if labels == [] {
          return None;
        }
        assert labels + [] == labels;
        return Some((Join(labels, '.'), pos + 2));
      }
      pos := pos + 1;
      var end := pos + len;
      if end > |buf| {
        return None;
      }
      var head := buf[pos..end];
      if !AllLabelBytes(head) {
        return None;
      }
      OneLabelMore(buf, pos - 1, labels);
      labels := labels + [Ascii(head)];
      pos := end;
    }
  }

  lemma NothingBefore(buf: seq<byte>, pos: nat)
    ensures ReadOnto(buf, pos, []) == ReadLabels(buf, pos)
  {
    match ReadLabels(buf, pos)
    case None =>
    case Some((labels, _)) => assert [] + labels == labels;
  }

  lemma OneLabelMore(buf: seq<byte>, pos: nat, found: seq<string>)
    requires pos < |buf| && 0 < buf[pos] < 0x40 && pos + 1 + buf[pos] <= |buf|
    requires AllLabelBytes(buf[pos + 1..pos + 1 + buf[pos]])
    ensures
      var end := pos + 1 + buf[pos];
      ReadOnto(buf, pos, found) == ReadOnto(buf, end, found + [Ascii(buf[pos + 1..end])])
  {
    var end := pos + 1 + buf[pos];
    var head := Ascii(buf[pos + 1..end]);
    match ReadLabels(buf, end)
    case None =>
    case Some((labels, next)) =>
      assert found + ([head] + labels) == found + [head] + labels;
  }

  /** Names that look like service types or local hosts. */
  predicate IsInteresting(name: string) {
    3 <= |name| <= 255 && (EndsWith(name, ".local") || Contains(name, "._tcp") || Contains(name, "._udp"))
  }

  /** The name read at one offset, if any. */
  function ReadAt(buf: seq<byte>, pos: nat): seq<string> {
    match NameAt(buf, pos)
    case None => []
    case Some((name, _)) => [name]
  }

  function ReadsOf(buf: seq<byte>): nat -> seq<string> {
    (pos: nat) => ReadAt(buf, pos)
  }

  /** The names read at offsets from .. to - 1, in order. */
  function Reads(buf: seq<byte>, from: nat, to: nat): seq<string>
    requires from <= to
  {
    Collect(ReadsOf(buf), from, to)
  }

  /** The interesting ones, in order. */
  function Interesting(names: seq<string>): seq<string> {
    if names == [] then []
    else
      var n := |names| - 1;
      Interesting(names[..n]) + if IsInteresting(names[n]) then [names[n]] else []
  }

  function Names(buf: seq<byte>): seq<string> {
    Dedup(Interesting(Reads(buf, 0, |buf|)))
  }

  method ExtractNames(buf: seq<byte>) returns (out: seq<string>)
    ensures out == Names(buf)
  {
    out := [];
    var pos := 0;
    while pos < |buf|
      invariant pos <= |buf| && out == Dedup(Interesting(Reads(buf, 0, pos)))
    {
      var r := ReadName(buf, pos);
      var before := Reads(buf, 0, pos);
      assert Reads(buf, 0, pos + 1) == before + ReadAt(buf, pos);
      if r.Some? {
        OneNameMore(before, r.value.0);
        if IsInteresting(r.value.0) && r.value.0 !in out {
          out := out + [r.value.0];
        }
      } else {
        assert before + [] == before;
      }
      pos := pos + 1;
    }
  }

  lemma OneNameMore(before: seq<string>, name: string)
    ensures
      var out := Dedup(Interesting(before));
      Dedup(Interesting(before + [name])) == if IsInteresting(name) && name !in out then out + [name] else out
  {
    InterestingSnoc(before, name);
    if IsInteresting(name) {
      DedupSnoc(Interesting(before), name);
      DedupMember(Interesting(before), name);
    } else {
      assert Interesting(before) + [] == Interesting(before);
    }
  }

  lemma InterestingSnoc(names: seq<string>, name: string)
    ensures Interesting(names + [name]) == Interesting(names) + if IsInteresting(name) then [name] else []
  {
    assert (names + [name])[..|names|] == names;
  }

  lemma {:induction false} InterestingAppend(a: seq<string>, b: seq<string>)
    ensures Interesting(a + b) == Interesting(a) + Interesting(b)
  {
    if b == [] {
      assert a + b == a;
    } else {
      var n := |b| - 1;
      InterestingAppend(a, b[..n]);
      InterestingSnoc(a + b[..n], b[n]);
      assert a + b == (a + b[..n]) + [b[n]];
    }
  }

  lemma {:induction false} InterestingMember(names: seq<string>, name: string)
    ensures name in Interesting(names) <==> name in names && IsInteresting(name)
  {
    if names != [] {
      InterestingMember(names[..|names| - 1], name);
    }
  }

  // --- what is on the wire ---

  predicate AllPrintable(data: seq<byte>) {
    forall i :: 0 <= i < |data| ==> 0x20 <= data[i] <= 0x7e
  }

  lemma LabelBytesArePrintable(data: seq<byte>)
    ensures AllLabelBytes(data) <==> AllPrintable(data)
  {
    forall i | 0 <= i < |data|
      ensures LabelByte(data[i]) <==> 0x20 <= data[i] <= 0x7e
    {
    }
  }

  /** A run of labels as they occupy buf[pos..end]: length byte, then that many printable bytes. */
  datatype Labels = Nothing | First(head: seq<byte>, rest: Labels)

  predicate LabelsAt(buf: seq<byte>, pos: nat, labels: Labels, end: nat)
    decreases labels
  {
    match labels
    case Nothing => pos == end
    case First(head, rest) =>
      var next := pos + 1 + |head|;
      && next <= |buf|
      && 0 < |head| < 0x40
      && buf[pos] == |head|
      && buf[pos + 1..next] == head
      && AllPrintable(head)
      && LabelsAt(buf, next, rest, end)
  }

  function Strings(labels: Labels): seq<string> {
    if labels.Nothing? then [] else [Ascii(labels.head)] + Strings(labels.rest)
  }

  predicate EndsAt(buf: seq<byte>, end: nat, next: nat) {
    end < |buf| && ((buf[end] == 0 && next == end + 1) || (buf[end] >= 0x40 && next == end + 2))
  }

  /** Labels followed by a zero byte or a pointer are read, whatever surrounds them ... */
  lemma {:induction false} ReadsLabels(buf: seq<byte>, pos: nat, labels: Labels, end: nat, next: nat)
    requires LabelsAt(buf, pos, labels, end) && EndsAt(buf, end, next)
    ensures ReadLabels(buf, pos) == Some((Strings(labels), next))
    decreases labels
  {
    if labels.First? {
      LabelBytesArePrintable(labels.head);
      ReadsLabels(buf, pos + 1 + |labels.head|, labels.rest, end, next);
    }
  }

  /** ... and nothing else is. */
  lemma {:induction false} ReadsOnlyLabels(buf: seq<byte>, pos: nat) returns (labels: Labels, end: nat)
    requires ReadLabels(buf, pos).Some?
    ensures LabelsAt(buf, pos, labels, end) && EndsAt(buf, end, ReadLabels(buf, pos).value.1)
    ensures ReadLabels(buf, pos).value.0 == Strings(labels)
    decreases |buf| - pos
  {
    if buf[pos] == 0 || IsPointer(buf[pos]) {
      labels, end := Nothing, pos;
    } else {
      var next := pos + 1 + buf[pos];
      var rest;
      rest, end := ReadsOnlyLabels(buf, next);
      LabelBytesArePrintable(buf[pos + 1..next]);
      labels := First(buf[pos + 1..next], rest);
    }
  }

  /** Labels at pos, a zero byte or a pointer at end, and name between them. */
  predicate IsNameAt(buf: seq<byte>, pos: nat, labels: Labels, end: nat, name: string) {
    labels.First? && LabelsAt(buf, pos, labels, end) && end < |buf| && (buf[end] == 0 || buf[end] >= 0x40)
    && name == Join(Strings(labels), '.')
  }

  /** The scan reads a name at an offset iff it is written there. */
  lemma ReadAtExact(buf: seq<byte>, pos: nat, name: string)
    requires name != ""
    ensures ReadAt(buf, pos) == [name] <==> exists labels, end: nat :: IsNameAt(buf, pos, labels, end, name)
  {
    if ReadAt(buf, pos) == [name] {
      var labels, end := ReadsOnlyLabels(buf, pos);
      assert IsNameAt(buf, pos, labels, end, name);
    }
    if exists labels, end: nat :: IsNameAt(buf, pos, labels, end, name) {
      var labels, end: nat :| IsNameAt(buf, pos, labels, end, name);
      ReadsLabels(buf, pos, labels, end, if buf[end] == 0 then end + 1 else end + 2);
    }
  }

  ghost predicate OnWire(buf: seq<byte>, name: string) {
    exists pos: nat, labels, end: nat :: IsNameAt(buf, pos, labels, end, name)
  }

  lemma IsInterestingExact(name: string)
    ensures IsInteresting(name)
       <==> && 3 <= |name| <= 255
            && (|| (exists a: string :: name == a + ".local")
                || (exists a: string, b: string :: name == a + "._tcp" + b)
                || (exists a: string, b: string :: name == a + "._udp" + b))
  {
    EndsWithExact(name, ".local");
    ContainsExact(name, "._tcp");
    ContainsExact(name, "._udp");
  }

  predicate ReadBetween(buf: seq<byte>, from: nat, to: nat, name: string) {
    exists pos :: from <= pos < to && ReadAt(buf, pos) == [name]
  }

  lemma InterestingReads(buf: seq<byte>, from: nat, to: nat, name: string)
    requires from <= to
    ensures name in Interesting(Reads(buf, from, to)) <==> IsInteresting(name) && ReadBetween(buf, from, to, name)
  {
    CollectMember(ReadsOf(buf), from, to, name);
    InterestingMember(Reads(buf, from, to), name);
    forall pos: nat
      ensures name in ReadsOf(buf)(pos) <==> ReadAt(buf, pos) == [name]
    {
    }
  }

  /** Of any packet, exactly the interesting names that are written somewhere are extracted ... */
  lemma NamesExact(buf: seq<byte>, name: string)
    ensures name in Names(buf) <==> IsInteresting(name) && OnWire(buf, name)
  {
    DedupMember(Interesting(Reads(buf, 0, |buf|)), name);
    InterestingReads(buf, 0, |buf|, name);
    if IsInteresting(name) {
      WrittenIsRead(buf, name);
    }
  }

  lemma WrittenIsRead(buf: seq<byte>, name: string)
    requires name != ""
    ensures OnWire(buf, name) <==> ReadBetween(buf, 0, |buf|, name)
  {
    if OnWire(buf, name) {
      var pos: nat, labels, end: nat :| IsNameAt(buf, pos, labels, end, name);
      ReadAtExact(buf, pos, name);
      assert 0 <= pos < |buf|;
    }
    if ReadBetween(buf, 0, |buf|, name) {
      var pos :| 0 <= pos < |buf| && ReadAt(buf, pos) == [name];
      ReadAtExact(buf, pos, name);
    }
  }

  predicate FirstReadAt(buf: seq<byte>, name: string, pos: nat) {
    ReadAt(buf, pos) == [name] && forall q: nat :: q < pos ==> ReadAt(buf, q) != [name]
  }

  /** ... each once ... */
  lemma NamesOnce(buf: seq<byte>)
    ensures forall i, j :: 0 <= i < j < |Names(buf)| ==> Names(buf)[i] != Names(buf)[j]
  {
    DedupNoDuplicates(Interesting(Reads(buf, 0, |buf|)));
  }

  /** ... in the order in which they are first read. */
  lemma NamesInOrder(buf: seq<byte>, x: string, y: string, p: nat, q: nat)
    requires IsInteresting(x) && FirstReadAt(buf, x, p) && IsInteresting(y) && FirstReadAt(buf, y, q)
    requires p < q < |buf|
    ensures Before(Names(buf), x, y)
  {
    CollectSplit(ReadsOf(buf), 0, q, |buf|);
    InterestingAppend(Reads(buf, 0, q), Reads(buf, q, |buf|));
    FirstReads(buf, x, y, p, q);
    InterestingReads(buf, 0, q, x);
    InterestingReads(buf, 0, q, y);
    InterestingReads(buf, q, |buf|, y);
    DedupKeepsOrder(Interesting(Reads(buf, 0, q)), Interesting(Reads(buf, q, |buf|)), x, y);
  }

  lemma FirstReads(buf: seq<byte>, x: string, y: string, p: nat, q: nat)
    requires FirstReadAt(buf, x, p) && FirstReadAt(buf, y, q) && p < q < |buf|
    ensures ReadBetween(buf, 0, q, x) && !ReadBetween(buf, 0, q, y) && ReadBetween(buf, q, |buf|, y)
  {
  }

  // --- a truncated copy never invents names ---

  lemma {:induction false} ReadTruncated(buf: seq<byte>, n: nat, pos: nat)
    requires n <= |buf| && ReadLabels(buf[..n], pos).Some?
    ensures ReadLabels(buf, pos) == ReadLabels(buf[..n], pos)
    decreases |buf| - pos
  {
    var cut := buf[..n];
    if buf[pos] != 0 && !IsPointer(buf[pos]) {
      var end := pos + 1 + buf[pos];
      assert cut[pos + 1..end] == buf[pos + 1..end];
      ReadTruncated(buf, n, end);
    }
  }

  /** Every name found in a truncated packet is found in the whole one. */
  lemma TruncationInventsNoName(buf: seq<byte>, n: nat, name: string)
    requires n <= |buf| && name in Names(buf[..n])
    ensures name in Names(buf)
  {
    var cut := buf[..n];
    InterestingMember(Reads(cut, 0, n), name);
    InterestingMember(Reads(buf, 0, |buf|), name);
    DedupMember(Interesting(Reads(cut, 0, n)), name);
    DedupMember(Interesting(Reads(buf, 0, |buf|)), name);
    CollectMember(ReadsOf(cut), 0, n, name);
    CollectMember(ReadsOf(buf), 0, |buf|, name);
    var pos :| 0 <= pos < n && name in ReadsOf(cut)(pos);
    ReadTruncated(buf, n, pos);
    assert name in ReadsOf(buf)(pos);
  }
}
