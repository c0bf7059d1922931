/** What the scan of every offset finds in packets that hold whole encoded names: the
    encoders of lanscope/src/capture/mock.rs against lanscope/src/decode/dns.rs. */
module MdnsScan {
  import opened Prelude
  import opened Text
  import opened Dns

  // --- encoding ---

  function LabelsOf(parts: seq<seq<byte>>, k: nat): Labels
    requires k <= |parts|
    decreases |parts| - k
  {
    if k == |parts| then Nothing else First(parts[k], LabelsOf(parts, k + 1))
  }

  /** Length-prefixed labels and a zero byte; `len() as u8` keeps the low eight bits. */
  function NameBytes(labels: Labels): seq<byte> {
    match labels
    case Nothing => [0]
    case First(head, rest) => [|head| % 0x100] + head + NameBytes(rest)
  }

  method DnsName(parts: seq<seq<byte>>) returns (v: seq<byte>)
    ensures v == NameBytes(LabelsOf(parts, 0))
  {
    v := [];
    for i := 0 to |parts|
      invariant v + NameBytes(LabelsOf(parts, i)) == NameBytes(LabelsOf(parts, 0))
    {
      var rest := NameBytes(LabelsOf(parts, i + 1));
      assert v + ([|parts[i]| % 0x100] + parts[i] + rest) == v + [|parts[i]| % 0x100] + parts[i] + rest;
      v := v + [|parts[i]| % 0x100];
      v := v + parts[i];
    }
    v := v + [0];
  }

  function AllNameBytes(names: seq<Labels>, j: nat): seq<byte>
    requires j <= |names|
    decreases |names| - j
  {
    if j == |names| then [] else NameBytes(names[j]) + AllNameBytes(names, j + 1)
  }

  /** A header of zeros, then the names. */
  function NamePacket(header: nat, names: seq<Labels>): seq<byte> {
    Zeros(header) + AllNameBytes(names, 0)
  }

  function Zeros(n: nat): seq<byte> {
    seq(n, _ => 0)
  }

  // --- when a scan cannot be misled ---

  predicate NoLowBytes(head: seq<byte>) {
    forall i :: 0 <= i < |head| ==> head[i] >= 0x40
  }

  /** Printable labels of 1 to 63 bytes, the most a length byte can announce. */
  predicate Writable(labels: Labels) {
    labels.First? ==> AllPrintable(labels.head) && 0 < |labels.head| < 0x40 && Writable(labels.rest)
  }

  /** A label holding a byte below 0x40 (a digit or a hyphen, say) is at most 32 bytes long, and
      the label after it at most 31. */
  predicate Unmistakable(labels: Labels) {
    labels.First? ==>
      var (head, rest) := (labels.head, labels.rest);
      && (NoLowBytes(head) || (|head| <= 0x20 && (rest.First? ==> |rest.head| < 0x20)))
      && Unmistakable(rest)
  }

  predicate Clear(labels: Labels) {
    Writable(labels) && Unmistakable(labels)
  }

  /** A first label of 33 bytes, in a name so long that the one false reading it allows is too
      long to be interesting. */
  predicate Overlong(labels: Labels) {
    && labels.First? && Writable(labels) && |labels.head| == 33
    && (labels.rest.First? ==> |labels.rest.head| < 0x20) && Unmistakable(labels.rest)
    && |TextOf(labels)| > 256
  }

  predicate Scannable(labels: Labels) {
    Clear(labels) || Overlong(labels)
  }

  function TextOf(labels: Labels): string {
    Join(Strings(labels), '.')
  }

  lemma TextOfFirst(l: Labels)
    requires l.First?
    ensures TextOf(l) == if l.rest.Nothing? then Ascii(l.head) else Ascii(l.head) + ['.'] + TextOf(l.rest)
  {
    assert Strings(l)[0] == Ascii(l.head) && Strings(l)[1..] == Strings(l.rest);
    assert l.rest.First? ==> |Strings(l.rest)| > 0;
  }

  /** A name and its label suffixes, longest first, down to the empty name at the zero byte. */
  function Suffixes(labels: Labels): seq<string> {
    [TextOf(labels)] + if labels.Nothing? then [] else Suffixes(labels.rest)
  }

  function AllSuffixes(names: seq<Labels>, j: nat): seq<string>
    requires j <= |names|
    decreases |names| - j
  {
    if j == |names| then [] else Suffixes(names[j]) + AllSuffixes(names, j + 1)
  }

  // --- one offset at a time ---

  lemma ZeroReadsEmptyName(buf: seq<byte>, pos: nat)
    requires pos < |buf| && buf[pos] == 0
    ensures ReadAt(buf, pos) == [""]
  {
  }

  /** A read that starts inside a label fails: a byte from 0x40 up looks like a pointer, and
      a smaller one spans past the label onto a byte that is not printable. */
  lemma InsideReadsNothing(buf: seq<byte>, q: nat, end: nat)
    requires q < end < |buf| && 0x20 <= buf[q] <= 0x7e
    requires buf[q] >= 0x40 || (end - q <= buf[q] && buf[end] < 0x20)
    ensures ReadAt(buf, q) == []
  {
    if !IsPointer(buf[q]) && q + 1 + buf[q] <= |buf| {
      assert buf[q + 1..q + 1 + buf[q]][end - q - 1] == buf[end];
      assert !LabelByte(buf[end]);
    }
  }

  /** The packet from pos on is this name, and then something else. */
  predicate NameFrom(buf: seq<byte>, pos: nat, labels: Labels) {
    pos + |NameBytes(labels)| <= |buf| && buf[pos..pos + |NameBytes(labels)|] == NameBytes(labels)
  }

  lemma NameFromFirst(buf: seq<byte>, pos: nat, labels: Labels)
    requires NameFrom(buf, pos, labels) && labels.First? && |labels.head| < 0x40
    ensures
      var end := pos + 1 + |labels.head|;
      && end < |buf| && buf[pos] == |labels.head|
      && buf[pos + 1..end] == labels.head
      && NameFrom(buf, end, labels.rest)
      && end + |NameBytes(labels.rest)| == pos + |NameBytes(labels)|
      && (forall i :: 0 <= i < |labels.head| ==> buf[pos + 1 + i] == labels.head[i])
  {
    var end, last := pos + 1 + |labels.head|, pos + |NameBytes(labels)|;
    var here, more := buf[pos..last], NameBytes(labels.rest);
    assert here == [|labels.head|] + labels.head + more;
    assert more != [];
    assert buf[pos] == here[0];
    SliceOfSlice(buf, pos, last, 1, 1 + |labels.head|);
    assert here[1..1 + |labels.head|] == labels.head;
    SliceOfSlice(buf, pos, last, 1 + |labels.head|, |here|);
    assert here[1 + |labels.head|..|here|] == more;
    forall i | 0 <= i < |labels.head|
      ensures buf[pos + 1 + i] == labels.head[i]
    {
      assert buf[pos + 1..end][i] == buf[pos + 1 + i];
    }
  }

  lemma {:induction false} NameIsOnWire(buf: seq<byte>, pos: nat, labels: Labels) returns (end: nat)
    requires NameFrom(buf, pos, labels) && Writable(labels)
    ensures LabelsAt(buf, pos, labels, end) && end < |buf| && buf[end] == 0
    decreases labels
  {
    if labels.Nothing? {
      end := pos;
      assert buf[pos..pos + 1][0] == 0;
    } else {
      NameFromFirst(buf, pos, labels);
      end := NameIsOnWire(buf, pos + 1 + |labels.head|, labels.rest);
    }
  }

  lemma StartReadsName(buf: seq<byte>, pos: nat, labels: Labels)
    requires NameFrom(buf, pos, labels) && Writable(labels) && labels.First?
    ensures ReadAt(buf, pos) == [TextOf(labels)]
  {
    var end := NameIsOnWire(buf, pos, labels);
    ReadsLabels(buf, pos, labels, end, end + 1);
    assert buf[pos] == |labels.head|;
  }

  /** What follows a label is a zero byte or the length byte of the next label. */
  lemma NextByte(buf: seq<byte>, end: nat, rest: Labels)
    requires NameFrom(buf, end, rest) && (rest.First? ==> |rest.head| < 0x40)
    ensures end < |buf| && buf[end] == if rest.Nothing? then 0 else |rest.head|
  {
    if rest.Nothing? {
      assert buf[end..end + 1][0] == 0;
    } else {
      NameFromFirst(buf, end, rest);
    }
  }

  lemma InsideFirstLabel(buf: seq<byte>, pos: nat, labels: Labels)
    requires NameFrom(buf, pos, labels) && Clear(labels) && labels.First?
    ensures
      var end := pos + 1 + |labels.head|;
      Reads(buf, pos + 1, end) == []
  {
    var head, end := labels.head, pos + 1 + |labels.head|;
    NameFromFirst(buf, pos, labels);
    assert Writable(labels.rest);
    NextByte(buf, end, labels.rest);
    forall q | pos + 1 <= q < end
      ensures ReadsOf(buf)(q) == []
    {
      assert buf[q] == head[q - pos - 1];
      InsideReadsNothing(buf, q, end);
    }
    CollectNothing(ReadsOf(buf), pos + 1, end);
  }

  /** f finds the name at pos and its suffixes where their labels start, and nothing between. */
  predicate Scans(f: nat -> seq<string>, pos: nat, labels: Labels)
    decreases labels
  {
    && f(pos) == [TextOf(labels)]
    && (labels.First? ==>
          Collect(f, pos + 1, pos + 1 + |labels.head|) == [] && Scans(f, pos + 1 + |labels.head|, labels.rest))
  }

  lemma {:induction false} NameScans(buf: seq<byte>, pos: nat, labels: Labels)
    requires NameFrom(buf, pos, labels) && Clear(labels)
    ensures Scans(ReadsOf(buf), pos, labels)
    decreases labels
  {
    if labels.Nothing? {
      NextByte(buf, pos, labels);
      ZeroReadsEmptyName(buf, pos);
    } else {
      RestFollows(buf, pos, labels);
      StartReadsName(buf, pos, labels);
      InsideFirstLabel(buf, pos, labels);
      NameScans(buf, pos + 1 + |labels.head|, labels.rest);
    }
  }

  /** Scanning the bytes of one encoded name reads its label suffixes and nothing else. */
  lemma {:induction false} ScanName(f: nat -> seq<string>, pos: nat, labels: Labels)
    requires Scans(f, pos, labels)
    ensures Collect(f, pos, pos + |NameBytes(labels)|) == Suffixes(labels)
    decreases labels
  {
    if labels.Nothing? {
      CollectOne(f, pos);
    } else {
      var end, last := pos + 1 + |labels.head|, pos + |NameBytes(labels)|;
      ScanName(f, end, labels.rest);
      assert last == end + |NameBytes(labels.rest)|;
      JoinReads(f, pos, end, last, [TextOf(labels)], Suffixes(labels.rest));
    }
  }

  lemma RestFollows(buf: seq<byte>, pos: nat, labels: Labels)
    requires NameFrom(buf, pos, labels) && Writable(labels) && labels.First?
    ensures
      var end := pos + 1 + |labels.head|;
      NameFrom(buf, end, labels.rest) && end + |NameBytes(labels.rest)| == pos + |NameBytes(labels)|
  {
    NameFromFirst(buf, pos, labels);
  }

  lemma JoinReads<T>(f: nat -> seq<T>, pos: nat, end: nat, last: nat, first: seq<T>, later: seq<T>)
    requires pos < end <= last
    requires f(pos) == first && Collect(f, pos + 1, end) == [] && Collect(f, end, last) == later
    ensures Collect(f, pos, last) == first + later
  {
    CollectSplit(f, pos, pos + 1, end);
    CollectSplit(f, pos, end, last);
    CollectOne(f, pos);
  }

  lemma Peel(buf: seq<byte>, pos: nat, first: seq<byte>, rest: seq<byte>)
    requires pos <= |buf| && buf[pos..] == first + rest
    ensures pos + |first| <= |buf|
    ensures buf[pos..pos + |first|] == first && buf[pos + |first|..] == rest
  {
    var next := pos + |first|;
    assert |buf[pos..]| == |buf| - pos;
    assert buf[pos..next] == buf[pos..][..|first|] == first;
    assert buf[next..] == buf[pos..][|first|..] == rest;
  }

  /** Of the names from j on, laid end to end from pos to last, each is as `at` says. */
  predicate AllAt(at: (nat, Labels) -> bool, pos: nat, names: seq<Labels>, j: nat, last: nat)
    requires j <= |names|
    decreases |names| - j
  {
    if j == |names| then pos == last
    else at(pos, names[j]) && AllAt(at, pos + |NameBytes(names[j])|, names, j + 1, last)
  }

  lemma {:induction false} AllAtFollows(at: (nat, Labels) -> bool, further: (nat, Labels) -> bool,
                                        pos: nat, names: seq<Labels>, j: nat, last: nat)
    requires j <= |names| && AllAt(at, pos, names, j, last)
    requires forall p: nat, l: Labels :: l in names && at(p, l) ==> further(p, l)
    ensures AllAt(further, pos, names, j, last)
    decreases |names| - j
  {
    if j < |names| {
      AllAtFollows(at, further, pos + |NameBytes(names[j])|, names, j + 1, last);
    }
  }

  function Encoded(buf: seq<byte>): (nat, Labels) -> bool {
    (pos: nat, labels: Labels) => NameFrom(buf, pos, labels)
  }

  lemma {:induction false} BytesAreNames(buf: seq<byte>, pos: nat, names: seq<Labels>, j: nat)
    requires j <= |names| && pos <= |buf| && buf[pos..] == AllNameBytes(names, j)
    ensures AllAt(Encoded(buf), pos, names, j, |buf|)
    decreases |names| - j
  {
    if j == |names| {
      assert |buf[pos..]| == 0;
    } else {
      Peel(buf, pos, NameBytes(names[j]), AllNameBytes(names, j + 1));
      BytesAreNames(buf, pos + |NameBytes(names[j])|, names, j + 1);
    }
  }

  /** Over the bytes of the name, the interesting names read are its interesting suffixes. */
  predicate Yields(f: nat -> seq<string>, pos: nat, labels: Labels) {
    Interesting(Collect(f, pos, pos + |NameBytes(labels)|)) == Interesting(Suffixes(labels))
  }

  lemma ScannableYields(buf: seq<byte>, pos: nat, labels: Labels)
    requires NameFrom(buf, pos, labels) && Scannable(labels)
    ensures Yields(ReadsOf(buf), pos, labels)
  {
    if Clear(labels) {
      NameScans(buf, pos, labels);
      ScanName(ReadsOf(buf), pos, labels);
    } else {
      OverlongReads(buf, pos, labels);
      DullYields(ReadsOf(buf), pos, pos + 34, labels);
    }
  }

  /** From the second byte on, reads inside a label of 33 bytes fail. */
  lemma InsideOverlong(buf: seq<byte>, pos: nat, labels: Labels)
    requires NameFrom(buf, pos, labels) && Overlong(labels)
    ensures Reads(buf, pos + 2, pos + 34) == []
  {
    var head, end := labels.head, pos + 34;
    NameFromFirst(buf, pos, labels);
    NextByte(buf, end, labels.rest);
    forall q | pos + 2 <= q < end
      ensures ReadsOf(buf)(q) == []
    {
      assert buf[q] == head[q - pos - 1];
      InsideReadsNothing(buf, q, end);
    }
    CollectNothing(ReadsOf(buf), pos + 2, end);
  }

  /** From the first byte, a space spans exactly the other 32 and the read goes on into the rest
      of the name; any other byte makes it fail. */
  lemma StartOfOverlong(buf: seq<byte>, pos: nat, labels: Labels)
    requires NameFrom(buf, pos, labels) && Overlong(labels)
    ensures Interesting(ReadAt(buf, pos + 1)) == []
  {
    NameFromFirst(buf, pos, labels);
    NextByte(buf, pos + 34, labels.rest);
    assert buf[pos + 1] == labels.head[0];
    if labels.head[0] == 0x20 {
      SpaceReadsRest(buf, pos, labels);
    } else {
      InsideReadsNothing(buf, pos + 1, pos + 34);
    }
  }

  lemma OverlongReads(buf: seq<byte>, pos: nat, labels: Labels)
    requires NameFrom(buf, pos, labels) && Overlong(labels)
    ensures DullAtStart(ReadsOf(buf), pos, pos + 34, labels)
  {
    StartReadsName(buf, pos, labels);
    StartOfOverlong(buf, pos, labels);
    InsideOverlong(buf, pos, labels);
    RestFollows(buf, pos, labels);
    NameScans(buf, pos + 34, labels.rest);
  }

  /** f finds the name at pos, its suffixes from end on, and between them nothing but, right
      behind pos, something dull. */
  predicate DullAtStart(f: nat -> seq<string>, pos: nat, end: nat, labels: Labels) {
    && labels.First? && pos + 2 <= end == pos + 1 + |labels.head|
    && f(pos) == [TextOf(labels)] && Interesting(f(pos + 1)) == []
    && Collect(f, pos + 2, end) == [] && Scans(f, end, labels.rest)
  }

  lemma DullYields(f: nat -> seq<string>, pos: nat, end: nat, labels: Labels)
    requires DullAtStart(f, pos, end, labels)
    ensures Yields(f, pos, labels)
  {
    ScanName(f, end, labels.rest);
    NameLength(labels);
    DullBetween(f, pos, end, end + |NameBytes(labels.rest)|, TextOf(labels), Suffixes(labels.rest));
  }

  lemma SpaceReadsRest(buf: seq<byte>, pos: nat, labels: Labels)
    requires NameFrom(buf, pos, labels) && labels.First? && Writable(labels)
    requires |labels.head| == 33 && labels.head[0] == 0x20
    ensures ReadAt(buf, pos + 1) == [TextOf(First(labels.head[1..], labels.rest))]
    ensures |TextOf(First(labels.head[1..], labels.rest))| == |TextOf(labels)| - 1
  {
    var shorter := First(labels.head[1..], labels.rest);
    NameFromFirst(buf, pos, labels);
    assert buf[pos + 1] == labels.head[0];
    assert buf[pos + 1..pos + 34][1..33] == labels.head[1..];
    SliceOfSlice(buf, pos + 1, pos + 34, 1, 33);
    var end := NameIsOnWire(buf, pos + 34, labels.rest);
    assert LabelsAt(buf, pos + 1, shorter, end);
    ReadsLabels(buf, pos + 1, shorter, end, end + 1);
    TextOfFirst(labels);
    TextOfFirst(shorter);
  }

  lemma NameLength(labels: Labels)
    requires labels.First?
    ensures |NameBytes(labels)| == 1 + |labels.head| + |NameBytes(labels.rest)|
  {
  }

  /** Reads that are not interesting do not show. */
  lemma DullBetween(f: nat -> seq<string>, pos: nat, end: nat, last: nat, first: string, later: seq<string>)
    requires pos + 2 <= end <= last
    requires f(pos) == [first] && Interesting(f(pos + 1)) == []
    requires Collect(f, pos + 2, end) == [] && Collect(f, end, last) == later
    ensures Interesting(Collect(f, pos, last)) == Interesting([first] + later)
  {
    FourParts(f, pos, end, last);
    InterestingAppend([first], f(pos + 1) + later);
    InterestingAppend(f(pos + 1), later);
    InterestingAppend([first], later);
    assert [] + Interesting(later) == Interesting(later);
  }

  lemma FirstPart<T>(f: nat -> seq<T>, pos: nat, last: nat)
    requires pos < last
    ensures Collect(f, pos, last) == f(pos) + Collect(f, pos + 1, last)
  {
    CollectSplit(f, pos, pos + 1, last);
    CollectOne(f, pos);
  }

  lemma FourParts<T>(f: nat -> seq<T>, pos: nat, end: nat, last: nat)
    requires pos + 2 <= end <= last && Collect(f, pos + 2, end) == []
    ensures Collect(f, pos, last) == f(pos) + (f(pos + 1) + Collect(f, end, last))
  {
    FirstPart(f, pos, last);
    FirstPart(f, pos + 1, last);
    CollectSplit(f, pos + 2, end, last);
    assert [] + Collect(f, end, last) == Collect(f, end, last);
  }

  function Yielding(f: nat -> seq<string>): (nat, Labels) -> bool {
    (pos: nat, labels: Labels) => Yields(f, pos, labels)
  }

  lemma {:induction false} ScanNames(f: nat -> seq<string>, pos: nat, names: seq<Labels>, j: nat, last: nat)
    requires j <= |names| && AllAt(Yielding(f), pos, names, j, last)
    ensures pos <= last && Interesting(Collect(f, pos, last)) == Interesting(AllSuffixes(names, j))
    decreases |names| - j
  {
    if j < |names| {
      var next := pos + |NameBytes(names[j])|;
      ScanNames(f, next, names, j + 1, last);
      CollectSplit(f, pos, next, last);
      InterestingAppend(Collect(f, pos, next), Collect(f, next, last));
      InterestingAppend(Suffixes(names[j]), AllSuffixes(names, j + 1));
    }
  }

  lemma {:induction false} ScanZeros(buf: seq<byte>, n: nat)
    requires n <= |buf| && forall i :: 0 <= i < n ==> buf[i] == 0
    ensures Interesting(Reads(buf, 0, n)) == []
  {
    if n > 0 {
      ScanZeros(buf, n - 1);
      ZeroReadsEmptyName(buf, n - 1);
      InterestingSnoc(Reads(buf, 0, n - 1), "");
    }
  }

  /** The scan extracts exactly the interesting label suffixes of the names, each once, in
      order of first occurrence. */
  predicate ScansExactly(header: nat, names: seq<Labels>) {
    Names(NamePacket(header, names)) == Dedup(Interesting(AllSuffixes(names, 0)))
  }

  lemma ScanExactness(header: nat, names: seq<Labels>)
    requires forall i :: 0 <= i < |names| ==> Scannable(names[i])
    ensures ScansExactly(header, names)
  {
    var buf := NamePacket(header, names);
    assert buf[header..] == AllNameBytes(names, 0);
    ScanZeros(buf, header);
    BytesAreNames(buf, header, names, 0);
    forall p: nat, l | l in names && Encoded(buf)(p, l)
      ensures Yielding(ReadsOf(buf))(p, l)
    {
      ScannableYields(buf, p, l);
    }
    AllAtFollows(Encoded(buf), Yielding(ReadsOf(buf)), header, names, 0, |buf|);
    ScanNames(ReadsOf(buf), header, names, 0, |buf|);
    AfterHeader(ReadsOf(buf), header, |buf|);
  }

  lemma AfterHeader(f: nat -> seq<string>, header: nat, last: nat)
    requires header <= last && Interesting(Collect(f, 0, header)) == []
    ensures Interesting(Collect(f, 0, last)) == Interesting(Collect(f, header, last))
  {
    CollectSplit(f, 0, header, last);
    InterestingAppend(Collect(f, 0, header), Collect(f, header, last));
    var rest := Interesting(Collect(f, header, last));
    assert [] + rest == rest;
  }

  /** An interesting name that can be read anywhere is extracted. */
  lemma NameIsFound(buf: seq<byte>, pos: nat, name: string)
    requires pos < |buf| && ReadAt(buf, pos) == [name] && IsInteresting(name)
    ensures name in Names(buf)
  {
    var found := Reads(buf, 0, |buf|);
    CollectMember(ReadsOf(buf), 0, |buf|, name);
    assert name in ReadsOf(buf)(pos);
    InterestingMember(found, name);
    DedupMember(Interesting(found), name);
  }
}
