/** Exactly which label lengths keep the scan of lanscope/src/decode/dns.rs from being misled,
    whatever the labels say: the converse of `MdnsScan.ScanExactness`. */
module MdnsTraps {
  import opened Prelude
  import opened Text
  import opened Dns
  import opened MdnsScan

  // --- label lengths ---

  predicate SameShape(a: Labels, b: Labels) {
    && (a.First? <==> b.First?)
    && (a.First? ==> |a.head| == |b.head| && SameShape(a.rest, b.rest))
  }

  predicate SameShapes(a: seq<Labels>, b: seq<Labels>) {
    |a| == |b| && forall i :: 0 <= i < |a| ==> SameShape(a[i], b[i])
  }

  /** Every label has one of the lengths that section 3.1 of RFC 1035 allows. */
  predicate LegalLengths(l: Labels) {
    l.First? ==> 0 < |l.head| < 0x40 && LegalLengths(l.rest)
  }

  /** The first label is over 33 bytes long, or has 33 in a name of at most 256. */
  predicate LongFirst(l: Labels) {
    l.First? && (|l.head| > 33 || (|l.head| == 33 && |TextOf(l)| <= 256))
  }

  /** Some label after the first has 32 bytes or more. */
  predicate LongLater(l: Labels) {
    l.First? && l.rest.First? && (|l.rest.head| >= 0x20 || LongLater(l.rest))
  }

  predicate Short(l: Labels) {
    !LongFirst(l) && !LongLater(l)
  }

  lemma {:induction false} SameTextLength(a: Labels, b: Labels)
    requires SameShape(a, b)
    ensures |TextOf(a)| == |TextOf(b)|
  {
    if a.First? {
      TextOfFirst(a);
      TextOfFirst(b);
      SameTextLength(a.rest, b.rest);
    }
  }

  lemma {:induction false} SameLongLater(a: Labels, b: Labels)
    requires SameShape(a, b)
    ensures LongLater(a) <==> LongLater(b)
  {
    if a.First? && a.rest.First? {
      SameLongLater(a.rest, b.rest);
    }
  }

  // --- short labels are safe, whatever they say ---

  lemma {:induction false} ShortIsUnmistakable(l: Labels)
    requires !LongLater(l) && (l.First? ==> |l.head| <= 0x20)
    ensures Unmistakable(l)
  {
    if l.First? {
      ShortIsUnmistakable(l.rest);
    }
  }

  lemma ShortIsScannable(l: Labels)
    requires Short(l) && Writable(l)
    ensures Scannable(l)
  {
    if l.First? && |l.head| == 33 {
      ShortIsUnmistakable(l.rest);
    } else {
      ShortIsUnmistakable(l);
    }
  }

  // --- a name with a long label can be written so that it misleads ---

  function Fill(n: nat, b: byte): seq<byte> {
    seq(n, _ => b)
  }

  /** Twenty-six times a, and ._tcp. */
  const BAIT: seq<byte> := Fill(26, 0x61) + [0x2e, 0x5f, 0x74, 0x63, 0x70]

  /** The bait and then letters, any of which ends a read as a pointer would. */
  function Trap(n: nat): (head: seq<byte>)
    requires n >= 31
    ensures |head| == n && AllPrintable(head) && head[..31] == BAIT
    ensures forall i :: 31 <= i < n ==> head[i] == 0x61
  {
    BAIT + Fill(n - 31, 0x61)
  }

  /** The same lengths, and nothing but the letter b. */
  function Plain(l: Labels): Labels {
    if l.Nothing? then Nothing else First(Fill(|l.head|, 0x62), Plain(l.rest))
  }

  /** A space that spans the next 32 bytes: a letter and the bait. */
  function TrapFirst(l: Labels): Labels
    requires LongFirst(l)
  {
    First([0x20, 0x61] + Trap(|l.head| - 2), Plain(l.rest))
  }

  /** A space at the end of a label that spans the length byte of the next and the bait. */
  function TrapLater(l: Labels): Labels
    requires LegalLengths(l) && LongLater(l)
  {
    if |l.rest.head| >= 0x20 then
      First(Fill(|l.head| - 1, 0x62) + [0x20], First(Trap(|l.rest.head|), Plain(l.rest.rest)))
    else First(Fill(|l.head|, 0x62), TrapLater(l.rest))
  }

  lemma {:induction false} PlainIsWritable(l: Labels)
    requires LegalLengths(l)
    ensures Writable(Plain(l)) && SameShape(l, Plain(l))
  {
    if l.First? {
      PlainIsWritable(l.rest);
    }
  }

  lemma TrapFirstIsWritable(l: Labels)
    requires LegalLengths(l) && LongFirst(l)
    ensures Writable(TrapFirst(l)) && SameShape(l, TrapFirst(l))
  {
    PlainIsWritable(l.rest);
  }

  lemma {:induction false} TrapLaterIsWritable(l: Labels)
    requires LegalLengths(l) && LongLater(l)
    ensures Writable(TrapLater(l)) && SameShape(l, TrapLater(l))
  {
    if |l.rest.head| >= 0x20 {
      PlainIsWritable(l.rest.rest);
    } else {
      TrapLaterIsWritable(l.rest);
    }
  }

  // --- what the traps are read as ---

  /** The false name: the letter and the bait, and all that follows a first label of 33 bytes. */
  function FalseFirst(l: Labels): Labels
    requires LongFirst(l)
  {
    First([0x61] + BAIT, if |l.head| == 33 then Plain(l.rest) else Nothing)
  }

  /** A label with a pointer behind it is a name. */
  lemma OneLabelIsRead(buf: seq<byte>, q: nat, head: seq<byte>)
    requires q + 1 + |head| < |buf| && 0 < |head| < 0x40 && AllPrintable(head)
    requires buf[q] == |head| && buf[q + 1..q + 1 + |head|] == head && buf[q + 1 + |head|] >= 0x40
    ensures ReadAt(buf, q) == [TextOf(First(head, Nothing))]
  {
    var end := q + 1 + |head|;
    assert LabelsAt(buf, q, First(head, Nothing), end);
    ReadsLabels(buf, q, First(head, Nothing), end, end + 2);
  }

  lemma TrapFirstIsRead(buf: seq<byte>, pos: nat, l: Labels)
    requires LegalLengths(l) && LongFirst(l) && NameFrom(buf, pos, TrapFirst(l))
    ensures ReadAt(buf, pos + 1) == [TextOf(FalseFirst(l))]
  {
    var t, n := TrapFirst(l), |l.head|;
    TrapFirstIsWritable(l);
    if n == 33 {
      SpaceReadsRest(buf, pos, t);
      assert t.head[1..] == [0x61] + BAIT;
    } else {
      NameFromFirst(buf, pos, t);
      SliceOfSlice(buf, pos + 1, pos + 1 + n, 1, 33);
      assert t.head[1..33] == [0x61] + BAIT;
      assert buf[pos + 1] == t.head[0] && buf[pos + 34] == t.head[33];
      OneLabelIsRead(buf, pos + 1, [0x61] + BAIT);
    }
  }

  /** The false name of a later trap starts with the length byte of its label. */
  function FalseLater(l: Labels): Labels
    requires LegalLengths(l) && LongLater(l)
  {
    assert LegalLengths(l.rest);
    if |l.rest.head| >= 0x20 then First(Spanned(|l.rest.head|), Nothing) else FalseLater(l.rest)
  }

  function Spanned(n: byte): seq<byte> {
    [n] + BAIT
  }

  lemma LaterHere(buf: seq<byte>, pos: nat, t: Labels, n: nat)
    requires t.First? && 0 < |t.head| < 0x40 && t.head[|t.head| - 1] == 0x20
    requires 0x20 <= n < 0x40 && t.rest.First? && t.rest.head == Trap(n) && NameFrom(buf, pos, t)
    ensures ReadAt(buf, pos + |t.head|) == [TextOf(First(Spanned(n), Nothing))]
  {
    var end := pos + 1 + |t.head|;
    NameFromFirst(buf, pos, t);
    assert buf[end - 1] == t.head[|t.head| - 1];
    BaitFollows(buf, end, t.rest, n);
    OneLabelIsRead(buf, end - 1, Spanned(n));
  }

  lemma BaitFollows(buf: seq<byte>, end: nat, t: Labels, n: nat)
    requires 0x20 <= n < 0x40 && t.First? && t.head == Trap(n) && NameFrom(buf, end, t)
    ensures end + 32 < |buf| && buf[end..end + 32] == Spanned(n) && buf[end + 32] == 0x61
    ensures AllPrintable(Spanned(n))
  {
    NameFromFirst(buf, end, t);
    SliceOfSlice(buf, end + 1, end + 1 + n, 0, 31);
    assert buf[end + 1..end + 32] == BAIT;
    assert buf[end..end + 32] == [buf[end]] + buf[end + 1..end + 32];
    assert buf[end + 32] == t.head[31];
  }

  lemma {:induction false} TrapLaterIsRead(buf: seq<byte>, pos: nat, l: Labels) returns (q: nat)
    requires LegalLengths(l) && LongLater(l) && NameFrom(buf, pos, TrapLater(l))
    ensures q < |buf| && ReadAt(buf, q) == [TextOf(FalseLater(l))]
    decreases l
  {
    assert LegalLengths(l.rest);
    NameFromFirst(buf, pos, TrapLater(l));
    if |l.rest.head| >= 0x20 {
      LaterHere(buf, pos, TrapLater(l), |l.rest.head|);
      q := pos + |l.head|;
    } else {
      q := TrapLaterIsRead(buf, pos + 1 + |l.head|, l.rest);
    }
  }

  // --- the false names are interesting, and no one's ---

  lemma BaitIsInteresting(l: Labels)
    requires l.First? && |l.head| == 32 && l.head[1..] == BAIT && |TextOf(l)| <= 255
    ensures IsInteresting(TextOf(l))
  {
    TextOfFirst(l);
    var text := TextOf(l);
    assert text[..32] == Ascii(l.head);
    forall i | 27 <= i < 32
      ensures text[i] == "._tcp"[i - 27]
    {
      assert text[i] == text[..32][i] == l.head[i] as char;
      assert l.head[i] == l.head[1..][i - 1] == BAIT[i - 1];
    }
    assert text[27..27 + |"._tcp"|] == "._tcp";
    assert OccursAt(text, "._tcp", 27);
  }

  lemma FalseFirstIsInteresting(l: Labels)
    requires LongFirst(l)
    ensures IsInteresting(TextOf(FalseFirst(l)))
  {
    var f := FalseFirst(l);
    TextOfFirst(f);
    if |l.head| == 33 {
      PlainHasShape(l.rest);
      SameTextLength(l.rest, Plain(l.rest));
      TextOfFirst(l);
    }
    BaitIsInteresting(f);
  }

  lemma {:induction false} PlainHasShape(l: Labels)
    ensures SameShape(l, Plain(l))
  {
    if l.First? {
      PlainHasShape(l.rest);
    }
  }

  lemma {:induction false} FalseLaterIsInteresting(l: Labels)
    requires LegalLengths(l) && LongLater(l)
    ensures IsInteresting(TextOf(FalseLater(l)))
    ensures |TextOf(FalseLater(l))| == 32
    ensures ' ' <= TextOf(FalseLater(l))[0] <= '?' && TextOf(FalseLater(l))[1] == 'a'
  {
    assert LegalLengths(l.rest);
    if |l.rest.head| >= 0x20 {
      TextOfFirst(FalseLater(l));
      assert Spanned(|l.rest.head|)[1..] == BAIT;
      BaitIsInteresting(FalseLater(l));
    } else {
      FalseLaterIsInteresting(l.rest);
    }
  }

  /** A label's text starts with its first byte, and a dot follows a label of one byte. */
  lemma StartOfText(l: Labels)
    requires l.First? && l.head != []
    ensures |TextOf(l)| >= 1 && TextOf(l)[0] == l.head[0] as char
    ensures |l.head| == 1 && |TextOf(l)| >= 2 ==> TextOf(l)[1] == '.'
  {
    TextOfFirst(l);
  }

  lemma {:induction false} PlainSuffixes(l: Labels, s: string)
    requires LegalLengths(l) && s in Suffixes(Plain(l))
    ensures s == "" || s[0] == 'b'
  {
    if l.First? {
      StartOfText(Plain(l));
      if s != TextOf(Plain(l)) {
        PlainSuffixes(l.rest, s);
      }
    }
  }

  lemma TrapFirstSuffixes(l: Labels, s: string)
    requires LegalLengths(l) && LongFirst(l) && s in Suffixes(TrapFirst(l))
    ensures s == "" || s[0] != 'a'
  {
    StartOfText(TrapFirst(l));
    if s != TextOf(TrapFirst(l)) {
      PlainSuffixes(l.rest, s);
    }
  }

  lemma TrapSuffixes(n: nat, rest: Labels, s: string)
    requires 31 <= n && LegalLengths(rest) && s in Suffixes(First(Trap(n), Plain(rest)))
    ensures s == "" || s[0] == 'a' || s[0] == 'b'
  {
    var t := First(Trap(n), Plain(rest));
    StartOfText(t);
    assert t.head[0] == t.head[..31][0] == BAIT[0];
    if s != TextOf(t) {
      PlainSuffixes(rest, s);
    }
  }

  lemma {:induction false} TrapLaterSuffixes(l: Labels, s: string)
    requires LegalLengths(l) && LongLater(l) && s in Suffixes(TrapLater(l))
    ensures s == "" || s[0] == 'a' || s[0] == 'b' || (s[0] == ' ' && (|s| >= 2 ==> s[1] == '.'))
  {
    var t := TrapLater(l);
    assert LegalLengths(l.rest);
    StartOfText(t);
    if s != TextOf(t) {
      if |l.rest.head| >= 0x20 {
        TrapSuffixes(|l.rest.head|, l.rest.rest, s);
      } else {
        TrapLaterSuffixes(l.rest, s);
      }
    }
  }

  // --- both directions ---

  function Misleading(l: Labels): Labels
    requires LegalLengths(l) && !Short(l)
  {
    if LongFirst(l) then TrapFirst(l) else TrapLater(l)
  }

  function FalseName(l: Labels): string
    requires LegalLengths(l) && !Short(l)
  {
    TextOf(if LongFirst(l) then FalseFirst(l) else FalseLater(l))
  }

  lemma FalseNameIsRead(buf: seq<byte>, pos: nat, l: Labels) returns (q: nat)
    requires LegalLengths(l) && !Short(l) && NameFrom(buf, pos, Misleading(l))
    ensures q < |buf| && ReadAt(buf, q) == [FalseName(l)] && IsInteresting(FalseName(l))
  {
    if LongFirst(l) {
      TrapFirstIsRead(buf, pos, l);
      FalseFirstIsInteresting(l);
      q := pos + 1;
    } else {
      q := TrapLaterIsRead(buf, pos, l);
      FalseLaterIsInteresting(l);
    }
  }

  lemma FalseNameIsNoSuffix(l: Labels, other: Labels)
    requires LegalLengths(l) && !Short(l) && LegalLengths(other)
    ensures FalseName(l) !in Suffixes(Misleading(l)) && FalseName(l) !in Suffixes(Plain(other))
  {
    var s := FalseName(l);
    if LongFirst(l) {
      StartOfText(FalseFirst(l));
      if s in Suffixes(Misleading(l)) {
        TrapFirstSuffixes(l, s);
      }
    } else {
      FalseLaterIsInteresting(l);
      if s in Suffixes(Misleading(l)) {
        TrapLaterSuffixes(l, s);
      }
    }
    if s in Suffixes(Plain(other)) {
      PlainSuffixes(other, s);
    }
  }

  /** Names of the same lengths: the i-th misleads, and the others are plain. */
  function Misled(names: seq<Labels>, i: nat): (others: seq<Labels>)
    requires i < |names| && AllLegal(names) && !Short(names[i])
    ensures |others| == |names|
  {
    seq(|names|, j requires 0 <= j < |names| => if j == i then Misleading(names[i]) else Plain(names[j]))
  }

  predicate AllLegal(names: seq<Labels>) {
    forall i :: 0 <= i < |names| ==> LegalLengths(names[i])
  }

  predicate AllWritable(names: seq<Labels>) {
    forall i :: 0 <= i < |names| ==> Writable(names[i])
  }

  lemma MisledIsWritable(names: seq<Labels>, i: nat)
    requires i < |names| && AllLegal(names) && !Short(names[i])
    ensures SameShapes(names, Misled(names, i)) && AllWritable(Misled(names, i))
  {
    forall j | 0 <= j < |names|
      ensures SameShape(names[j], Misled(names, i)[j]) && Writable(Misled(names, i)[j])
    {
      if j != i {
        PlainIsWritable(names[j]);
      } else if LongFirst(names[i]) {
        TrapFirstIsWritable(names[i]);
      } else {
        TrapLaterIsWritable(names[i]);
      }
    }
  }

  lemma {:induction false} OwnerOfSuffix(names: seq<Labels>, j: nat, s: string) returns (i: nat)
    requires j <= |names| && s in AllSuffixes(names, j)
    ensures i < |names| && s in Suffixes(names[i])
    decreases |names| - j
  {
    if s in Suffixes(names[j]) {
      i := j;
    } else {
      i := OwnerOfSuffix(names, j + 1, s);
    }
  }

  lemma {:induction false} PlaceOfName(at: (nat, Labels) -> bool, pos: nat, names: seq<Labels>, j: nat, last: nat, i: nat)
    returns (p: nat)
    requires j <= i < |names| && AllAt(at, pos, names, j, last)
    ensures at(p, names[i])
    decreases |names| - j
  {
    if j == i {
      p := pos;
    } else {
      p := PlaceOfName(at, pos + |NameBytes(names[j])|, names, j + 1, last, i);
    }
  }

  lemma FalseNameIsFound(header: nat, names: seq<Labels>, i: nat)
    requires i < |names| && AllLegal(names) && !Short(names[i])
    ensures FalseName(names[i]) in Names(NamePacket(header, Misled(names, i)))
  {
    var others := Misled(names, i);
    var buf := NamePacket(header, others);
    assert buf[header..] == AllNameBytes(others, 0);
    BytesAreNames(buf, header, others, 0);
    var p := PlaceOfName(Encoded(buf), header, others, 0, |buf|, i);
    var q := FalseNameIsRead(buf, p, names[i]);
    NameIsFound(buf, q, FalseName(names[i]));
  }

  /** A packet whose i-th name has a long label can be written so that the scan reports a name
      that no one encoded. */
  lemma LongNameMisleads(header: nat, names: seq<Labels>, i: nat)
    requires i < |names| && AllLegal(names) && !Short(names[i])
    ensures !ScansExactly(header, Misled(names, i))
  {
    var others, s := Misled(names, i), FalseName(names[i]);
    FalseNameIsFound(header, names, i);
    DedupMember(Interesting(AllSuffixes(others, 0)), s);
    InterestingMember(AllSuffixes(others, 0), s);
    if s in AllSuffixes(others, 0) {
      var j := OwnerOfSuffix(others, 0, s);
      FalseNameIsNoSuffix(names[i], names[j]);
    }
  }

  lemma ShortNamesScan(header: nat, names: seq<Labels>, others: seq<Labels>)
    requires SameShapes(names, others) && AllWritable(others)
    requires forall i :: 0 <= i < |names| ==> Short(names[i])
    ensures ScansExactly(header, others)
  {
    forall i | 0 <= i < |others|
      ensures Scannable(others[i])
    {
      assert SameShape(names[i], others[i]);
      SameTextLength(names[i], others[i]);
      SameLongLater(names[i], others[i]);
      ShortIsScannable(others[i]);
    }
    ScanExactness(header, others);
  }

  /** For labels of 1 to 63 bytes the lengths alone decide: packets of these lengths scan exactly,
      whatever printable bytes their labels hold, if and only if each name has a first label of at
      most 32 bytes (33 in a name of over 256) and no later label of more than 31. */
  lemma LengthsDecide(header: nat, names: seq<Labels>)
    requires AllLegal(names)
    ensures (forall others :: SameShapes(names, others) && AllWritable(others) ==> ScansExactly(header, others))
       <==> (forall i :: 0 <= i < |names| ==> Short(names[i]))
  {
    if forall i :: 0 <= i < |names| ==> Short(names[i]) {
      forall others | SameShapes(names, others) && AllWritable(others)
        ensures ScansExactly(header, others)
      {
        ShortNamesScan(header, names, others);
      }
    } else {
      var i :| 0 <= i < |names| && !Short(names[i]);
      MisledIsWritable(names, i);
      LongNameMisleads(header, names, i);
    }
  }
}
