/** The rule-based fingerprinter of lanscope/src/fingerprint/rules.rs: needles searched in
    one newline-joined text of all of a device's signals. */
module Fingerprint {
  import opened Prelude
  import NetFmt
  import Dhcp

  datatype Category =
    | SmartSpeaker | MediaStreamer | SmartLight | Camera | Thermostat | Printer | Phone
    | Computer | SingleBoardComputer | Router | Nas | IoTSensor | Unknown

  datatype Rule = Rule(needle: string, deviceType: string, category: Category, confidence: real)

  /** The textual signals of a device, the only ones the rules look at. */
  datatype Profile = Profile(
    vendor: Option<string>, vendorClass: Option<string>, hostname: Option<string>, services: seq<string>)

  const RULES: seq<Rule> := [
    Rule("amazonecho", "Amazon Echo", SmartSpeaker, 0.95),
    Rule("_googlecast", "Google Chromecast", MediaStreamer, 0.92),
    Rule("googlecast", "Google Chromecast", MediaStreamer, 0.9),
    Rule("sonos", "Sonos Speaker", SmartSpeaker, 0.92),
    Rule("roku", "Roku Streamer", MediaStreamer, 0.9),
    Rule("_raop", "AirPlay Device", MediaStreamer, 0.85),
    Rule("_airplay", "AirPlay Device", MediaStreamer, 0.85),
    Rule("spotify-connect", "Spotify Speaker", SmartSpeaker, 0.8),
    Rule("philips hue", "Philips Hue Bridge", SmartLight, 0.92),
    Rule("_hue", "Philips Hue Bridge", SmartLight, 0.9),
    Rule("lifx", "LIFX Bulb", SmartLight, 0.9),
    Rule("_ipp", "Network Printer", Printer, 0.9),
    Rule("_pdl-datastream", "Network Printer", Printer, 0.9),
    Rule("_printer", "Network Printer", Printer, 0.9),
    Rule("diskstation", "Synology NAS", Nas, 0.9),
    Rule("_smb", "File Server / NAS", Nas, 0.6),
    Rule("_raspberrypi", "Raspberry Pi", SingleBoardComputer, 0.85),
    Rule("_homekit", "HomeKit Accessory", IoTSensor, 0.7),
    Rule("_hap", "HomeKit Accessory", IoTSensor, 0.7),
    Rule("android-dhcp", "Android Phone/Tablet", Phone, 0.85),
    Rule("msft 5.0", "Windows PC", Computer, 0.8),
    Rule("raspberry pi", "Raspberry Pi", SingleBoardComputer, 0.7),
    Rule("espressif", "ESP32/ESP8266 Module", IoTSensor, 0.7),
    Rule("nest labs", "Nest Device", IoTSensor, 0.6),
    Rule("lifx", "LIFX Bulb", SmartLight, 0.65),
    Rule("amazon", "Amazon Device", SmartSpeaker, 0.55),
    Rule("philips", "Philips Smart Device", SmartLight, 0.55),
    Rule("tp-link", "TP-Link Device", Router, 0.5),
    Rule("apple", "Apple Device", Computer, 0.5),
    Rule("google", "Google Device", MediaStreamer, 0.5)
  ]

  /** `str::to_ascii_lowercase`. */
  function Lower(s: string): string {
    seq(|s|, i requires 0 <= i < |s| =>
      if 'A' <= s[i] <= 'Z' then (s[i] as int + 32) as char else s[i])
  }

  function Optional(s: Option<string>): seq<string> {
    if s.Some? then [s.value] else []
  }

  /** The fields in the order they are appended. */
  function Fields(p: Profile): seq<string> {
    Optional(p.vendor) + Optional(p.vendorClass) + Optional(p.hostname) + p.services
  }

  /** Every field lowercased and followed by a newline. */
  function Joined(fields: seq<string>): string {
    if fields == [] then "" else Joined(fields[..|fields| - 1]) + (Lower(fields[|fields| - 1]) + "\n")
  }

  method Push(h: string, s: string) returns (longer: string)
    ensures longer == h + (Lower(s) + "\n")
  {
    longer := h + Lower(s);
    longer := longer + "\n";
  }

  method BuildHaystack(p: Profile) returns (h: string)
    ensures h == Joined(Fields(p))
  {
    h := PushOptional("", p.vendor, []);
    h := PushOptional(h, p.vendorClass, [] + Optional(p.vendor));
    h := PushOptional(h, p.hostname, [] + Optional(p.vendor) + Optional(p.vendorClass));
    assert [] + Optional(p.vendor) == Optional(p.vendor);
    h := PushAll(h, p.services, Optional(p.vendor) + Optional(p.vendorClass) + Optional(p.hostname));
  }

  method PushOptional(h: string, s: Option<string>, ghost pushed: seq<string>) returns (longer: string)
    requires h == Joined(pushed)
    ensures longer == Joined(pushed + Optional(s))
  {
    longer := h;
    if s.Some? {
      JoinedSnoc(pushed, s.value);
      longer := Push(longer, s.value);
    } else {
      assert pushed + [] == pushed;
    }
  }

  method PushAll(h: string, services: seq<string>, ghost pushed: seq<string>) returns (longer: string)
    requires h == Joined(pushed)
    ensures longer == Joined(pushed + services)
  {
    longer := h;
    assert pushed + services[..0] == pushed;
    for i := 0 to |services|
      invariant longer == Joined(pushed + services[..i])
    {
      JoinedSnoc(pushed + services[..i], services[i]);
      assert pushed + services[..i + 1] == pushed + services[..i] + [services[i]];
      longer := Push(longer, services[i]);
    }
    assert services[..|services|] == services;
  }

  lemma JoinedSnoc(fields: seq<string>, f: string)
    ensures Joined(fields + [f]) == Joined(fields) + (Lower(f) + "\n")
  {
    assert (fields + [f])[..|fields|] == fields;
  }

  // --- which rule wins ---

  /** The index of the winner among the first n rules: a later match replaces an earlier one
      unless the earlier is strictly more confident. */
  function Best(rules: seq<Rule>, hit: string -> bool, n: nat): (best: Option<nat>)
    requires n <= |rules|
    ensures best.Some? ==> best.value < n
  {
    if n == 0 then None
    else
      var b := Best(rules, hit, n - 1);
      if !hit(rules[n - 1].needle) then b
      else if b.Some? && rules[b.value].confidence > rules[n - 1].confidence then b
      else Some(n - 1)
  }

  /** i is the last row among the matching rows of maximal confidence. */
  predicate IsLastMaximum(rules: seq<Rule>, hit: string -> bool, i: nat) {
    && i < |rules|
    && hit(rules[i].needle)
    && (forall j :: 0 <= j < |rules| && hit(rules[j].needle) ==>
          rules[j].confidence <= rules[i].confidence && (j > i ==> rules[j].confidence < rules[i].confidence))
  }

  lemma {:induction false} BestAmong(rules: seq<Rule>, hit: string -> bool, n: nat)
    requires n <= |rules|
    ensures
      match Best(rules, hit, n)
      case None => forall j :: 0 <= j < n ==> !hit(rules[j].needle)
      case Some(i) => IsLastMaximum(rules[..n], hit, i)
  {
    if n > 0 {
      BestAmong(rules, hit, n - 1);
    }
  }

  lemma WinnerIsLastMaximum(rules: seq<Rule>, hit: string -> bool, i: nat)
    ensures Best(rules, hit, |rules|) == Some(i) <==> IsLastMaximum(rules, hit, i)
    ensures Best(rules, hit, |rules|) == None <==> forall j :: 0 <= j < |rules| ==> !hit(rules[j].needle)
  {
    BestAmong(rules, hit, |rules|);
    assert rules[..|rules|] == rules;
  }

  datatype Classification = Classification(deviceType: string, category: Category, confidence: real, needle: string)

  function Verdict(rules: seq<Rule>, hit: string -> bool): Option<Classification> {
    match Best(rules, hit, |rules|)
    case None => None
    case Some(i) => Some(Classification(rules[i].deviceType, rules[i].category, rules[i].confidence, rules[i].needle))
  }

  function HitsText(text: string): string -> bool {
    (needle: string) => Contains(text, needle)
  }

  /** The fast form, as the program runs it: every needle against the one joined text. */
  function Classified(p: Profile): Option<Classification> {
    Verdict(RULES, HitsText(Joined(Fields(p))))
  }

  method Classify(p: Profile) returns (c: Option<Classification>)
    ensures c == Classified(p)
  {
    var haystack := BuildHaystack(p);
    c := Verdict(RULES, HitsText(haystack));
  }

  // --- the simple form ---

  predicate InSomeField(fields: seq<string>, needle: string) {
    exists i :: 0 <= i < |fields| && Contains(Lower(fields[i]), needle)
  }

  function HitsFields(fields: seq<string>): string -> bool {
    (needle: string) => InSomeField(fields, needle)
  }

  /** A needle that is not empty and holds no newline cannot straddle two fields. */
  predicate IsClean(needle: string) {
    needle != "" && forall i :: 0 <= i < |needle| ==> needle[i] != '\n'
  }

  lemma OccursFront(a: string, b: string, needle: string, i: int)
    requires 0 <= i && i + |needle| <= |a|
    ensures OccursAt(a + b, needle, i) <==> OccursAt(a, needle, i)
  {
    assert (a + b)[i..i + |needle|] == a[i..i + |needle|];
  }

  lemma OccursBehind(a: string, b: string, needle: string, i: int)
    requires 0 <= i && i + |needle| <= |b|
    ensures OccursAt(a + b, needle, |a| + i) <==> OccursAt(b, needle, i)
  {
    assert (a + b)[|a| + i..|a| + i + |needle|] == b[i..i + |needle|];
  }

  lemma ContainsEither(a: string, b: string, needle: string)
    requires Contains(a, needle) || Contains(b, needle)
    ensures Contains(a + b, needle)
  {
    if Contains(a, needle) {
      var i :| 0 <= i <= |a| && OccursAt(a, needle, i);
      OccursFront(a, b, needle, i);
    } else {
      var i :| 0 <= i <= |b| && OccursAt(b, needle, i);
      OccursBehind(a, b, needle, i);
    }
  }

  /** Across a newline at the end of a, an occurrence lies on one side. */
  lemma ContainsSplit(a: string, f: string, needle: string)
    requires IsClean(needle) && (a != "" ==> a[|a| - 1] == '\n')
    ensures Contains(a + (f + "\n"), needle) <==> Contains(a, needle) || Contains(f, needle)
  {
    var line := f + "\n";
    if Contains(f, needle) {
      ContainsEither(f, "\n", needle);
    }
    if Contains(a, needle) || Contains(f, needle) {
      ContainsEither(a, line, needle);
    }
    if Contains(a + line, needle) {
      var i :| 0 <= i <= |a + line| && OccursAt(a + line, needle, i);
      OccurrenceOnOneSide(a, f, needle, i);
    }
  }

  lemma OccurrenceOnOneSide(a: string, f: string, needle: string, i: nat)
    requires IsClean(needle) && (a != "" ==> a[|a| - 1] == '\n')
    requires OccursAt(a + (f + "\n"), needle, i)
    ensures OccursAt(a, needle, i) || OccursAt(f, needle, i - |a|)
  {
    var line := f + "\n";
    OccurrenceAvoids(a + line, needle, i, |a + line| - 1);
    if i < |a| {
      OccurrenceAvoids(a + line, needle, i, |a| - 1);
      OccursFront(a, line, needle, i);
    } else {
      OccursBehind(a, line, needle, i - |a|);
      OccursFront(f, "\n", needle, i - |a|);
    }
  }

  lemma OccursChar(text: string, needle: string, i: int, j: int)
    ensures OccursAt(text, needle, i) && 0 <= j < |needle| ==> text[i + j] == needle[j]
  {
    if OccursAt(text, needle, i) && 0 <= j < |needle| {
      assert text[i + j] == text[i..i + |needle|][j];
    }
  }

  /** An occurrence of a clean needle covers no newline. */
  lemma OccurrenceAvoids(text: string, needle: string, i: nat, k: nat)
    requires OccursAt(text, needle, i) && IsClean(needle)
    requires k < |text| && text[k] == '\n'
    ensures k < i || i + |needle| <= k
  {
    OccursChar(text, needle, i, k - i);
  }

  lemma JoinedEndsInNewline(fields: seq<string>)
    ensures Joined(fields) != "" ==> Joined(fields)[|Joined(fields)| - 1] == '\n'
  {
  }

  /** A clean needle occurs in the joined text exactly when it occurs in one field. */
  lemma {:induction false} JoinedIsPerField(fields: seq<string>, needle: string)
    requires IsClean(needle)
    ensures Contains(Joined(fields), needle) <==> InSomeField(fields, needle)
  {
    if fields == [] {
      assert forall i :: 0 <= i <= 0 ==> !OccursAt("", needle, i);
    } else {
      var n := |fields| - 1;
      var init, last := fields[..n], fields[n];
      JoinedIsPerField(init, needle);
      JoinedEndsInNewline(init);
      ContainsSplit(Joined(init), Lower(last), needle);
      assert forall i :: 0 <= i < n ==> init[i] == fields[i];
    }
  }

  lemma NeedlesAreClean()
    ensures forall i :: 0 <= i < |RULES| ==> IsClean(RULES[i].needle)
  {
    FirstNeedlesAreClean();
    MiddleNeedlesAreClean();
    LastNeedlesAreClean();
  }

  lemma FirstNeedlesAreClean()
    ensures |RULES| == 30
    ensures forall i :: 0 <= i < 10 ==> IsClean(RULES[i].needle)
  {
  }

  lemma MiddleNeedlesAreClean()
    ensures |RULES| == 30
    ensures forall i :: 10 <= i < 20 ==> IsClean(RULES[i].needle)
  {
  }

  lemma LastNeedlesAreClean()
    ensures |RULES| == 30
    ensures forall i :: 20 <= i < 30 ==> IsClean(RULES[i].needle)
  {
  }

  // --- both forms agree ---

  lemma {:induction false} SameHitsSameBest(rules: seq<Rule>, a: string -> bool, b: string -> bool, n: nat)
    requires n <= |rules|
    requires forall i :: 0 <= i < |rules| ==> a(rules[i].needle) == b(rules[i].needle)
    ensures Best(rules, a, n) == Best(rules, b, n)
  {
    if n > 0 {
      SameHitsSameBest(rules, a, b, n - 1);
    }
  }

  /** Matching the joined text is matching each field by itself. */
  lemma ClassifyIsPerField(p: Profile)
    ensures Classified(p) == Verdict(RULES, HitsFields(Fields(p)))
  {
    var a, b := HitsText(Joined(Fields(p))), HitsFields(Fields(p));
    NeedlesAreClean();
    forall i | 0 <= i < |RULES|
      ensures a(RULES[i].needle) == b(RULES[i].needle)
    {
      JoinedIsPerField(Fields(p), RULES[i].needle);
    }
    SameHitsSameBest(RULES, a, b, |RULES|);
  }

  predicate Covers(fields: seq<string>, others: seq<string>) {
    forall i :: 0 <= i < |others| ==> others[i] in fields
  }

  lemma CoveringHits(fields: seq<string>, others: seq<string>, needle: string)
    requires Covers(fields, others) && InSomeField(others, needle)
    ensures InSomeField(fields, needle)
  {
    var i :| 0 <= i < |others| && Contains(Lower(others[i]), needle);
    assert others[i] in fields;
    var j :| 0 <= j < |fields| && fields[j] == others[i];
  }

  /** Only which texts occur matters, not their order, their number or their field. */
  lemma OrderIsIrrelevant(p: Profile, q: Profile)
    requires Covers(Fields(p), Fields(q)) && Covers(Fields(q), Fields(p))
    ensures Classified(p) == Classified(q)
  {
    ClassifyIsPerField(p);
    ClassifyIsPerField(q);
    var a, b := HitsFields(Fields(p)), HitsFields(Fields(q));
    forall i | 0 <= i < |RULES|
      ensures a(RULES[i].needle) == b(RULES[i].needle)
    {
      if a(RULES[i].needle) {
        CoveringHits(Fields(q), Fields(p), RULES[i].needle);
      }
      if b(RULES[i].needle) {
        CoveringHits(Fields(p), Fields(q), RULES[i].needle);
      }
    }
    SameHitsSameBest(RULES, a, b, |RULES|);
  }

  /** In particular, permuting the services changes nothing. */
  lemma ServicesMayBePermuted(p: Profile, services: seq<string>)
    requires multiset(services) == multiset(p.services)
    ensures Classified(p.(services := services)) == Classified(p)
  {
    var q := p.(services := services);
    MultisetMembers(services, p.services);
    OrderIsIrrelevant(q, p);
  }

  lemma MultisetMembers(a: seq<string>, b: seq<string>)
    requires multiset(a) == multiset(b)
    ensures forall x :: x in a <==> x in b
  {
    forall x
      ensures x in a <==> x in b
    {
      assert x in a <==> x in multiset(a);
      assert x in b <==> x in multiset(b);
    }
  }

  lemma {:induction false} MoreHitsMoreConfidence(rules: seq<Rule>, a: string -> bool, b: string -> bool, n: nat)
    requires n <= |rules|
    requires forall i :: 0 <= i < |rules| && a(rules[i].needle) ==> b(rules[i].needle)
    ensures Best(rules, a, n).Some? ==>
      Best(rules, b, n).Some?
      && rules[Best(rules, a, n).value].confidence <= rules[Best(rules, b, n).value].confidence
  {
    if n > 0 {
      MoreHitsMoreConfidence(rules, a, b, n - 1);
    }
  }

  /** More signals never make a verdict disappear or weaken. */
  lemma ConfidenceNeverDrops(p: Profile, q: Profile)
    requires Covers(Fields(q), Fields(p)) && Classified(p).Some?
    ensures Classified(q).Some? && Classified(q).value.confidence >= Classified(p).value.confidence
  {
    ClassifyIsPerField(p);
    ClassifyIsPerField(q);
    var a, b := HitsFields(Fields(p)), HitsFields(Fields(q));
    forall i | 0 <= i < |RULES| && a(RULES[i].needle)
      ensures b(RULES[i].needle)
    {
      CoveringHits(Fields(q), Fields(p), RULES[i].needle);
    }
    MoreHitsMoreConfidence(RULES, a, b, |RULES|);
  }

  // --- letter case ---

  /** The needle's character, or the capital of it. */
  predicate IsLetterOf(c: char, small: char) {
    c == small || (0x61 <= small as int <= 0x7a && c as int == small as int - 0x20)
  }

  predicate MatchesAt(text: string, needle: string, i: int) {
    0 <= i <= |text| - |needle| && forall k :: 0 <= k < |needle| ==> IsLetterOf(text[i + k], needle[k])
  }

  predicate Matches(text: string, needle: string) {
    exists i :: 0 <= i <= |text| && MatchesAt(text, needle, i)
  }

  predicate NoCapitals(needle: string) {
    forall k :: 0 <= k < |needle| ==> !(0x41 <= needle[k] as int <= 0x5a)
  }

  lemma LowerIsLetter(c: char, small: char)
    requires !(0x41 <= small as int <= 0x5a)
    ensures Lower([c])[0] == small <==> IsLetterOf(c, small)
  {
  }

  lemma MatchAtExact(text: string, needle: string, i: int)
    requires NoCapitals(needle)
    ensures OccursAt(Lower(text), needle, i) <==> MatchesAt(text, needle, i)
  {
    if 0 <= i <= |text| - |needle| {
      var part := Lower(text)[i..i + |needle|];
      forall k | 0 <= k < |needle|
        ensures part[k] == needle[k] <==> IsLetterOf(text[i + k], needle[k])
      {
        LowerIsLetter(text[i + k], needle[k]);
        assert part[k] == Lower([text[i + k]])[0];
      }
    }
  }

  /** Searching lowercased text finds a needle without capitals wherever the text spells it in any case. */
  lemma MatchExact(text: string, needle: string)
    requires NoCapitals(needle)
    ensures Contains(Lower(text), needle) <==> Matches(text, needle)
  {
    forall i
      ensures OccursAt(Lower(text), needle, i) <==> MatchesAt(text, needle, i)
    {
      MatchAtExact(text, needle, i);
    }
  }

  lemma NeedlesHaveNoCapitals(i: nat)
    requires i < |RULES|
    ensures NoCapitals(RULES[i].needle)
  {
    NeedlesAreSmallTo5();
    NeedlesAreSmallTo10();
    NeedlesAreSmallTo15();
    NeedlesAreSmallTo20();
    NeedlesAreSmallTo25();
    NeedlesAreSmallTo30();
  }

  lemma NeedlesAreSmallTo5()
    ensures |RULES| == 30 && forall i :: 0 <= i < 5 ==> NoCapitals(RULES[i].needle)
  {
  }

  lemma NeedlesAreSmallTo10()
    ensures |RULES| == 30 && forall i :: 5 <= i < 10 ==> NoCapitals(RULES[i].needle)
  {
  }

  lemma NeedlesAreSmallTo15()
    ensures |RULES| == 30 && forall i :: 10 <= i < 15 ==> NoCapitals(RULES[i].needle)
  {
  }

  lemma NeedlesAreSmallTo20()
    ensures |RULES| == 30 && forall i :: 15 <= i < 20 ==> NoCapitals(RULES[i].needle)
  {
  }

  lemma NeedlesAreSmallTo25()
    ensures |RULES| == 30 && forall i :: 20 <= i < 25 ==> NoCapitals(RULES[i].needle)
  {
  }

  lemma NeedlesAreSmallTo30()
    ensures |RULES| == 30 && forall i :: 25 <= i < 30 ==> NoCapitals(RULES[i].needle)
  {
  }

  /** One of the texts that a device is known by: its vendor, vendor class and hostname, and its services. */
  predicate IsText(p: Profile, text: string) {
    p.vendor == Some(text) || p.vendorClass == Some(text) || p.hostname == Some(text) || text in p.services
  }

  ghost predicate SomeTextMatches(p: Profile, needle: string) {
    exists text :: IsText(p, text) && Matches(text, needle)
  }

  lemma FieldsAreTexts(p: Profile, text: string)
    ensures text in Fields(p) <==> IsText(p, text)
  {
  }

  lemma SomeFieldIsSomeText(p: Profile, needle: string)
    requires NoCapitals(needle)
    ensures InSomeField(Fields(p), needle) <==> SomeTextMatches(p, needle)
  {
    var fields := Fields(p);
    if InSomeField(fields, needle) {
      var i :| 0 <= i < |fields| && Contains(Lower(fields[i]), needle);
      MatchExact(fields[i], needle);
      FieldsAreTexts(p, fields[i]);
    }
    if SomeTextMatches(p, needle) {
      var text :| IsText(p, text) && Matches(text, needle);
      MatchExact(text, needle);
      FieldsAreTexts(p, text);
      var i :| 0 <= i < |fields| && fields[i] == text;
    }
  }

  /** Row i matches, and every other matching row is less confident or, above it, at most as confident. */
  ghost predicate RowWins(p: Profile, i: nat) {
    && i < |RULES| && SomeTextMatches(p, RULES[i].needle)
    && forall j :: 0 <= j < |RULES| && SomeTextMatches(p, RULES[j].needle) ==>
         RULES[j].confidence <= RULES[i].confidence && (j > i ==> RULES[j].confidence < RULES[i].confidence)
  }

  lemma HitsAreMatches(p: Profile)
    ensures forall j :: 0 <= j < |RULES| ==>
      HitsFields(Fields(p))(RULES[j].needle) == SomeTextMatches(p, RULES[j].needle)
  {
    forall j | 0 <= j < |RULES|
      ensures HitsFields(Fields(p))(RULES[j].needle) == SomeTextMatches(p, RULES[j].needle)
    {
      NeedlesHaveNoCapitals(j);
      SomeFieldIsSomeText(p, RULES[j].needle);
    }
  }

  lemma WinnerIsRow(p: Profile, i: nat)
    ensures IsLastMaximum(RULES, HitsFields(Fields(p)), i) <==> RowWins(p, i)
  {
    HitsAreMatches(p);
  }

  /** The verdict is the last table row among the most confident of the rows whose needle some
      text of the device spells in any case, and there is none exactly when no text spells any. */
  lemma VerdictIsLastMaximum(p: Profile, c: Classification)
    ensures Classified(p) == Some(c) <==> exists i: nat :: RowWins(p, i) && c == RowVerdict(i)
    ensures Classified(p) == None <==> forall j :: 0 <= j < |RULES| ==> !SomeTextMatches(p, RULES[j].needle)
  {
    var hit := HitsFields(Fields(p));
    ClassifyIsPerField(p);
    HitsAreMatches(p);
    forall i: nat
      ensures Best(RULES, hit, |RULES|) == Some(i) <==> RowWins(p, i)
    {
      WinnerIsLastMaximum(RULES, hit, i);
      WinnerIsRow(p, i);
    }
    WinnerIsLastMaximum(RULES, hit, 0);
  }

  function RowVerdict(i: nat): Classification
    requires i < |RULES|
  {
    Classification(RULES[i].deviceType, RULES[i].category, RULES[i].confidence, RULES[i].needle)
  }

  /** An Echo banner outranks every other signal, in any case and in any field. */
  lemma EchoBannerDecides(p: Profile, text: string)
    requires IsText(p, text) && Matches(text, "amazonecho")
    ensures Classified(p) == Some(Classification("Amazon Echo", SmartSpeaker, 0.95, "amazonecho"))
  {
    FirstRowOutranks();
    VerdictIsLastMaximum(p, RowVerdict(0));
  }

  lemma FirstRowOutranks()
    ensures RULES[0] == Rule("amazonecho", "Amazon Echo", SmartSpeaker, 0.95)
    ensures forall i :: 0 < i < |RULES| ==> RULES[i].confidence < RULES[0].confidence
  {
  }

  /** Equal but for the case of ASCII letters. */
  predicate SameButCase(s: string, t: string) {
    |s| == |t| && forall k :: 0 <= k < |s| ==> SameLetter(s[k], t[k])
  }

  predicate SameLetter(c: char, d: char) {
    || c == d
    || (0x61 <= d as int <= 0x7a && c as int == d as int - 0x20)
    || (0x61 <= c as int <= 0x7a && d as int == c as int - 0x20)
  }

  lemma LowerForgetsCase(s: string, t: string)
    ensures Lower(s) == Lower(t) <==> SameButCase(s, t)
  {
    if Lower(s) == Lower(t) {
      assert |s| == |Lower(s)| == |t|;
      forall k | 0 <= k < |s|
        ensures SameLetter(s[k], t[k])
      {
        assert Lower(s)[k] == Lower(t)[k];
      }
    }
  }

  lemma {:induction false} JoinedForgetsCase(a: seq<string>, b: seq<string>)
    requires |a| == |b| && forall i :: 0 <= i < |a| ==> SameButCase(a[i], b[i])
    ensures Joined(a) == Joined(b)
  {
    if a != [] {
      var n := |a| - 1;
      JoinedForgetsCase(a[..n], b[..n]);
      LowerForgetsCase(a[n], b[n]);
    }
  }

  /** Devices whose texts differ only in case get the same verdict. */
  lemma CaseIsIrrelevant(p: Profile, q: Profile)
    requires |Fields(p)| == |Fields(q)|
    requires forall i :: 0 <= i < |Fields(p)| ==> SameButCase(Fields(p)[i], Fields(q)[i])
    ensures Classified(p) == Classified(q)
  {
    JoinedForgetsCase(Fields(p), Fields(q));
  }

  // --- the text that is not searched ---

  predicate IsListChar(c: char) {
    c == ',' || '0' <= c <= '9'
  }

  /** No needle starts the way a printed request list could go on. */
  lemma NeedlesAreNoLists()
    ensures forall i :: 0 <= i < |RULES| ==> RULES[i].needle != "" && !IsListChar(RULES[i].needle[0])
  {
  }

  lemma {:induction false} ListChars(parts: seq<string>)
    requires forall i :: 0 <= i < |parts| ==> forall c :: c in parts[i] ==> IsListChar(c)
    ensures forall c :: c in Join(parts, ',') ==> IsListChar(c)
  {
    if |parts| > 1 {
      ListChars(parts[1..]);
    }
  }

  lemma ListsMatchNothing(codes: seq<byte>, i: nat)
    requires i < |RULES|
    ensures !Contains(Lower(Dhcp.Fingerprint(codes)), RULES[i].needle)
  {
    var text, needle := Dhcp.Fingerprint(codes), RULES[i].needle;
    ListChars(NetFmt.Decimals(codes));
    NeedlesAreNoLists();
    forall j | 0 <= j <= |text|
      ensures !OccursAt(Lower(text), needle, j)
    {
      OccursChar(Lower(text), needle, j, 0);
      assert j < |text| ==> text[j] in text && Lower(text)[j] == text[j];
    }
  }

  /** The printed DHCP request list is not searched; if it were, no verdict would change. */
  lemma RequestListWouldNotMatter(p: Profile, codes: seq<byte>)
    ensures Verdict(RULES, HitsFields(Fields(p) + [Dhcp.Fingerprint(codes)])) == Classified(p)
  {
    var list := Dhcp.Fingerprint(codes);
    var a, b := HitsFields(Fields(p) + [list]), HitsFields(Fields(p));
    ClassifyIsPerField(p);
    forall i | 0 <= i < |RULES|
      ensures a(RULES[i].needle) == b(RULES[i].needle)
    {
      ListsMatchNothing(codes, i);
      OneFieldMore(Fields(p), list, RULES[i].needle);
    }
    SameHitsSameBest(RULES, a, b, |RULES|);
  }

  lemma OneFieldMore(fields: seq<string>, f: string, needle: string)
    ensures InSomeField(fields + [f], needle) <==> InSomeField(fields, needle) || Contains(Lower(f), needle)
  {
    var more := fields + [f];
    assert more[|fields|] == f;
    assert forall i :: 0 <= i < |fields| ==> more[i] == fields[i];
    if InSomeField(fields, needle) {
      var i :| 0 <= i < |fields| && Contains(Lower(fields[i]), needle);
      assert Contains(Lower(more[i]), needle);
    }
  }
}
