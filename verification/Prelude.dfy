/** Vocabulary shared by every module: machine integers, options, and the few
    string and list operations of the Rust standard library the program relies on. */
module Prelude {

  type byte = x: int | 0 <= x < 0x100
  type u16 = x: int | 0 <= x < 0x1_0000
  type u32 = x: int | 0 <= x < 0x1_0000_0000
  type u64 = x: int | 0 <= x < 0x1_0000_0000_0000_0000

  /** Unsigned addition without overflow checks. */
  function Add64(x: u64, y: u64): u64 {
    if x + y < 0x1_0000_0000_0000_0000 then x + y else x + y - 0x1_0000_0000_0000_0000
  }

  function Add32(x: u32, y: u32): u32 {
    if x + y < 0x1_0000_0000 then x + y else x + y - 0x1_0000_0000
  }

  /** The value a wrapping counter shows for a true total. */
  function Wrap64(x: nat): u64 {
    x % 0x1_0000_0000_0000_0000
  }

  function Wrap32(x: nat): u32 {
    x % 0x1_0000_0000
  }

  datatype Option<+T> = None | Some(value: T)

  // --- text ---

  predicate OccursAt(text: string, needle: string, i: int) {
    0 <= i <= |text| - |needle| && text[i..i + |needle|] == needle
  }

  /** `str::contains`. */
  predicate Contains(text: string, needle: string) {
    exists i :: 0 <= i <= |text| && OccursAt(text, needle, i)
  }

  /** `str::ends_with`. */
  predicate EndsWith(text: string, tail: string) {
    |tail| <= |text| && text[|text| - |tail|..] == tail
  }

  /** A text contains a needle iff it is the needle with something around it ... */
  lemma ContainsExact(text: string, needle: string)
    ensures Contains(text, needle) <==> exists a: string, b: string :: text == a + needle + b
  {
    if Contains(text, needle) {
      var i :| 0 <= i <= |text| && OccursAt(text, needle, i);
      assert text == text[..i] + needle + text[i + |needle|..];
    }
    if exists a: string, b: string :: text == a + needle + b {
      var a: string, b: string :| text == a + needle + b;
      assert text[|a|..|a| + |needle|] == needle;
      assert OccursAt(text, needle, |a|);
    }
  }

  /** ... and ends with it iff it is something before the needle. */
  lemma EndsWithExact(text: string, tail: string)
    ensures EndsWith(text, tail) <==> exists a: string :: text == a + tail
  {
    if EndsWith(text, tail) {
      assert text == text[..|text| - |tail|] + tail;
    }
    if exists a: string :: text == a + tail {
      var a: string :| text == a + tail;
      assert text[|text| - |tail|..] == tail;
    }
  }

  /** `[String]::join` with a one-character separator. */
  function Join(parts: seq<string>, sep: char): string {
    if parts == [] then ""
    else if |parts| == 1 then parts[0]
    else parts[0] + [sep] + Join(parts[1..], sep)
  }

  /** `str::split` on one character: always at least one piece. */
  function Split(text: string, sep: char): (parts: seq<string>)
    ensures parts != []
  {
    if text == "" then [""]
    else
      var rest := Split(text[1..], sep);
      if text[0] == sep then [""] + rest
      else [[text[0]] + rest[0]] + rest[1..]
  }

  lemma {:induction false} SplitPiece(piece: string, sep: char)
    requires sep !in piece
    ensures Split(piece, sep) == [piece]
  {
    if piece != "" {
      SplitPiece(piece[1..], sep);
      assert piece == [piece[0]] + piece[1..];
    }
  }

  lemma {:induction false} SplitHead(piece: string, rest: string, sep: char)
    requires sep !in piece
    ensures Split(piece + [sep] + rest, sep) == [piece] + Split(rest, sep)
  {
    var text := piece + [sep] + rest;
    if piece == "" {
      assert text[1..] == rest;
    } else {
      SplitHead(piece[1..], rest, sep);
      assert text[1..] == piece[1..] + [sep] + rest;
      assert piece == [piece[0]] + piece[1..];
    }
  }

  /** Splitting undoes joining whenever no piece holds the separator. */
  lemma {:induction false} SplitJoin(parts: seq<string>, sep: char)
    requires parts != []
    requires forall p :: p in parts ==> sep !in p
    ensures Split(Join(parts, sep), sep) == parts
  {
    if |parts| == 1 {
      SplitPiece(parts[0], sep);
    } else {
      SplitHead(parts[0], Join(parts[1..], sep), sep);
      SplitJoin(parts[1..], sep);
    }
  }

  /** Joining undoes splitting, and no piece holds the separator. */
  lemma {:induction false} JoinSplit(text: string, sep: char)
    ensures Join(Split(text, sep), sep) == text
    ensures forall p :: p in Split(text, sep) ==> sep !in p
  {
    if text != "" {
      JoinSplit(text[1..], sep);
      var rest := Split(text[1..], sep);
      assert text == [text[0]] + text[1..];
      if text[0] == sep {
        assert ([""] + rest)[1..] == rest;
      } else {
        var parts := [[text[0]] + rest[0]] + rest[1..];
        assert parts[1..] == rest[1..];
        assert rest[0] in rest;
        assert forall p :: p in rest[1..] ==> p in rest;
      }
    }
  }

  lemma {:induction false} JoinSnoc(parts: seq<string>, last: string, sep: char)
    requires parts != []
    ensures Join(parts + [last], sep) == Join(parts, sep) + [sep] + last
  {
    if |parts| == 1 {
      assert (parts + [last])[1..] == [last];
    } else {
      JoinSnoc(parts[1..], last, sep);
      assert (parts + [last])[1..] == parts[1..] + [last];
    }
  }

  // --- lists ---

  /** The elements in order of first occurrence: position i stays iff s[i] does not occur before it. */
  function Dedup<T(==)>(s: seq<T>): seq<T> {
    if s == [] then []
    else
      var n := |s| - 1;
      if s[n] in s[..n] then Dedup(s[..n]) else Dedup(s[..n]) + [s[n]]
  }

  lemma DedupSnoc<T>(s: seq<T>, x: T)
    ensures Dedup(s + [x]) == if x in s then Dedup(s) else Dedup(s) + [x]
  {
    assert (s + [x])[..|s|] == s;
  }

  lemma {:induction false} DedupMember<T>(s: seq<T>, x: T)
    ensures x in Dedup(s) <==> x in s
  {
    if s != [] {
      DedupMember(s[..|s| - 1], x);
      assert s == s[..|s| - 1] + [s[|s| - 1]];
    }
  }

  lemma {:induction false} DedupNoDuplicates<T>(s: seq<T>)
    ensures forall i, j :: 0 <= i < j < |Dedup(s)| ==> Dedup(s)[i] != Dedup(s)[j]
  {
    if s != [] {
      DedupNoDuplicates(s[..|s| - 1]);
      DedupMember(s[..|s| - 1], s[|s| - 1]);
    }
  }

  lemma {:induction false} DedupAppend<T>(a: seq<T>, b: seq<T>)
    ensures |Dedup(a)| <= |Dedup(a + b)| && Dedup(a + b)[..|Dedup(a)|] == Dedup(a)
  {
    if b == [] {
      assert a + b == a;
    } else {
      var n := |b| - 1;
      DedupAppend(a, b[..n]);
      DedupSnoc(a + b[..n], b[n]);
      assert a + b == (a + b[..n]) + [b[n]];
    }
  }

  /** x occurs before some y. */
  predicate Before<T(==)>(s: seq<T>, x: T, y: T) {
    exists i, j :: 0 <= i < j < |s| && s[i] == x && s[j] == y
  }

  lemma DedupKeepsOrder<T>(a: seq<T>, b: seq<T>, x: T, y: T)
    requires x in a && y !in a && y in b
    ensures Before(Dedup(a + b), x, y)
  {
    DedupAppend(a, b);
    DedupMember(a, x);
    DedupMember(a, y);
    DedupMember(a + b, y);
    var rest := Dedup(a + b)[|Dedup(a)|..];
    assert Dedup(a + b) == Dedup(a) + rest;
    var i :| 0 <= i < |Dedup(a)| && Dedup(a)[i] == x;
    var j :| 0 <= j < |rest| && rest[j] == y;
    assert Dedup(a + b)[i] == x && Dedup(a + b)[|Dedup(a)| + j] == y;
  }

  lemma {:induction false} DedupOfDistinct<T>(s: seq<T>)
    requires forall i, j :: 0 <= i < j < |s| ==> s[i] != s[j]
    ensures Dedup(s) == s
  {
    if s != [] {
      DedupOfDistinct(s[..|s| - 1]);
      assert s == s[..|s| - 1] + [s[|s| - 1]];
    }
  }

  /** The elements in order of last occurrence: position i stays iff s[i] does not occur after it. */
  function LastOccurrences<T(==)>(s: seq<T>): seq<T> {
    if s == [] then []
    else if s[0] in s[1..] then LastOccurrences(s[1..])
    else [s[0]] + LastOccurrences(s[1..])
  }

  /** Where x first occurs, and where last. */
  function FirstAt<T(==)>(s: seq<T>, x: T): (i: nat)
    requires x in s
    ensures i < |s| && s[i] == x && x !in s[..i]
  {
    if s[0] == x then 0
    else
      var k := FirstAt(s[1..], x);
      assert s[..1 + k] == [s[0]] + s[1..][..k];
      1 + k
  }

  function LastAt<T(==)>(s: seq<T>, x: T): (i: nat)
    requires x in s
    ensures i < |s| && s[i] == x && x !in s[i + 1..]
  {
    if s[|s| - 1] == x then |s| - 1 else LastAt(s[..|s| - 1], x)
  }

  lemma FirstAtUnique<T>(s: seq<T>, x: T, i: nat)
    requires i < |s| && s[i] == x && x !in s[..i]
    ensures FirstAt(s, x) == i
  {
  }

  lemma LastAtUnique<T>(s: seq<T>, x: T, i: nat)
    requires i < |s| && s[i] == x && x !in s[i + 1..]
    ensures LastAt(s, x) == i
  {
  }

  lemma FirstAtSnoc<T>(s: seq<T>, z: T, x: T)
    requires x in s + [z]
    ensures FirstAt(s + [z], x) == if x in s then FirstAt(s, x) else |s|
  {
    if x in s {
      assert (s + [z])[..FirstAt(s, x)] == s[..FirstAt(s, x)];
      FirstAtUnique(s + [z], x, FirstAt(s, x));
    } else {
      assert (s + [z])[..|s|] == s;
      FirstAtUnique(s + [z], x, |s|);
    }
  }

  lemma FirstAtCons<T>(a: T, s: seq<T>, x: T)
    requires x in [a] + s
    ensures FirstAt([a] + s, x) == if x == a then 0 else 1 + FirstAt(s, x)
  {
    if x != a {
      assert ([a] + s)[..1 + FirstAt(s, x)] == [a] + s[..FirstAt(s, x)];
      FirstAtUnique([a] + s, x, 1 + FirstAt(s, x));
    }
  }

  lemma LastAtCons<T>(a: T, s: seq<T>, x: T)
    requires x in [a] + s
    ensures LastAt([a] + s, x) == if x in s then 1 + LastAt(s, x) else 0
  {
    if x in s {
      assert ([a] + s)[1 + LastAt(s, x) + 1..] == s[LastAt(s, x) + 1..];
      LastAtUnique([a] + s, x, 1 + LastAt(s, x));
    } else {
      assert ([a] + s)[1..] == s;
      LastAtUnique([a] + s, x, 0);
    }
  }

  /** Removing duplicates leaves the elements in the order of their first occurrences ... */
  lemma {:induction false} DedupOrder<T>(s: seq<T>, x: T, y: T)
    requires x in s && y in s && FirstAt(s, x) < FirstAt(s, y)
    ensures x in Dedup(s) && y in Dedup(s) && FirstAt(Dedup(s), x) < FirstAt(Dedup(s), y)
  {
    DedupMember(s, x);
    DedupMember(s, y);
    var n := |s| - 1;
    var init, z := s[..n], s[n];
    assert s == init + [z];
    FirstAtSnoc(init, z, x);
    FirstAtSnoc(init, z, y);
    DedupMember(init, x);
    DedupMember(init, y);
    if y in init {
      DedupOrder(init, x, y);
    }
    if z !in init {
      FirstAtSnoc(Dedup(init), z, x);
      FirstAtSnoc(Dedup(init), z, y);
    }
  }

  lemma {:induction false} LastOccurrencesMember<T>(s: seq<T>, x: T)
    ensures x in LastOccurrences(s) <==> x in s
  {
    if s != [] {
      LastOccurrencesMember(s[1..], x);
      assert s == [s[0]] + s[1..];
    }
  }

  lemma {:induction false} LastOccurrencesNoDuplicates<T>(s: seq<T>)
    ensures forall i, j :: 0 <= i < j < |LastOccurrences(s)| ==> LastOccurrences(s)[i] != LastOccurrences(s)[j]
  {
    if s != [] {
      LastOccurrencesNoDuplicates(s[1..]);
      LastOccurrencesMember(s[1..], s[0]);
    }
  }

  /** ... and keeping last occurrences, in the order of those. */
  lemma {:induction false} LastOccurrencesOrder<T>(s: seq<T>, x: T, y: T)
    requires x in s && y in s && LastAt(s, x) < LastAt(s, y)
    ensures x in LastOccurrences(s) && y in LastOccurrences(s)
    ensures FirstAt(LastOccurrences(s), x) < FirstAt(LastOccurrences(s), y)
  {
    LastOccurrencesMember(s, x);
    LastOccurrencesMember(s, y);
    var a, rest := s[0], s[1..];
    assert s == [a] + rest;
    LastAtCons(a, rest, x);
    LastAtCons(a, rest, y);
    LastOccurrencesMember(rest, x);
    LastOccurrencesMember(rest, y);
    if x in rest {
      LastOccurrencesOrder(rest, x, y);
    }
    if a !in rest {
      FirstAtCons(a, LastOccurrences(rest), x);
      FirstAtCons(a, LastOccurrences(rest), y);
    }
  }

  lemma SliceOfSlice<T>(s: seq<T>, a: nat, b: nat, c: nat, d: nat)
    requires a <= b <= |s| && c <= d <= b - a
    ensures s[a..b][c..d] == s[a + c..a + d]
  {
    forall j | 0 <= j < d - c
      ensures s[a..b][c..d][j] == s[a + c..a + d][j]
    {
    }
  }

  function Flatten<T>(ss: seq<seq<T>>): seq<T> {
    if ss == [] then [] else Flatten(ss[..|ss| - 1]) + ss[|ss| - 1]
  }

  lemma FlattenSnoc<T>(ss: seq<seq<T>>, s: seq<T>)
    ensures Flatten(ss + [s]) == Flatten(ss) + s
  {
    assert (ss + [s])[..|ss|] == ss;
  }

  /** f(from) + ... + f(to - 1). */
  function Collect<T>(f: nat -> seq<T>, from: nat, to: nat): seq<T>
    requires from <= to
  {
    if from == to then [] else Collect(f, from, to - 1) + f(to - 1)
  }

  lemma {:induction false} CollectSplit<T>(f: nat -> seq<T>, a: nat, b: nat, c: nat)
    requires a <= b <= c
    ensures Collect(f, a, c) == Collect(f, a, b) + Collect(f, b, c)
  {
    if b < c {
      CollectSplit(f, a, b, c - 1);
      assert Collect(f, a, b) + Collect(f, b, c - 1) + f(c - 1) == Collect(f, a, b) + (Collect(f, b, c - 1) + f(c - 1));
    } else {
      assert Collect(f, a, b) + [] == Collect(f, a, b);
    }
  }

  lemma CollectOne<T>(f: nat -> seq<T>, a: nat)
    ensures Collect(f, a, a + 1) == f(a)
  {
    assert Collect(f, a, a) == [];
  }

  lemma {:induction false} CollectNothing<T>(f: nat -> seq<T>, a: nat, b: nat)
    requires a <= b && forall i :: a <= i < b ==> f(i) == []
    ensures Collect(f, a, b) == []
  {
    if a < b {
      CollectNothing(f, a, b - 1);
    }
  }

  lemma {:induction false} CollectMember<T>(f: nat -> seq<T>, a: nat, b: nat, x: T)
    requires a <= b
    ensures x in Collect(f, a, b) <==> exists i :: a <= i < b && x in f(i)
  {
    if a < b {
      CollectMember(f, a, b - 1, x);
    }
  }

  /** How many of the first n places are hits. */
  function CountTo(hit: nat -> bool, n: nat): nat {
    if n == 0 then 0 else CountTo(hit, n - 1) + if hit(n - 1) then 1 else 0
  }

  lemma CountToStep(hit: nat -> bool, n: nat)
    requires n > 0
    ensures CountTo(hit, 0) == 0 && CountTo(hit, n) == CountTo(hit, n - 1) + if hit(n - 1) then 1 else 0
  {
  }

  lemma {:induction false} CountToSame(a: nat -> bool, b: nat -> bool, n: nat)
    requires forall i: nat :: i < n ==> a(i) == b(i)
    ensures CountTo(a, n) == CountTo(b, n)
  {
    if n > 0 {
      CountToSame(a, b, n - 1);
    }
  }
}
