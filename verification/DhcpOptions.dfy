/** The option walk of the DHCP decoder, lanscope/src/decode/dhcp.rs, with what an option
    contributes left as a parameter. Layout: sections 2, 3.1 and 3.2 of RFC 2132. */
module DhcpOptions {
  import opened Prelude

  const OPT_PAD: byte := 0
  const OPT_END: byte := 255

  type Reader<T> = (byte, seq<byte>) -> seq<T>

  /** What the options from i on contribute. */
  function Walk<T>(read: Reader<T>, payload: seq<byte>, i: nat): seq<T>
    decreases |payload| - i
  {
    if i >= |payload| || payload[i] == OPT_END then []
    else if payload[i] == OPT_PAD then Walk(read, payload, i + 1)
    else if i + 1 >= |payload| then []
    else
      var next := i + 2 + payload[i + 1];
      if next > |payload| then []
      else read(payload[i], payload[i + 2..next]) + Walk(read, payload, next)
  }

  method WalkOptions<T>(read: Reader<T>, payload: seq<byte>, start: nat) returns (found: seq<T>)
    ensures found == Walk(read, payload, start)
  {
    found := [];
    var i := start;
    while i < |payload|
      invariant WalkOnto(read, payload, i, found) == WalkOnto(read, payload, start, [])
      decreases |payload| - i
    {
      var code := payload[i];
      i := i + 1;
      if code == OPT_PAD {
        continue;
      }
      if code == OPT_END {
        break;
      }
      if i >= |payload| {
        break;
      }
      var len := payload[i];
      i := i + 1;
      if i + len > |payload| {
        break;
      }
      var data := payload[i..i + len];
      i := i + len;
      found := found + read(code, data);
    }
    WalkOntoIsWalk(read, payload, start, []);
    assert [] + Walk(read, payload, start) == Walk(read, payload, start);
  }

  /** The walk with what was found before it. */
  function WalkOnto<T>(read: Reader<T>, payload: seq<byte>, i: nat, found: seq<T>): seq<T>
    decreases |payload| - i
  {
    if i >= |payload| || payload[i] == OPT_END then found
    else if payload[i] == OPT_PAD then WalkOnto(read, payload, i + 1, found)
    else if i + 1 >= |payload| then found
    else
      var next := i + 2 + payload[i + 1];
      if next > |payload| then found
      else WalkOnto(read, payload, next, found + read(payload[i], payload[i + 2..next]))
  }

  lemma {:induction false} WalkOntoIsWalk<T>(read: Reader<T>, payload: seq<byte>, i: nat, found: seq<T>)
    ensures WalkOnto(read, payload, i, found) == found + Walk(read, payload, i)
    decreases |payload| - i
  {
    if i >= |payload| || payload[i] == OPT_END {
    } else if payload[i] == OPT_PAD {
      WalkOntoIsWalk(read, payload, i + 1, found);
    } else if i + 1 < |payload| && i + 2 + payload[i + 1] <= |payload| {
      var next := i + 2 + payload[i + 1];
      var here := read(payload[i], payload[i + 2..next]);
      WalkOntoIsWalk(read, payload, next, found + here);
      Regroup(found, here, Walk(read, payload, next));
    }
  }

  lemma Regroup<T>(a: seq<T>, b: seq<T>, c: seq<T>)
    ensures a + b + c == a + (b + c)
  {
  }

  // --- what a run of options means ---

  /** An option as a sender writes it, and a run of them. */
  datatype Opt = Pad | Opt(code: byte, data: seq<byte>)
  datatype Opts = Nothing | First(opt: Opt, rest: Opts)

  predicate WellFormed(o: Opt) {
    o.Opt? ==> o.code != OPT_PAD && o.code != OPT_END && |o.data| < 0x100
  }

  predicate AllWellFormed(opts: Opts) {
    opts.First? ==> WellFormed(opts.opt) && AllWellFormed(opts.rest)
  }

  function Meaning<T>(read: Reader<T>, opts: Opts): seq<T> {
    if opts.Nothing? then []
    else (if opts.opt.Pad? then [] else read(opts.opt.code, opts.opt.data)) + Meaning(read, opts.rest)
  }

  function Size(o: Opt): nat {
    if o.Pad? then 1 else 2 + |o.data|
  }

  /** The options `opts`, as written, occupy payload[i..end]. */
  predicate WrittenAt(payload: seq<byte>, i: nat, opts: Opts, end: nat)
    decreases opts
  {
    match opts
    case Nothing => i == end
    case First(o, rest) => WellFormed(o) && Begins(payload, i, o) && WrittenAt(payload, i + Size(o), rest, end)
  }

  predicate Begins(payload: seq<byte>, i: nat, o: Opt)
    requires WellFormed(o)
  {
    && i + Size(o) <= |payload|
    && match o
       case Pad => payload[i] == OPT_PAD
       case Opt(code, data) =>
         payload[i] == code && payload[i + 1] == |data| && payload[i + 2..i + 2 + |data|] == data
  }

  function Written(o: Opt): (data: seq<byte>)
    requires WellFormed(o)
    ensures |data| == Size(o)
  {
    match o
    case Pad => [OPT_PAD]
    case Opt(code, data) => [code, |data|] + data
  }

  function WrittenAll(opts: Opts): seq<byte>
    requires AllWellFormed(opts)
  {
    if opts.Nothing? then [] else Written(opts.opt) + WrittenAll(opts.rest)
  }

  /** No complete option starts at i: the end option, the end of the payload, or an option
      cut off before its last byte. */
  predicate StopsAt(payload: seq<byte>, i: nat) {
    || i >= |payload|
    || payload[i] == OPT_END
    || (payload[i] != OPT_PAD && (i + 1 >= |payload| || i + 2 + payload[i + 1] > |payload|))
  }

  /** The byte layout, in numbers. */
  lemma LayoutInNumbers(code: byte, data: seq<byte>, payload: seq<byte>, i: nat)
    ensures WellFormed(Pad) && Written(Pad) == [0]
    ensures WellFormed(Opt(code, data)) <==> code != 0 && code != 255 && |data| <= 255
    ensures WellFormed(Opt(code, data)) ==> Written(Opt(code, data)) == [code, |data|] + data
    ensures StopsAt(payload, i)
       <==> || i >= |payload|
            || payload[i] == 255
            || (payload[i] != 0 && (i + 1 >= |payload| || i + 2 + payload[i + 1] > |payload|))
  {
  }

  lemma WalkOption<T>(read: Reader<T>, payload: seq<byte>, i: nat, next: nat)
    requires i + 2 <= next <= |payload| && payload[i] != OPT_PAD && payload[i] != OPT_END
    requires next == i + 2 + payload[i + 1]
    ensures Walk(read, payload, i) == read(payload[i], payload[i + 2..next]) + Walk(read, payload, next)
  {
  }

  lemma WalkPad<T>(read: Reader<T>, payload: seq<byte>, i: nat)
    requires i < |payload| && payload[i] == OPT_PAD
    ensures Walk(read, payload, i) == [] + Walk(read, payload, i + 1)
  {
  }

  lemma WalkFirst<T>(read: Reader<T>, payload: seq<byte>, i: nat, o: Opt)
    requires WellFormed(o) && Begins(payload, i, o)
    ensures Walk(read, payload, i) == Contribution(read, o) + Walk(read, payload, i + Size(o))
  {
    if o.Opt? {
      WalkOption(read, payload, i, i + Size(o));
    } else {
      WalkPad(read, payload, i);
    }
  }

  function Contribution<T>(read: Reader<T>, o: Opt): seq<T> {
    if o.Pad? then [] else read(o.code, o.data)
  }

  lemma FirstIsWalked<T>(read: Reader<T>, payload: seq<byte>, i: nat, o: Opt, rest: Opts, end: nat)
    requires WrittenAt(payload, i, First(o, rest), end)
    ensures WrittenAt(payload, i + Size(o), rest, end)
    ensures Walk(read, payload, i) == Contribution(read, o) + Walk(read, payload, i + Size(o))
  {
    WalkFirst(read, payload, i, o);
  }

  lemma WalkNothing<T>(read: Reader<T>, payload: seq<byte>, i: nat)
    requires StopsAt(payload, i)
    ensures Walk(read, payload, i) == []
  {
  }

  lemma MeaningFirst<T>(read: Reader<T>, o: Opt, rest: Opts)
    ensures Meaning(read, First(o, rest)) == Contribution(read, o) + Meaning(read, rest)
  {
  }

  /** The decoder reports exactly the signals of the complete options, in order. */
  lemma {:induction false} WalkMeaning<T>(read: Reader<T>, payload: seq<byte>, i: nat, opts: Opts, end: nat)
    requires WrittenAt(payload, i, opts, end) && StopsAt(payload, end)
    ensures Walk(read, payload, i) == Meaning(read, opts)
    decreases opts
  {
    match opts
    case Nothing =>
      WalkNothing(read, payload, i);
    case First(o, rest) =>
      FirstIsWalked(read, payload, i, o, rest, end);
      WalkMeaning(read, payload, i + Size(o), rest, end);
      MeaningFirst(read, o, rest);
  }

  /** The option that starts at i, if a complete one does, and where it ends. */
  function OptionAt(payload: seq<byte>, i: nat): Opt
    requires !StopsAt(payload, i)
  {
    if payload[i] == OPT_PAD then Pad else Opt(payload[i], payload[i + 2..i + 2 + payload[i + 1]])
  }

  function NextAt(payload: seq<byte>, i: nat): (next: nat)
    requires !StopsAt(payload, i)
    ensures i < next <= |payload|
  {
    if payload[i] == OPT_PAD then i + 1 else i + 2 + payload[i + 1]
  }

  lemma OneOptionMore(payload: seq<byte>, i: nat, rest: Opts, end: nat)
    requires !StopsAt(payload, i) && WrittenAt(payload, NextAt(payload, i), rest, end)
    ensures WrittenAt(payload, i, First(OptionAt(payload, i), rest), end)
  {
  }

  /** Every payload is of that shape, so `WalkMeaning` describes the decoder on all inputs. */
  lemma {:induction false} EveryPayloadIsWritten(payload: seq<byte>, i: nat) returns (opts: Opts, end: nat)
    ensures WrittenAt(payload, i, opts, end) && StopsAt(payload, end)
    decreases |payload| - i
  {
    if StopsAt(payload, i) {
      opts, end := Nothing, i;
    } else {
      var rest;
      rest, end := EveryPayloadIsWritten(payload, NextAt(payload, i));
      OneOptionMore(payload, i, rest, end);
      opts := First(OptionAt(payload, i), rest);
    }
  }

  /** Whatever is found was read from one option, and an option holds at most 255 bytes. */
  lemma {:induction false} FoundInSomeOption<T>(read: Reader<T>, payload: seq<byte>, i: nat, x: T)
    returns (code: byte, data: seq<byte>)
    requires x in Walk(read, payload, i)
    ensures x in read(code, data) && |data| < 0x100
    decreases |payload| - i
  {
    if payload[i] == OPT_PAD {
      code, data := FoundInSomeOption(read, payload, i + 1, x);
    } else {
      var next := i + 2 + payload[i + 1];
      code, data := payload[i], payload[i + 2..next];
      if x !in read(code, data) {
        code, data := FoundInSomeOption(read, payload, next, x);
      }
    }
  }

  // --- round trip ---

  lemma {:induction false} WrittenAllAt(payload: seq<byte>, i: nat, opts: Opts, end: nat)
    requires AllWellFormed(opts)
    requires i <= end <= |payload| && payload[i..end] == WrittenAll(opts)
    ensures WrittenAt(payload, i, opts, end)
    decreases opts
  {
    if opts.First? {
      var o, rest := opts.opt, opts.rest;
      FirstWritten(payload, i, o, WrittenAll(rest), end);
      WrittenAllAt(payload, i + Size(o), rest, end);
    }
  }

  lemma FirstWritten(payload: seq<byte>, i: nat, o: Opt, rest: seq<byte>, end: nat)
    requires WellFormed(o) && i <= end <= |payload|
    requires payload[i..end] == Written(o) + rest
    ensures i + Size(o) <= end && payload[i + Size(o)..end] == rest
    ensures Begins(payload, i, o)
  {
    var here := payload[i..end];
    assert |here| == end - i;
    assert payload[i] == here[0];
    assert payload[i + Size(o)..end] == here[Size(o)..];
    if o.Opt? {
      assert payload[i + 1] == here[1];
      assert here[2..2 + |o.data|] == o.data;
      SliceOfSlice(payload, i, end, 2, 2 + |o.data|);
    }
  }

  /** Nothing complete follows: the tail is empty, starts with the end option, or is cut off. */
  predicate Stops(tail: seq<byte>) {
    StopsAt(tail, 0)
  }

  /** Any well-formed options, pads among them, then anything that completes no further
      option, read back as exactly those options. */
  lemma WalkRoundTrip<T>(read: Reader<T>, front: seq<byte>, opts: Opts, tail: seq<byte>)
    requires AllWellFormed(opts) && Stops(tail)
    ensures Walk(read, front + WrittenAll(opts) + tail, |front|) == Meaning(read, opts)
  {
    var payload, end := front + WrittenAll(opts) + tail, |front| + |WrittenAll(opts)|;
    assert payload[|front|..end] == WrittenAll(opts);
    WrittenAllAt(payload, |front|, opts, end);
    StopsAfter(front + WrittenAll(opts), tail);
    WalkMeaning(read, payload, |front|, opts, end);
  }

  lemma StopsAfter(front: seq<byte>, tail: seq<byte>)
    requires Stops(tail)
    ensures StopsAt(front + tail, |front|)
  {
  }

  /** Dropping bytes at the end drops findings at the end, and nothing else. */
  lemma {:induction false} WalkTruncated<T>(read: Reader<T>, payload: seq<byte>, n: nat, i: nat)
    requires n <= |payload|
    ensures Walk(read, payload[..n], i) <= Walk(read, payload, i)
    decreases |payload| - i
  {
    var cut := payload[..n];
    if i < n && payload[i] != OPT_END {
      if payload[i] == OPT_PAD {
        WalkTruncated(read, payload, n, i + 1);
      } else if i + 1 < n && i + 2 + payload[i + 1] <= n {
        var next := i + 2 + payload[i + 1];
        FirstOptionKept(read, payload, n, i);
        WalkTruncated(read, payload, n, next);
        PrefixAfter(read(payload[i], payload[i + 2..next]), Walk(read, cut, next), Walk(read, payload, next));
      } else {
        WalkNothing(read, cut, i);
      }
    } else {
      WalkNothing(read, cut, i);
    }
  }

  lemma FirstOptionKept<T>(read: Reader<T>, payload: seq<byte>, n: nat, i: nat)
    requires i + 1 < n <= |payload| && payload[i] != OPT_END && payload[i] != OPT_PAD
    requires i + 2 + payload[i + 1] <= n
    ensures
      var next := i + 2 + payload[i + 1];
      var here := read(payload[i], payload[i + 2..next]);
      Walk(read, payload, i) == here + Walk(read, payload, next)
      && Walk(read, payload[..n], i) == here + Walk(read, payload[..n], next)
  {
    var next := i + 2 + payload[i + 1];
    assert payload[..n][i + 2..next] == payload[i + 2..next];
  }

  lemma PrefixAfter<T>(front: seq<T>, a: seq<T>, b: seq<T>)
    requires a <= b
    ensures front + a <= front + b
  {
  }
}
