/** The mDNS decoder of lanscope/src/decode/mdns.rs: what the names of a packet say. */
module Mdns {
  import opened Prelude
  import opened Signals
  import opened Dns

  /** What one extracted name contributes. */
  function SignalOf(name: string): seq<Signal> {
    if Contains(name, "._tcp") || Contains(name, "._udp") then [Service(name)]
    else if EndsWith(name, ".local") then
      var host := name[..|name| - 6];
      if host != "" && host[0] != '_' then [Hostname(host)] else []
    else []
  }

  const ReadSignal: string -> seq<Signal> := (name: string) => SignalOf(name)

  function Decoded(payload: seq<byte>): seq<Signal> {
    FlatMap(ReadSignal, Names(payload))
  }

  method Decode(payload: seq<byte>) returns (signals: seq<Signal>)
    ensures signals == Decoded(payload)
  {
    signals := [];
    var names := ExtractNames(payload);
    for i := 0 to |names|
      invariant signals == FlatMap(ReadSignal, names[..i])
    {
      var name := names[i];
      FlatMapSnoc(ReadSignal, names[..i], name);
      assert names[..i + 1] == names[..i] + [name];
      if Contains(name, "._tcp") || Contains(name, "._udp") {
        signals := signals + [Service(name)];
      } else if EndsWith(name, ".local") {
        var host := name[..|name| - 6];
        if host != "" && host[0] != '_' {
          signals := signals + [Hostname(host)];
        }
      }
    }
    assert names[..|names|] == names;
  }

  function FlatMap<A, B>(f: A -> seq<B>, s: seq<A>): seq<B> {
    if s == [] then [] else FlatMap(f, s[..|s| - 1]) + f(s[|s| - 1])
  }

  lemma FlatMapSnoc<A, B>(f: A -> seq<B>, s: seq<A>, x: A)
    ensures FlatMap(f, s + [x]) == FlatMap(f, s) + f(x)
  {
    assert (s + [x])[..|s|] == s;
  }

  lemma {:induction false} FlatMapAppend<A, B>(f: A -> seq<B>, a: seq<A>, b: seq<A>)
    ensures FlatMap(f, a + b) == FlatMap(f, a) + FlatMap(f, b)
  {
    if b == [] {
      assert a + b == a;
    } else {
      var n := |b| - 1;
      FlatMapAppend(f, a, b[..n]);
      FlatMapSnoc(f, a + b[..n], b[n]);
      assert a + b == (a + b[..n]) + [b[n]];
      assert FlatMap(f, b) == FlatMap(f, b[..n]) + f(b[n]);
      AppendSnoc(FlatMap(f, a), FlatMap(f, b[..n]), f(b[n]));
    }
  }

  lemma AppendSnoc<B>(a: seq<B>, b: seq<B>, c: seq<B>)
    ensures a + b + c == a + (b + c)
  {
  }

  lemma {:induction false} FlatMapMember<A, B>(f: A -> seq<B>, s: seq<A>, y: B)
    ensures y in FlatMap(f, s) <==> exists i :: 0 <= i < |s| && y in f(s[i])
  {
    if s != [] {
      FlatMapMember(f, s[..|s| - 1], y);
    }
  }

  /** Each element yields at most one result, and different elements different ones. */
  ghost predicate ReadsApart<A(!new), B(!new)>(f: A -> seq<B>) {
    && (forall x :: |f(x)| <= 1)
    && (forall x, y :: f(x) != [] && f(x) == f(y) ==> x == y)
  }

  lemma SameMembers<A(!new), B(!new)>(f: A -> seq<B>, s: seq<A>, x: A)
    requires ReadsApart(f) && f(x) != []
    ensures x in s <==> f(x)[0] in FlatMap(f, s)
  {
    FlatMapMember(f, s, f(x)[0]);
    if f(x)[0] in FlatMap(f, s) {
      var i :| 0 <= i < |s| && f(x)[0] in f(s[i]);
      assert f(s[i]) == [f(x)[0]] == f(x);
    }
  }

  /** Removing duplicates before or after an injective reading makes no difference. */
  lemma {:induction false} FlatMapDedup<A(!new), B(!new)>(f: A -> seq<B>, s: seq<A>)
    requires ReadsApart(f)
    ensures FlatMap(f, Dedup(s)) == Dedup(FlatMap(f, s))
  {
    if s != [] {
      var n := |s| - 1;
      FlatMapDedup(f, s[..n]);
      if f(s[n]) != [] {
        SameMembers(f, s[..n], s[n]);
      }
      FlatMapDedupStep(f, s[..n], s[n]);
      assert s == s[..n] + [s[n]];
    }
  }

  lemma FlatMapDedupStep<A(!new), B(!new)>(f: A -> seq<B>, s: seq<A>, x: A)
    requires |f(x)| <= 1 && (f(x) != [] ==> (x in s <==> f(x)[0] in FlatMap(f, s)))
    requires FlatMap(f, Dedup(s)) == Dedup(FlatMap(f, s))
    ensures FlatMap(f, Dedup(s + [x])) == Dedup(FlatMap(f, s + [x]))
  {
    FlatMapSnoc(f, s, x);
    DedupSnoc(s, x);
    if f(x) == [] {
      assert FlatMap(f, s + [x]) == FlatMap(f, s);
      if x !in s {
        FlatMapSnoc(f, Dedup(s), x);
        assert FlatMap(f, Dedup(s) + [x]) == FlatMap(f, Dedup(s));
      }
    } else {
      var y := f(x)[0];
      assert f(x) == [y];
      DedupSnoc(FlatMap(f, s), y);
      if x !in s {
        FlatMapSnoc(f, Dedup(s), x);
      }
    }
  }

  lemma SignalOfInjective(a: string, b: string)
    requires SignalOf(a) != [] && SignalOf(a) == SignalOf(b)
    ensures a == b
  {
    if SignalOf(a)[0].Hostname? {
      assert a == a[..|a| - 6] + a[|a| - 6..];
      assert b == b[..|b| - 6] + b[|b| - 6..];
    }
  }

  ghost predicate NamesTransport(name: string) {
    || (exists a: string, b: string :: name == a + "._tcp" + b)
    || (exists a: string, b: string :: name == a + "._udp" + b)
  }

  /** A name that mentions a transport after a dot is a service, whatever it ends in; any other name
      with `.local` behind something that does not start with an underscore is a host. */
  lemma SignalOfExact(name: string, signal: Signal)
    ensures signal in SignalOf(name)
       <==> if NamesTransport(name) then signal == Service(name)
            else signal.Hostname? && name == signal.name + ".local" && signal.name != "" && signal.name[0] != '_'
  {
    ContainsExact(name, "._tcp");
    ContainsExact(name, "._udp");
    if EndsWith(name, ".local") {
      assert name == name[..|name| - 6] + ".local";
    }
  }

  lemma SignalDecoded(buf: seq<byte>, signal: Signal)
    ensures signal in Decoded(buf) <==> exists name :: name in Names(buf) && signal in SignalOf(name)
  {
    FlatMapMember(ReadSignal, Names(buf), signal);
    if signal in Decoded(buf) {
      var i :| 0 <= i < |Names(buf)| && signal in ReadSignal(Names(buf)[i]);
      assert Names(buf)[i] in Names(buf);
    }
  }

  /** Any packet, with or without compression pointers, announces exactly the services written in it ... */
  lemma ServiceDecoded(buf: seq<byte>, name: string)
    ensures Service(name) in Decoded(buf) <==> OnWire(buf, name) && |name| <= 255 && NamesTransport(name)
  {
    SignalDecoded(buf, Service(name));
    SignalOfExact(name, Service(name));
    NamesExact(buf, name);
    IsInterestingExact(name);
    forall other
      ensures Service(name) in SignalOf(other) ==> other == name
    {
    }
  }

  /** ... and exactly the hosts. */
  lemma HostDecoded(buf: seq<byte>, host: string)
    ensures Hostname(host) in Decoded(buf)
       <==> && OnWire(buf, host + ".local") && |host| <= 249 && !NamesTransport(host + ".local")
            && host != "" && host[0] != '_'
  {
    var name := host + ".local";
    SignalDecoded(buf, Hostname(host));
    SignalOfExact(name, Hostname(host));
    NamesExact(buf, name);
    IsInterestingExact(name);
    forall other
      ensures Hostname(host) in SignalOf(other) ==> other == name
    {
      SignalOfExact(other, Hostname(host));
    }
  }

  lemma NothingElseDecoded(buf: seq<byte>, signal: Signal)
    requires signal in Decoded(buf)
    ensures signal.Service? || signal.Hostname?
  {
    SignalDecoded(buf, signal);
  }
}
