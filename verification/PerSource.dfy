/** Detectors that keep one state per source address: whatever the per-source step does,
    sources cannot influence each other. */
module PerSource {
  import opened Prelude

  function Get<K, V>(m: map<K, V>, k: K): Option<V> {
    if k in m then Some(m[k]) else None
  }

  /** The table after the first n events of an interleaved trace. */
  function Table<S, E>(step: (Option<S>, E) -> S, tr: seq<(u32, E)>, n: nat): map<u32, S>
    requires n <= |tr|
  {
    if n == 0 then map[]
    else
      var before := Table(step, tr, n - 1);
      before[tr[n - 1].0 := step(Get(before, tr[n - 1].0), tr[n - 1].1)]
  }

  /** One source's state after its own events. */
  function Alone<S, E>(step: (Option<S>, E) -> S, own: seq<E>): Option<S> {
    if own == [] then None else Some(step(Alone(step, own[..|own| - 1]), own[|own| - 1]))
  }

  /** What one source contributed to the first n events. */
  function Own<E>(tr: seq<(u32, E)>, n: nat, src: u32): seq<E>
    requires n <= |tr|
  {
    if n == 0 then []
    else Own(tr, n - 1, src) + if tr[n - 1].0 == src then [tr[n - 1].1] else []
  }

  lemma {:induction false} Isolated<S, E>(step: (Option<S>, E) -> S, tr: seq<(u32, E)>, n: nat, src: u32)
    requires n <= |tr|
    ensures Get(Table(step, tr, n), src) == Alone(step, Own(tr, n, src))
  {
    if n > 0 {
      Isolated(step, tr, n - 1, src);
      var before, own := Own(tr, n - 1, src), Own(tr, n, src);
      if tr[n - 1].0 == src {
        assert own[..|own| - 1] == before;
      } else {
        assert own == before;
      }
    }
  }
}
