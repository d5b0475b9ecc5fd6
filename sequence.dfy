/**
 * The chaotic sequence generator `ChaosSystem` of sequence.py. It keeps three parallel
 * lists: the maps, the initial value of each map and the current state of each map. One
 * round applies every map once to its own state, and the value a round yields is
 * `extract_element` of the whole list of states. The maps are floating-point functions and
 * `extract_element` is defined elsewhere, so both are parameters here: a map is any
 * `S -> S` and the extraction any `seq<S> -> V`.
 */
module Sequence {
  import opened Util
  import opened Stream

  /** One round: `for (i, map) in enumerate(map_list): chaos[i] = map(chaos[i])`. */
  function Advance<S>(maps: seq<S -> S>, st: seq<S>): (r: seq<S>)
    requires |st| == |maps|
    ensures |r| == |maps|
  {
    seq(|maps|, i requires 0 <= i < |maps| => maps[i](st[i]))
  }

  /** The states after k rounds from st. */
  function Iterate<S>(maps: seq<S -> S>, st: seq<S>, k: nat): (r: seq<S>)
    requires |st| == |maps|
    ensures |r| == |maps|
  {
    if k == 0 then st else Advance(maps, Iterate(maps, st, k - 1))
  }

  /** The values of the first `length` rounds from st: round k yields the states after k + 1 rounds. */
  function Generated<S, V>(maps: seq<S -> S>, st: seq<S>, extract: seq<S> -> V, length: nat): (r: seq<V>)
    requires |st| == |maps|
    ensures |r| == length
  {
    seq(length, k requires 0 <= k < length => extract(Iterate(maps, st, k + 1)))
  }

  /** Rounds compose: a rounds and then b more are a + b rounds. */
  lemma {:induction false} IterateAdd<S>(maps: seq<S -> S>, st: seq<S>, a: nat, b: nat)
    requires |st| == |maps|
    ensures Iterate(maps, Iterate(maps, st, a), b) == Iterate(maps, st, a + b)
    decreases b
  {
    if b > 0 {
      IterateAdd(maps, st, a, b - 1);
    }
  }

  /** A shorter request is a prefix of a longer one. */
  lemma GeneratedPrefix<S, V>(maps: seq<S -> S>, st: seq<S>, extract: seq<S> -> V, m: nat, n: nat)
    requires |st| == |maps| && m <= n
    ensures Generated(maps, st, extract, n)[..m] == Generated(maps, st, extract, m)
  {
  }

  /** Generating from the states after k rounds gives the rest of the sequence from st. */
  lemma GeneratedShift<S, V>(maps: seq<S -> S>, st: seq<S>, extract: seq<S> -> V, k: nat, n: nat)
    requires |st| == |maps|
    ensures Generated(maps, Iterate(maps, st, k), extract, n) == Generated(maps, st, extract, k + n)[k..]
  {
    var l, r := Generated(maps, Iterate(maps, st, k), extract, n), Generated(maps, st, extract, k + n)[k..];
    forall i | 0 <= i < n
      ensures l[i] == r[i]
    {
      IterateAdd(maps, st, k, i + 1);
    }
  }

  /** One more round at the end of a generated sequence. */
  lemma GeneratedSnoc<S, V>(maps: seq<S -> S>, st: seq<S>, extract: seq<S> -> V, n: nat)
    requires |st| == |maps|
    ensures Generated(maps, st, extract, n + 1) == Generated(maps, st, extract, n) + [extract(Iterate(maps, st, n + 1))]
  {
  }

  class ChaosSystem<S, V> {
    /** `map_list`. */
    var maps: seq<S -> S>
    /** `inital_value`. */
    var initial: seq<S>
    /** `current_status`. */
    var current: seq<S>

    /** The three lists stay parallel. */
    ghost predicate Valid()
      reads this
    {
      |initial| == |maps| && |current| == |maps|
    }

    constructor ()
      ensures Valid()
      ensures maps == [] && initial == [] && current == []
    {
      maps := [];
      initial := [];
      current := [];
    }

    /**
     * `add_mapping(map, inital)`. The arity check of the source compares the initial value
     * with the type object `list` by identity, which no state value is, so it never fires.
     */
    method AddMapping(m: S -> S, init: S)
      modifies this
      ensures maps == old(maps) + [m] && initial == old(initial) + [init] && current == old(current) + [init]
      ensures old(Valid()) ==> Valid()
    {
      maps := maps + [m];
      initial := initial + [init];
      current := current + [init];
    }

    /** `get_sequence(length)`: rounds on a copy of the initial values; no field changes. */
    method GetSequence(length: nat, extract: seq<S> -> V) returns (result: seq<V>)
      requires Valid()
      ensures result == Generated(maps, initial, extract, length)
    {
      result := [];
      var chaos := initial;
      for step := 0 to length
        invariant |chaos| == |maps|
        invariant chaos == Iterate(maps, initial, step)
        invariant result == Generated(maps, initial, extract, step)
      {
        ghost var prev := chaos;
        for i := 0 to |maps|
          invariant |chaos| == |maps|
          invariant forall p :: 0 <= p < |maps| ==> chaos[p] == if p < i then maps[p](prev[p]) else prev[p]
        {
          chaos := chaos[i := maps[i](chaos[i])];
        }
        assert chaos == Advance(maps, prev);
        GeneratedSnoc(maps, initial, extract, step);
        result := result + [extract(chaos)];
      }
    }

    /** `__next__`: one round on the current states, which it overwrites, and their value. */
    method Next(extract: seq<S> -> V) returns (v: V)
      requires Valid()
      modifies this
      ensures maps == old(maps) && initial == old(initial) && Valid()
      ensures current == Advance(maps, old(current))
      ensures v == extract(current)
    {
      ghost var prev := current;
      for i := 0 to |maps|
        invariant maps == old(maps) && initial == old(initial) && |current| == |maps|
        invariant forall p :: 0 <= p < |maps| ==> current[p] == if p < i then maps[p](prev[p]) else prev[p]
      {
        current := current[i := maps[i](current[i])];
      }
      assert current == Advance(maps, prev);
      v := extract(current);
    }

    /** `get_next()`: the same as `next(self)`. */
    method GetNext(extract: seq<S> -> V) returns (v: V)
      requires Valid()
      modifies this
      ensures maps == old(maps) && initial == old(initial) && Valid()
      ensures current == Advance(maps, old(current))
      ensures v == extract(current)
    {
      v := Next(extract);
    }

    /** `reset()`: the current states become a copy of the initial values. */
    method Reset()
      requires Valid()
      modifies this
      ensures maps == old(maps) && initial == old(initial) && Valid()
      ensures current == initial
    {
      current := initial;
    }

    /** `get_reverse_iterator(length)`: resets, then iterates over the reversed sequence. */
    method GetReverseIterator(length: nat, extract: seq<S> -> V) returns (it: ValueStream<V>)
      requires Valid()
      modifies this
      ensures maps == old(maps) && initial == old(initial) && Valid()
      ensures current == initial
      ensures fresh(it) && it.pos == 0
      ensures it.values == Rev(Generated(maps, initial, extract, length))
    {
      Reset();
      var s := GetSequence(length, extract);
      it := new ValueStream(Rev(s));
    }
  }

  /**
   * The values an operation draws with `next(it)` from a freshly reset system are the ones
   * `get_sequence` lists: n calls after `reset()` return `get_sequence(n)` in order.
   */
  method NextReplaysSequence<S, V>(sys: ChaosSystem<S, V>, n: nat, extract: seq<S> -> V) returns (drawn: seq<V>)
    requires sys.Valid()
    modifies sys
    ensures sys.maps == old(sys.maps) && sys.initial == old(sys.initial) && sys.Valid()
    ensures drawn == Generated(sys.maps, sys.initial, extract, n)
    ensures sys.current == Iterate(sys.maps, sys.initial, n)
  {
    sys.Reset();
    drawn := [];
    for k := 0 to n
      invariant sys.maps == old(sys.maps) && sys.initial == old(sys.initial) && sys.Valid()
      invariant sys.current == Iterate(sys.maps, sys.initial, k)
      invariant drawn == Generated(sys.maps, sys.initial, extract, k)
    {
      var v := sys.Next(extract);
      GeneratedSnoc(sys.maps, sys.initial, extract, k);
      drawn := drawn + [v];
    }
  }
}
