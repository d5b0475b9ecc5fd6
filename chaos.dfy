/**
 * The generator `ChaosSystem` of chaos.py, a near-copy of the one in sequence.py with the
 * same fields and rounds. Its `get_reverse_iterator` does not reset the current states.
 * The value-level rounds (`Advance`, `Iterate`, `Generated`) are those of module Sequence.
 */
module Chaos {
  import opened Util
  import opened Stream
  import opened Sequence

  class ChaosSystem<S, V> {
    /** `map_list`. */
    var maps: seq<S -> S>
    /** `inital_value`. */
    var initial: seq<S>
    /** `current_status`. */
    var current: seq<S>

    /** The three lists stay parallel. */
    ghost predicate Valid()
      reads this
    {
      |initial| == |maps| && |current| == |maps|
    }

    constructor ()
      ensures Valid()
      ensures maps == [] && initial == [] && current == []
    {
      maps := [];
      initial := [];
      current := [];
    }

    /**
     * `add_mapping(map, inital)`. The arity check of the source compares the initial value
     * with the type object `list` by identity, which no state value is, so it never fires.
     */
    method AddMapping(m: S -> S, init: S)
      modifies this
      ensures maps == old(maps) + [m] && initial == old(initial) + [init] && current == old(current) + [init]
      ensures old(Valid()) ==> Valid()
    {
      maps := maps + [m];
      initial := initial + [init];
      current := current + [init];
    }

    /** `get_chaos_sequence(length)`: rounds on a copy of the initial values; no field changes. */
    method GetChaosSequence(length: nat, extract: seq<S> -> V) returns (result: seq<V>)
      requires Valid()
      ensures result == Generated(maps, initial, extract, length)
    {
      result := [];
      var chaos := initial;
      for step := 0 to length
        invariant |chaos| == |maps|
        invariant chaos == Iterate(maps, initial, step)
        invariant result == Generated(maps, initial, extract, step)
      {
        ghost var prev := chaos;
        for i := 0 to |maps|
          invariant |chaos| == |maps|
          invariant forall p :: 0 <= p < |maps| ==> chaos[p] == if p < i then maps[p](prev[p]) else prev[p]
        {
          chaos := chaos[i := maps[i](chaos[i])];
        }
        assert chaos == Advance(maps, prev);
        GeneratedSnoc(maps, initial, extract, step);
        result := result + [extract(chaos)];
      }
    }

    /** `__next__`: one round on the current states, which it overwrites, and their value. */
    method Next(extract: seq<S> -> V) returns (v: V)
      requires Valid()
      modifies this
      ensures maps == old(maps) && initial == old(initial) && Valid()
      ensures current == Advance(maps, old(current))
      ensures v == extract(current)
    {
      ghost var prev := current;
      for i := 0 to |maps|
        invariant maps == old(maps) && initial == old(initial) && |current| == |maps|
        invariant forall p :: 0 <= p < |maps| ==> current[p] == if p < i then maps[p](prev[p]) else prev[p]
      {
        current := current[i := maps[i](current[i])];
      }
      assert current == Advance(maps, prev);
      v := extract(current);
    }

    /** `get_next_chaos()`: the same as `next(self)`. */
    method GetNextChaos(extract: seq<S> -> V) returns (v: V)
      requires Valid()
      modifies this
      ensures maps == old(maps) && initial == old(initial) && Valid()
      ensures current == Advance(maps, old(current))
      ensures v == extract(current)
    {
      v := Next(extract);
    }

    /** `reset()`: the current states become a copy of the initial values. */
    method Reset()
      requires Valid()
      modifies this
      ensures maps == old(maps) && initial == old(initial) && Valid()
      ensures current == initial
    {
      current := initial;
    }

    /**
     * `get_reverse_iterator(length)`: unlike the generator of sequence.py it does not reset;
     * the sequence is computed from the initial values all the same, and nothing changes.
     */
    method GetReverseIterator(length: nat, extract: seq<S> -> V) returns (it: ValueStream<V>)
      requires Valid()
      ensures fresh(it) && it.pos == 0
      ensures it.values == Rev(Generated(maps, initial, extract, length))
    {
      var s := GetChaosSequence(length, extract);
      it := new ValueStream(Rev(s));
    }
  }

}
