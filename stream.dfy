/**
 * The value iterator handed to every operation (`it` in `op(rgb, it, reverse)`): a fixed
 * sequence of generator values and a cursor. `next(it)` returns the value under the cursor
 * and advances it; the reverse iterator of a sequence generator is one of these over the
 * reversed list.
 */
module Stream {

  class ValueStream<V> {
    const values: seq<V>
    var pos: nat

    constructor (values: seq<V>)
      ensures this.values == values && pos == 0
    {
      this.values := values;
      pos := 0;
    }

    /** `next(it)`. */
    method Next() returns (v: V)
      requires pos < |values|
      modifies this
      ensures pos == old(pos) + 1
      ensures v == values[old(pos)]
    {
      v := values[pos];
      pos := pos + 1;
    }
  }
}
