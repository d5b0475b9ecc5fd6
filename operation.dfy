/**
 * The pixel operations of operation.py as methods on an image buffer and a value iterator.
 * The shuffles swap rows or columns of the caller's buffer in place and hand it back;
 * diffusion works on a flattened copy and returns a new buffer. Each method pulls exactly
 * `get_cost` values and leaves the buffer holding the value-level `Spec` of the call.
 */
module Operation {
  import opened Util
  import opened Tensor
  import opened Stream
  import opened OperationSpec

  /** `rgb[[x, y], :, d] = rgb[[y, x], :, d]` (the right-hand side is read before writing). */
  method SwapRowsInPlace(a: array3<Byte>, d: nat, x: nat, y: nat, ghost t: Image)
    requires d < a.Length2 && x < a.Length0 && y < a.Length0 && Holds(a, t)
    modifies a
    ensures Holds(a, SwapRows(t, ShapeOf(a), d, x, y))
  {
    for m := 0 to a.Length1
      invariant forall i, j, k :: 0 <= i < a.Length0 && 0 <= j < a.Length1 && 0 <= k < a.Length2 ==>
        a[i, j, k] == (if j < m && k == d && i == x then t[y][j][k]
                       else if j < m && k == d && i == y then t[x][j][k]
                       else t[i][j][k])
    {
      var p, q := a[y, m, d], a[x, m, d];
      a[x, m, d] := p;
      a[y, m, d] := q;
    }
    forall i, j, k | 0 <= i < a.Length0 && 0 <= j < a.Length1 && 0 <= k < a.Length2
      ensures a[i, j, k] == SwapRows(t, ShapeOf(a), d, x, y)[i][j][k]
    {
      SwapRowsAt(t, ShapeOf(a), d, x, y, i, j, k);
    }
  }

  /** `rgb[:, [x, y], d] = rgb[:, [y, x], d]`. */
  method SwapColumnsInPlace(a: array3<Byte>, d: nat, x: nat, y: nat, ghost t: Image)
    requires d < a.Length2 && x < a.Length1 && y < a.Length1 && Holds(a, t)
    modifies a
    ensures Holds(a, SwapColumns(t, ShapeOf(a), d, x, y))
  {
    for m := 0 to a.Length0
      invariant forall i, j, k :: 0 <= i < a.Length0 && 0 <= j < a.Length1 && 0 <= k < a.Length2 ==>
        a[i, j, k] == (if i < m && k == d && j == x then t[i][y][k]
                       else if i < m && k == d && j == y then t[i][x][k]
                       else t[i][j][k])
    {
      var p, q := a[m, y, d], a[m, x, d];
      a[m, x, d] := p;
      a[m, y, d] := q;
    }
    forall i, j, k | 0 <= i < a.Length0 && 0 <= j < a.Length1 && 0 <= k < a.Length2
      ensures a[i, j, k] == SwapColumns(t, ShapeOf(a), d, x, y)[i][j][k]
    {
      SwapColumnsAt(t, ShapeOf(a), d, x, y, i, j, k);
    }
  }

  /**
   * The shared loop of the two shuffle classes: `times` sweeps over the channels (descending
   * in reverse mode), each drawing two indices modulo the axis extent and swapping them.
   */
  method Shuffle<V>(axis: Axis, a: array3<Byte>, it: ValueStream<V>, times: nat, reverse: bool, disc: V -> int)
    requires times == 0 || a.Length2 == 0 || Extent(axis, ShapeOf(a)) > 0
    requires it.pos + 2 * a.Length2 * times <= |it.values|
    modifies a, it
    ensures it.pos == old(it.pos) + 2 * a.Length2 * times
    ensures ChannelsFit(axis, ShapeOf(a), Visit(a.Length2, times, reverse))
    ensures Contents(a) == SwapFold(axis, ShapeOf(a), old(Contents(a)), Visit(a.Length2, times, reverse), it.values[old(it.pos)..it.pos], disc)
  {
    ghost var t0 := Contents(a);
    ghost var lo := it.pos;
    var c := a.Length2;
    ghost var cs := Visit(c, times, reverse);
    VisitFits(axis, ShapeOf(a), times, reverse);
    ghost var hi := lo + 2 * |cs|;
    ghost var vs := it.values[lo..hi];
    ShuffleRunStart(axis, a, it, disc, t0, cs, vs, lo, hi);
    ghost var k := 0;
    for rep := 0 to times
      invariant k == c * rep && ShuffleRun(axis, a, it, disc, t0, cs, vs, lo, hi, k)
    {
      ShufflePass(axis, a, it, times, reverse, disc, t0, cs, vs, lo, hi, rep, k);
      MulSucc(c, rep);
      k := k + c;
    }
    assert k == |cs|;
    ShuffleRunDone(axis, a, it, disc, t0, cs, vs, lo, hi, k);
  }

  /**
   * The ghost state of a shuffle run over the visit list cs with the values vs, which the
   * stream holds from position lo to hi: k visits are done and the buffer holds their fold.
   */
  ghost predicate ShuffleRun<V>(axis: Axis, a: array3<Byte>, it: ValueStream<V>, disc: V -> int,
                                t0: Image, cs: seq<nat>, vs: seq<V>, lo: nat, hi: nat, k: nat)
    reads a, it
  {
    && Shaped(t0, ShapeOf(a)) && ChannelsFit(axis, ShapeOf(a), cs) && |vs| == 2 * |cs| && k <= |cs|
    && lo <= hi <= |it.values| && vs == it.values[lo..hi] && it.pos == lo + 2 * k
    && Holds(a, Stage(axis, ShapeOf(a), t0, cs, vs, k, disc))
  }

  lemma ShuffleRunStart<V>(axis: Axis, a: array3<Byte>, it: ValueStream<V>, disc: V -> int,
                           t0: Image, cs: seq<nat>, vs: seq<V>, lo: nat, hi: nat)
    requires t0 == Contents(a) && ChannelsFit(axis, ShapeOf(a), cs)
    requires it.pos == lo && hi == lo + 2 * |cs| && hi <= |it.values| && vs == it.values[lo..hi]
    ensures ShuffleRun(axis, a, it, disc, t0, cs, vs, lo, hi, 0)
  {
    HoldsContents(a, t0);
  }

  lemma ShuffleRunDone<V>(axis: Axis, a: array3<Byte>, it: ValueStream<V>, disc: V -> int,
                          t0: Image, cs: seq<nat>, vs: seq<V>, lo: nat, hi: nat, k: nat)
    requires ShuffleRun(axis, a, it, disc, t0, cs, vs, lo, hi, k) && k == |cs|
    ensures it.pos == hi && Contents(a) == SwapFold(axis, ShapeOf(a), t0, cs, vs, disc)
  {
    StageIsFold(axis, ShapeOf(a), t0, cs, vs, k, disc);
    assert cs[..k] == cs && vs[..2 * k] == vs;
    HoldsContents(a, SwapFold(axis, ShapeOf(a), t0, cs, vs, disc));
  }

  /** Sweep number rep of a run: `for dim in range(c)` (or reversed), one tracked step each. */
  method ShufflePass<V>(axis: Axis, a: array3<Byte>, it: ValueStream<V>, times: nat, reverse: bool, disc: V -> int,
                        ghost t0: Image, ghost cs: seq<nat>, ghost vs: seq<V>, ghost lo: nat, ghost hi: nat, ghost rep: nat, ghost k0: nat)
    requires cs == Visit(a.Length2, times, reverse) && rep < times && k0 == a.Length2 * rep
    requires ShuffleRun(axis, a, it, disc, t0, cs, vs, lo, hi, k0)
    modifies a, it
    ensures ShuffleRun(axis, a, it, disc, t0, cs, vs, lo, hi, k0 + a.Length2)
  {
    var c := a.Length2;
    SweepFits(c, rep, times);
    ghost var k := k0;
    var j := 0;
    while j < c
      invariant j <= c && k == k0 + j && ShuffleRun(axis, a, it, disc, t0, cs, vs, lo, hi, k)
    {
      var dim: nat := if reverse then c - 1 - j else j;
      VisitAt(c, times, reverse, rep, j);
      assert k == c * rep + j;
      TrackedShuffleStep(axis, a, it, dim, disc, t0, cs, vs, lo, hi, k);
      k, j := k + 1, j + 1;
    }
    assert k == k0 + c;
  }

  /** A shuffle step that continues a run: one more visit is done. */
  method TrackedShuffleStep<V>(axis: Axis, a: array3<Byte>, it: ValueStream<V>, dim: nat, disc: V -> int,
                               ghost t0: Image, ghost cs: seq<nat>, ghost vs: seq<V>, ghost lo: nat, ghost hi: nat, ghost k: nat)
    requires ShuffleRun(axis, a, it, disc, t0, cs, vs, lo, hi, k) && k < |cs| && cs[k] == dim
    modifies a, it
    ensures ShuffleRun(axis, a, it, disc, t0, cs, vs, lo, hi, k + 1)
  {
    SlicePair(it.values, lo, hi, 2 * k, it.pos);
    ghost var v1, v2 := vs[2 * k], vs[2 * k + 1];
    ShuffleStep(axis, a, it, dim, disc, Stage(axis, ShapeOf(a), t0, cs, vs, k, disc), v1, v2);
  }

  /** One step of a sweep: two draws, each reduced modulo the axis extent, and one swap. */
  method ShuffleStep<V>(axis: Axis, a: array3<Byte>, it: ValueStream<V>, dim: nat, disc: V -> int, ghost t: Image, ghost v1: V, ghost v2: V)
    requires dim < a.Length2 && Extent(axis, ShapeOf(a)) > 0 && Holds(a, t)
    requires it.pos + 2 <= |it.values| && it.values[it.pos] == v1 && it.values[it.pos + 1] == v2
    modifies a, it
    ensures it.pos == old(it.pos) + 2
    ensures Holds(a, Swap(axis, t, ShapeOf(a), dim, DrawIndex(disc, v1, Extent(axis, ShapeOf(a))), DrawIndex(disc, v2, Extent(axis, ShapeOf(a)))))
  {
    var n := if axis == Rows then a.Length0 else a.Length1;
    var w1 := it.Next();
    var x1 := disc(w1) % n;
    var w2 := it.Next();
    var x2 := disc(w2) % n;
    if axis == Rows {
      SwapRowsInPlace(a, dim, x1, x2, t);
    } else {
      SwapColumnsInPlace(a, dim, x1, x2, t);
    }
  }

  lemma SweepFits(c: nat, rep: nat, times: nat)
    requires rep < times
    ensures c * rep + c <= c * times
  {
    MulSucc(c, rep);
    assert c * (rep + 1) <= c * times;
  }

  lemma MulSucc(c: nat, rep: nat)
    ensures c * rep + c == c * (rep + 1)
  {
  }

  /** `flt = rgb.flatten()`: a fresh one-dimensional copy of the buffer in C order. */
  method FlattenBuffer(a: array3<Byte>) returns (f: array<Byte>)
    ensures fresh(f)
    ensures f[..] == Flatten(Contents(a))
  {
    var sh := ShapeOf(a);
    var n := a.Length0 * a.Length1 * a.Length2;
    f := new Byte[n](p requires 0 <= p < n reads a => var d := Digits(sh, p); a[d.0, d.1, d.2]);
    FlattenSize(Contents(a), sh);
    forall p | 0 <= p < n
      ensures f[p] == Flatten(Contents(a))[p]
    {
      var d := Digits(sh, p);
      FlattenAt(Contents(a), sh, d.0, d.1, d.2);
    }
  }

  /** `flt.reshape(rgb.shape)`: a fresh buffer of shape sh holding the stream in C order. */
  method ReshapeBuffer(f: array<Byte>, sh: Shape) returns (r: array3<Byte>)
    requires f.Length == Size(sh)
    ensures fresh(r) && ShapeOf(r) == sh
    ensures Contents(r) == Reshape(f[..], sh)
  {
    r := new Byte[sh.h, sh.w, sh.c]((i, j, k) requires 0 <= i < sh.h && 0 <= j < sh.w && 0 <= k < sh.c reads f =>
      IndexFits(sh, i, j, k); f[Offset(sh, i, j, k)]);
    forall i, j, k | 0 <= i < sh.h && 0 <= j < sh.w && 0 <= k < sh.c
      ensures Contents(r)[i][j][k] == Reshape(f[..], sh)[i][j][k]
    {
      ReshapeAt(f[..], sh, i, j, k);
    }
    ImageExt(Contents(r), Reshape(f[..], sh), sh);
  }

  /** The loop state of the diffusion: the first k steps along ps are done, pulling vs[..k]. */
  ghost predicate DiffRun<V>(f: array<Byte>, it: ValueStream<V>, disc: V -> int, reverse: bool,
                             f0: seq<Byte>, ps: seq<nat>, vs: seq<V>, lo: nat, hi: nat, k: nat)
    reads f, it
  {
    && |f0| == f.Length && PositionsFit(f0, ps) && |vs| == |ps| && k <= |ps|
    && lo <= hi <= |it.values| && vs == it.values[lo..hi] && it.pos == lo + k
    && f[..] == DiffStage(f0, ps, vs, k, reverse, disc)
  }

  /**
   * The loops of `DiffusionOperation.__call__` on the flattened stream: `times` passes,
   * each over `range(len(flt))`, or over it backwards in reverse mode.
   */
  method DiffusePasses<V>(f: array<Byte>, it: ValueStream<V>, times: nat, reverse: bool, disc: V -> int)
    requires it.pos + f.Length * times <= |it.values|
    modifies f, it
    ensures it.pos == old(it.pos) + f.Length * times
    ensures PositionsFit(old(f[..]), Visit(f.Length, times, reverse))
    ensures f[..] == DiffFold(old(f[..]), Visit(f.Length, times, reverse), it.values[old(it.pos)..it.pos], reverse, disc)
  {
    ghost var f0 := f[..];
    ghost var lo := it.pos;
    var n := f.Length;
    ghost var ps := Visit(n, times, reverse);
    ghost var hi := lo + |ps|;
    ghost var vs := it.values[lo..hi];
    ghost var k := 0;
    for rep := 0 to times
      invariant k == n * rep && DiffRun(f, it, disc, reverse, f0, ps, vs, lo, hi, k)
    {
      DiffusionPass(f, it, times, reverse, disc, f0, ps, vs, lo, hi, rep, k);
      MulSucc(n, rep);
      k := k + n;
    }
    assert k == |ps|;
    DiffStageIsFold(f0, ps, vs, k, reverse, disc);
    assert ps[..k] == ps && vs[..k] == vs;
  }

  /** One pass over the stream, forwards or backwards, as pass number rep of `times`. */
  method DiffusionPass<V>(f: array<Byte>, it: ValueStream<V>, times: nat, reverse: bool, disc: V -> int,
                          ghost f0: seq<Byte>, ghost ps: seq<nat>, ghost vs: seq<V>, ghost lo: nat, ghost hi: nat,
                          ghost rep: nat, ghost k0: nat)
    requires ps == Visit(f.Length, times, reverse) && rep < times && k0 == f.Length * rep
    requires DiffRun(f, it, disc, reverse, f0, ps, vs, lo, hi, k0)
    modifies f, it
    ensures DiffRun(f, it, disc, reverse, f0, ps, vs, lo, hi, k0 + f.Length)
  {
    var n := f.Length;
    SweepFits(n, rep, times);
    ghost var k := k0;
    if !reverse {
      for i := 0 to n
        invariant k == k0 + i && DiffRun(f, it, disc, reverse, f0, ps, vs, lo, hi, k)
      {
        VisitAt(n, times, reverse, rep, i);
        assert k == n * rep + i;
        TrackedDiffuseStep(f, it, i, reverse, disc, f0, ps, vs, lo, hi, k);
        k := k + 1;
      }
    } else {
      for i := n downto 0
        invariant k == k0 + (n - 1 - i) + 1 && DiffRun(f, it, disc, reverse, f0, ps, vs, lo, hi, k)
      {
        VisitAt(n, times, reverse, rep, n - 1 - i);
        assert k == n * rep + (n - 1 - i);
        TrackedDiffuseStep(f, it, i, reverse, disc, f0, ps, vs, lo, hi, k);
        k := k + 1;
      }
    }
    assert k == k0 + n;
  }

  /** Step k of the run: its position is ps[k] and its value the one under the cursor. */
  method TrackedDiffuseStep<V>(f: array<Byte>, it: ValueStream<V>, i: nat, reverse: bool, disc: V -> int,
                               ghost f0: seq<Byte>, ghost ps: seq<nat>, ghost vs: seq<V>, ghost lo: nat, ghost hi: nat,
                               ghost k: nat)
    requires DiffRun(f, it, disc, reverse, f0, ps, vs, lo, hi, k) && k < |ps| && ps[k] == i
    modifies f, it
    ensures DiffRun(f, it, disc, reverse, f0, ps, vs, lo, hi, k + 1)
  {
    SliceAt(it.values, lo, hi, k, it.pos);
    ghost var v := vs[k];
    DiffuseStep(f, it, i, reverse, disc, DiffStage(f0, ps, vs, k, reverse, disc), v);
  }

  /** The loop body: one value pulled and one sample updated from its left neighbour. */
  method DiffuseStep<V>(f: array<Byte>, it: ValueStream<V>, i: nat, reverse: bool, disc: V -> int, ghost g: seq<Byte>, ghost v: V)
    requires i < f.Length && f[..] == g && it.pos < |it.values| && it.values[it.pos] == v
    modifies f, it
    ensures it.pos == old(it.pos) + 1
    ensures f[..] == DiffStep(g, i, disc(v), reverse)
  {
    var w := it.Next();
    var d := disc(w);
    if !reverse {
      if i == 0 {
        f[i] := (f[i] + d) % 256;
      } else {
        f[i] := (f[i - 1] as int + f[i] + d) % 256;
      }
    } else {
      if i == 0 {
        f[i] := (f[i] - d) % 256;
      } else {
        f[i] := (f[i] as int - f[i - 1] - d) % 256;
      }
    }
  }

  /** `DiffusionOperation.__call__`: returns a new buffer; the caller's buffer is untouched. */
  method Diffusion<V>(a: array3<Byte>, it: ValueStream<V>, times: nat, reverse: bool, disc: V -> int) returns (r: array3<Byte>)
    requires it.pos + Cost(OperationSpec.Diffusion(times), ShapeOf(a)) <= |it.values|
    modifies it
    ensures fresh(r) && ShapeOf(r) == ShapeOf(a)
    ensures it.pos == old(it.pos) + Cost(OperationSpec.Diffusion(times), ShapeOf(a))
    ensures Contents(r) == Spec(OperationSpec.Diffusion(times), ShapeOf(a), Contents(a), it.values[old(it.pos)..it.pos], reverse, disc)
  {
    var f := FlattenBuffer(a);
    FlattenSize(Contents(a), ShapeOf(a));
    DiffusePasses(f, it, times, reverse, disc);
    r := ReshapeBuffer(f, ShapeOf(a));
  }

  /** `RowShuffleOperation.__call__`: returns the caller's buffer, shuffled in place. */
  method RowShuffle<V>(a: array3<Byte>, it: ValueStream<V>, times: nat, reverse: bool, disc: V -> int) returns (r: array3<Byte>)
    requires Runnable(OperationSpec.RowShuffle(times), ShapeOf(a))
    requires it.pos + Cost(OperationSpec.RowShuffle(times), ShapeOf(a)) <= |it.values|
    modifies a, it
    ensures r == a
    ensures it.pos == old(it.pos) + Cost(OperationSpec.RowShuffle(times), ShapeOf(a))
    ensures Contents(a) == Spec(OperationSpec.RowShuffle(times), ShapeOf(a), old(Contents(a)), it.values[old(it.pos)..it.pos], reverse, disc)
  {
    Shuffle(Rows, a, it, times, reverse, disc);
    r := a;
  }

  /** `ColumnShuffleOperation.__call__`. */
  method ColumnShuffle<V>(a: array3<Byte>, it: ValueStream<V>, times: nat, reverse: bool, disc: V -> int) returns (r: array3<Byte>)
    requires Runnable(OperationSpec.ColumnShuffle(times), ShapeOf(a))
    requires it.pos + Cost(OperationSpec.ColumnShuffle(times), ShapeOf(a)) <= |it.values|
    modifies a, it
    ensures r == a
    ensures it.pos == old(it.pos) + Cost(OperationSpec.ColumnShuffle(times), ShapeOf(a))
    ensures Contents(a) == Spec(OperationSpec.ColumnShuffle(times), ShapeOf(a), old(Contents(a)), it.values[old(it.pos)..it.pos], reverse, disc)
  {
    Shuffle(Columns, a, it, times, reverse, disc);
    r := a;
  }
  /** `op(rgb, it, reverse)` for any operation: the buffer handed back holds `Spec`. */
  method Apply<V>(op: Op, a: array3<Byte>, it: ValueStream<V>, reverse: bool, disc: V -> int) returns (r: array3<Byte>)
    requires Runnable(op, ShapeOf(a)) && it.pos + Cost(op, ShapeOf(a)) <= |it.values|
    modifies a, it
    ensures if Copies(op) then fresh(r) else r == a
    ensures ShapeOf(r) == ShapeOf(a)
    ensures it.pos == old(it.pos) + Cost(op, ShapeOf(a))
    ensures Contents(r) == Spec(op, ShapeOf(a), old(Contents(a)), it.values[old(it.pos)..it.pos], reverse, disc)
    ensures op.RowShuffle? || op.ColumnShuffle? ==> r == a
    ensures op.Diffusion? ==> fresh(r) && unchanged(a)
    decreases op, 0
  {
    match op
    case RowShuffle(times) =>
      r := RowShuffle(a, it, times, reverse, disc);
    case ColumnShuffle(times) =>
      r := ColumnShuffle(a, it, times, reverse, disc);
    case Diffusion(times) =>
      r := Diffusion(a, it, times, reverse, disc);
    case Compositional(ops, times) =>
      r := Compositional(ops, times, a, it, reverse, disc);
  }

  /** `CompositionalChaosOperation.__call__`: `times` runs of the chain of its operations. */
  method Compositional<V>(ops: seq<Op>, times: nat, a: array3<Byte>, it: ValueStream<V>, reverse: bool, disc: V -> int)
    returns (r: array3<Byte>)
    requires Runnable(OperationSpec.Compositional(ops, times), ShapeOf(a))
    requires it.pos + Cost(OperationSpec.Compositional(ops, times), ShapeOf(a)) <= |it.values|
    modifies a, it
    ensures if Copies(OperationSpec.Compositional(ops, times)) then fresh(r) else r == a
    ensures ShapeOf(r) == ShapeOf(a)
    ensures it.pos == old(it.pos) + Cost(OperationSpec.Compositional(ops, times), ShapeOf(a))
    ensures Contents(r) == Spec(OperationSpec.Compositional(ops, times), ShapeOf(a), old(Contents(a)), it.values[old(it.pos)..it.pos], reverse, disc)
    decreases ops, 2
  {
    ghost var sh := ShapeOf(a);
    ghost var t0 := Contents(a);
    ghost var lo := it.pos;
    ghost var n := CostSum(ops, sh);
    assert times == 0 || AllRunnable(ops, sh);
    assert lo + n * times <= |it.values|;
    r := a;
    for rep := 0 to times
      invariant if rep > 0 && AnyCopies(ops) then fresh(r) else r == a
      invariant ShapeOf(r) == sh
      invariant n * rep <= n * times
      invariant it.pos == lo + n * rep
      invariant Contents(r) == Repeat(ops, sh, t0, it.values[lo..it.pos], rep, reverse, disc)
    {
      ghost var mid := it.pos;
      MulSucc(n, rep);
      SweepFits(n, rep, times);
      r := RunChain(ops, r, it, reverse, disc);
      RepeatSnoc(ops, sh, t0, it.values[lo..mid], it.values[mid..it.pos], rep, reverse, disc);
      SliceSplit(it.values, lo, mid, it.pos);
    }
  }

  /** One repetition: `for op in op_list` (or `reversed(op_list)`): `rgb = op(rgb, it, reverse)`. */
  method RunChain<V>(ops: seq<Op>, a: array3<Byte>, it: ValueStream<V>, reverse: bool, disc: V -> int) returns (r: array3<Byte>)
    requires AllRunnable(ops, ShapeOf(a)) && it.pos + CostSum(ops, ShapeOf(a)) <= |it.values|
    modifies a, it
    ensures if AnyCopies(ops) then fresh(r) else r == a
    ensures ShapeOf(r) == ShapeOf(a)
    ensures it.pos == old(it.pos) + CostSum(ops, ShapeOf(a))
    ensures Contents(r) == Chain(ops, ShapeOf(a), old(Contents(a)), it.values[old(it.pos)..it.pos], reverse, disc)
    decreases ops, 1
  {
    if !reverse {
      r := RunForward(ops, a, it, disc);
    } else {
      r := RunBackward(ops, a, it, disc);
    }
  }

  /** `for op in op_list: rgb = op(rgb, it, False)`. */
  method RunForward<V>(ops: seq<Op>, a: array3<Byte>, it: ValueStream<V>, disc: V -> int) returns (r: array3<Byte>)
    requires AllRunnable(ops, ShapeOf(a)) && it.pos + CostSum(ops, ShapeOf(a)) <= |it.values|
    modifies a, it
    ensures if AnyCopies(ops) then fresh(r) else r == a
    ensures ShapeOf(r) == ShapeOf(a)
    ensures it.pos == old(it.pos) + CostSum(ops, ShapeOf(a))
    ensures Contents(r) == ChainForward(ops, ShapeOf(a), old(Contents(a)), it.values[old(it.pos)..it.pos], disc)
    decreases ops, 0
  {
    ghost var sh := ShapeOf(a);
    ghost var t0 := Contents(a);
    ghost var lo := it.pos;
    r := a;
    assert ops[..0] == [];
    for j := 0 to |ops|
      invariant if AnyCopies(ops[..j]) then fresh(r) else r == a
      invariant ShapeOf(r) == sh
      invariant CostSum(ops[..j], sh) <= CostSum(ops, sh)
      invariant it.pos == lo + CostSum(ops[..j], sh)
      invariant Contents(r) == ChainForward(ops[..j], sh, t0, it.values[lo..it.pos], disc)
    {
      ghost var mid := it.pos;
      CostSplit(ops, j, sh);
      r := Apply(ops[j], r, it, false, disc);
      AnyCopiesPrefix(ops, j);
      ChainForwardSnoc(ops[..j], ops[j], sh, t0, it.values[lo..mid], it.values[mid..it.pos], disc);
      PrefixSnoc(ops, j);
      SliceSplit(it.values, lo, mid, it.pos);
    }
    assert ops[..|ops|] == ops;
  }

  /** `for op in reversed(op_list): rgb = op(rgb, it, True)`. */
  method RunBackward<V>(ops: seq<Op>, a: array3<Byte>, it: ValueStream<V>, disc: V -> int) returns (r: array3<Byte>)
    requires AllRunnable(ops, ShapeOf(a)) && it.pos + CostSum(ops, ShapeOf(a)) <= |it.values|
    modifies a, it
    ensures if AnyCopies(ops) then fresh(r) else r == a
    ensures ShapeOf(r) == ShapeOf(a)
    ensures it.pos == old(it.pos) + CostSum(ops, ShapeOf(a))
    ensures Contents(r) == ChainBackward(ops, ShapeOf(a), old(Contents(a)), it.values[old(it.pos)..it.pos], disc)
    decreases ops, 0
  {
    ghost var sh := ShapeOf(a);
    ghost var t0 := Contents(a);
    ghost var lo := it.pos;
    r := a;
    assert ops[|ops|..] == [];
    for j := |ops| downto 0
      invariant if AnyCopies(ops[j..]) then fresh(r) else r == a
      invariant ShapeOf(r) == sh
      invariant CostSum(ops[j..], sh) <= CostSum(ops, sh)
      invariant it.pos == lo + CostSum(ops[j..], sh)
      invariant Contents(r) == ChainBackward(ops[j..], sh, t0, it.values[lo..it.pos], disc)
    {
      ghost var mid := it.pos;
      CostSplit(ops, j, sh);
      r := Apply(ops[j], r, it, true, disc);
      AnyCopiesSuffix(ops, j);
      SliceSplit(it.values, lo, mid, it.pos);
      ChainBackwardCons(ops, j, sh, t0, it.values[lo..it.pos], it.values[lo..mid], it.values[mid..it.pos], disc);
    }
    assert ops[0..] == ops;
  }

  /** `get_cost(rgb)`, with the compositional sum accumulated as `cnt` in a loop. */
  method GetCost(op: Op, a: array3<Byte>) returns (cost: nat)
    ensures cost == Cost(op, ShapeOf(a))
    decreases op, 0
  {
    match op
    case RowShuffle(times) =>
      cost := 2 * a.Length2 * times;
    case ColumnShuffle(times) =>
      cost := 2 * a.Length2 * times;
    case Diffusion(times) =>
      cost := a.Length0 * a.Length1 * a.Length2 * times;
    case Compositional(ops, times) =>
      var cnt := 0;
      for j := 0 to |ops|
        invariant cnt == CostSum(ops[..j], ShapeOf(a))
      {
        var c := GetCost(ops[j], a);
        CostSplit(ops, j, ShapeOf(a));
        PrefixSnoc(ops, j);
        cnt := cnt + c;
      }
      assert ops[..|ops|] == ops;
      cost := cnt * times;
  }
}
