/**
 * Value-level meaning of the sequence-driven pixel operations of operation.py.
 *
 * Every operation is a fold of single steps over a visit list. A shuffle step swaps two
 * rows (or columns) of one channel, with the two indices drawn from two consecutive
 * generator values. A diffusion step rewrites one flattened sample from its predecessor
 * and one generator value. In reverse mode the visit list is the forward list reversed,
 * and the step is undone. That is why the forward pass followed by the reverse pass over
 * the reversed values restores the image.
 */
module OperationSpec {
  import opened Util
  import opened Tensor

  /** The operation classes of operation.py, with their `times` (and `op_list`). */
  datatype Op =
    | RowShuffle(times: nat)
    | ColumnShuffle(times: nat)
    | Diffusion(times: nat)
    | Compositional(ops: seq<Op>, times: nat)

  datatype Axis = Rows | Columns

  /** `op.get_cost(rgb)`: the number of values a call pulls from its iterator. */
  function Cost(op: Op, sh: Shape): nat
    decreases op
  {
    match op
    case RowShuffle(times) => 2 * sh.c * times
    case ColumnShuffle(times) => 2 * sh.c * times
    case Diffusion(times) => Size(sh) * times
    case Compositional(ops, times) => CostSum(ops, sh) * times
  }

  /** The `cnt` that `CompositionalChaosOperation.get_cost` accumulates over `op_list`. */
  function CostSum(ops: seq<Op>, sh: Shape): nat
    decreases ops
  {
    if ops == [] then 0 else Cost(ops[0], sh) + CostSum(ops[1..], sh)
  }

  lemma {:induction false} CostSumAppend(a: seq<Op>, b: seq<Op>, sh: Shape)
    ensures CostSum(a + b, sh) == CostSum(a, sh) + CostSum(b, sh)
  {
    if a != [] {
      assert (a + b)[1..] == a[1..] + b;
      CostSumAppend(a[1..], b, sh);
    } else {
      assert a + b == b;
    }
  }

  /**
   * A call can run without dividing by zero: a shuffle reduces its draws modulo the
   * extent of its axis, which Python rejects when that extent is 0.
   */
  predicate Runnable(op: Op, sh: Shape)
    decreases op
  {
    match op
    case RowShuffle(times) => times == 0 || sh.c == 0 || sh.h > 0
    case ColumnShuffle(times) => times == 0 || sh.c == 0 || sh.w > 0
    case Diffusion(_) => true
    case Compositional(ops, times) => times == 0 || AllRunnable(ops, sh)
  }

  predicate AllRunnable(ops: seq<Op>, sh: Shape)
    decreases ops
  {
    forall i :: 0 <= i < |ops| ==> Runnable(ops[i], sh)
  }

  /**
   * Whether a call hands back a new buffer instead of the caller's: a diffusion always does
   * (`flt.reshape(shape)` of a flattened copy), a shuffle never does, and a compositional
   * operation does once one of its repetitions runs an operation that does.
   */
  predicate Copies(op: Op)
    decreases op
  {
    match op
    case RowShuffle(_) => false
    case ColumnShuffle(_) => false
    case Diffusion(_) => true
    case Compositional(ops, times) => times > 0 && AnyCopies(ops)
  }

  predicate AnyCopies(ops: seq<Op>)
    decreases ops
  {
    exists i :: 0 <= i < |ops| && Copies(ops[i])
  }

  /** Growing a chain at the end: it copies when its prefix does or the new operation does. */
  lemma AnyCopiesPrefix(ops: seq<Op>, j: nat)
    requires j < |ops|
    ensures AnyCopies(ops[..j + 1]) <==> AnyCopies(ops[..j]) || Copies(ops[j])
  {
    var p, q := ops[..j + 1], ops[..j];
    if AnyCopies(p) {
      var i :| 0 <= i < |p| && Copies(p[i]);
      if i < j {
        assert q[i] == p[i];
      }
    }
    if AnyCopies(q) {
      var i :| 0 <= i < |q| && Copies(q[i]);
      assert p[i] == q[i];
    }
    if Copies(ops[j]) {
      assert p[j] == ops[j];
    }
  }

  /** Growing a chain at the front, as the reverse-mode loop does. */
  lemma AnyCopiesSuffix(ops: seq<Op>, j: nat)
    requires j < |ops|
    ensures AnyCopies(ops[j..]) <==> Copies(ops[j]) || AnyCopies(ops[j + 1..])
  {
    var p, q := ops[j..], ops[j + 1..];
    if AnyCopies(p) {
      var i :| 0 <= i < |p| && Copies(p[i]);
      if i > 0 {
        assert q[i - 1] == p[i];
      }
    }
    if AnyCopies(q) {
      var i :| 0 <= i < |q| && Copies(q[i]);
      assert p[i + 1] == q[i];
    }
    if Copies(ops[j]) {
      assert p[0] == ops[j];
    }
  }

  /** `range(n)`, or `reversed(range(n))` in reverse mode. */
  function Sweep(n: nat, reverse: bool): (r: seq<nat>)
    ensures |r| == n
    ensures forall i :: 0 <= i < n ==> r[i] < n
  {
    seq(n, i requires 0 <= i < n => if reverse then n - 1 - i else i)
  }

  /** The indices an operation with `times` repetitions visits, in visiting order. */
  function Visit(n: nat, times: nat, reverse: bool): (r: seq<nat>)
    ensures |r| == n * times
    ensures forall i :: 0 <= i < |r| ==> r[i] < n
  {
    if times == 0 then [] else Visit(n, times - 1, reverse) + Sweep(n, reverse)
  }

  lemma SweepReverse(n: nat)
    ensures Rev(Sweep(n, false)) == Sweep(n, true)
  {
  }

  lemma {:induction false} VisitCommute(n: nat, times: nat, reverse: bool)
    ensures Visit(n, times, reverse) + Sweep(n, reverse) == Sweep(n, reverse) + Visit(n, times, reverse)
  {
    if times > 0 {
      VisitCommute(n, times - 1, reverse);
      var v, s := Visit(n, times - 1, reverse), Sweep(n, reverse);
      calc {
        (v + s) + s;
        (s + v) + s;
        s + (v + s);
      }
    }
  }

  /** The reverse pass visits the indices of the forward pass in exactly the opposite order. */
  lemma {:induction false} VisitReverse(n: nat, times: nat)
    ensures Rev(Visit(n, times, false)) == Visit(n, times, true)
  {
    if times > 0 {
      VisitReverse(n, times - 1);
      RevAppend(Visit(n, times - 1, false), Sweep(n, false));
      SweepReverse(n);
      VisitCommute(n, times - 1, true);
    }
  }

  /** Visit number `n * rep + j` is step j of sweep number rep. */
  lemma {:induction false} VisitAt(n: nat, times: nat, reverse: bool, rep: nat, j: nat)
    requires rep < times && j < n
    ensures n * rep + j < |Visit(n, times, reverse)|
    ensures Visit(n, times, reverse)[n * rep + j] == if reverse then n - 1 - j else j
    decreases times
  {
    var prev := Visit(n, times - 1, reverse);
    assert |prev| == n * (times - 1) == n * times - n;
    if rep < times - 1 {
      VisitAt(n, times - 1, reverse, rep, j);
    } else {
      assert n * rep == |prev|;
    }
  }

  /** Rows are shuffled along the height, columns along the width. */
  function Extent(axis: Axis, sh: Shape): nat
  {
    if axis == Rows then sh.h else sh.w
  }

  /** `utils.discrete(next(it)) % rgb.shape[...]`: a drawn index is always in range. */
  function DrawIndex<V>(disc: V -> int, v: V, n: nat): (x: nat)
    requires n > 0
    ensures x < n
  {
    disc(v) % n
  }

  function Swap(axis: Axis, t: Image, sh: Shape, d: nat, x: nat, y: nat): (r: Image)
    requires Shaped(t, sh) && d < sh.c && x < Extent(axis, sh) && y < Extent(axis, sh)
    ensures Shaped(r, sh)
  {
    match axis
    case Rows => SwapRows(t, sh, d, x, y)
    case Columns => SwapColumns(t, sh, d, x, y)
  }

  /** A channel visit list a shuffle can follow. */
  predicate ChannelsFit(axis: Axis, sh: Shape, chans: seq<nat>)
  {
    && (forall i :: 0 <= i < |chans| ==> chans[i] < sh.c)
    && (chans != [] ==> Extent(axis, sh) > 0)
  }

  /** A runnable shuffle visits channels it can swap in; it pulls two values per visit. */
  lemma VisitFits(axis: Axis, sh: Shape, times: nat, reverse: bool)
    requires times == 0 || sh.c == 0 || Extent(axis, sh) > 0
    ensures ChannelsFit(axis, sh, Visit(sh.c, times, reverse))
    ensures 2 * sh.c * times == 2 * |Visit(sh.c, times, reverse)|
  {
    if sh.c * times != 0 {
      assert sh.c != 0 && times != 0;
    }
  }

  /**
   * The shuffle loop: for each visited channel, draw two indices from the next two values
   * and swap those two rows (or columns) of that channel.
   */
  function SwapFold<V>(axis: Axis, sh: Shape, t: Image, chans: seq<nat>, vals: seq<V>, disc: V -> int): (r: Image)
    requires Shaped(t, sh) && ChannelsFit(axis, sh, chans) && |vals| == 2 * |chans|
    ensures Shaped(r, sh)
    decreases |chans|
  {
    if chans == [] then t
    else
      var n := Extent(axis, sh);
      var x1 := DrawIndex(disc, vals[0], n);
      var x2 := DrawIndex(disc, vals[1], n);
      SwapFold(axis, sh, Swap(axis, t, sh, chans[0], x1, x2), chans[1..], vals[2..], disc)
  }

  lemma {:induction false} SwapFoldAppend<V>(axis: Axis, sh: Shape, t: Image, c1: seq<nat>, c2: seq<nat>, v1: seq<V>, v2: seq<V>, disc: V -> int)
    requires Shaped(t, sh) && ChannelsFit(axis, sh, c1) && ChannelsFit(axis, sh, c2)
    requires |v1| == 2 * |c1| && |v2| == 2 * |c2|
    ensures ChannelsFit(axis, sh, c1 + c2)
    ensures SwapFold(axis, sh, t, c1 + c2, v1 + v2, disc) == SwapFold(axis, sh, SwapFold(axis, sh, t, c1, v1, disc), c2, v2, disc)
    decreases |c1|
  {
    if c1 != [] {
      var n := Extent(axis, sh);
      var t' := Swap(axis, t, sh, c1[0], DrawIndex(disc, v1[0], n), DrawIndex(disc, v1[1], n));
      assert (c1 + c2)[1..] == c1[1..] + c2;
      assert (v1 + v2)[2..] == v1[2..] + v2;
      SwapFoldAppend(axis, sh, t', c1[1..], c2, v1[2..], v2, disc);
    } else {
      assert c1 + c2 == c2 && v1 + v2 == v2;
    }
  }

  lemma SwapUndo(axis: Axis, t: Image, sh: Shape, d: nat, x: nat, y: nat)
    requires Shaped(t, sh) && d < sh.c && x < Extent(axis, sh) && y < Extent(axis, sh)
    ensures Swap(axis, Swap(axis, t, sh, d, x, y), sh, d, y, x) == t
  {
    match axis {
      case Rows => SwapRowsUndo(t, sh, d, x, y);
      case Columns => SwapColumnsUndo(t, sh, d, x, y);
    }
  }

  lemma SwapFoldSingle<V>(axis: Axis, sh: Shape, t: Image, d: nat, a: V, b: V, disc: V -> int)
    requires Shaped(t, sh) && d < sh.c && Extent(axis, sh) > 0
    ensures ChannelsFit(axis, sh, [d])
    ensures SwapFold(axis, sh, t, [d], [a, b], disc)
         == Swap(axis, t, sh, d, DrawIndex(disc, a, Extent(axis, sh)), DrawIndex(disc, b, Extent(axis, sh)))
  {
    assert [d][1..] == [] && [a, b][2..] == [];
  }

  /** One more shuffle step at the end of a run. */
  lemma SwapFoldSnoc<V>(axis: Axis, sh: Shape, t: Image, chans: seq<nat>, d: nat, vals: seq<V>, a: V, b: V, disc: V -> int)
    requires Shaped(t, sh) && ChannelsFit(axis, sh, chans) && |vals| == 2 * |chans|
    requires d < sh.c && Extent(axis, sh) > 0
    ensures ChannelsFit(axis, sh, chans + [d])
    ensures SwapFold(axis, sh, t, chans + [d], vals + [a, b], disc)
         == Swap(axis, SwapFold(axis, sh, t, chans, vals, disc), sh, d, DrawIndex(disc, a, Extent(axis, sh)), DrawIndex(disc, b, Extent(axis, sh)))
  {
    var y := SwapFold(axis, sh, t, chans, vals, disc);
    SwapFoldSingle(axis, sh, y, d, a, b, disc);
    SwapFoldAppend(axis, sh, t, chans, [d], vals, [a, b], disc);
  }

  /** The fold over the first k + 1 visits grows from the fold over the first k by one swap. */
  lemma SwapFoldPrefix<V>(axis: Axis, sh: Shape, t: Image, cs: seq<nat>, vs: seq<V>, k: nat, disc: V -> int)
    requires Shaped(t, sh) && ChannelsFit(axis, sh, cs) && |vs| == 2 * |cs| && k < |cs|
    ensures ChannelsFit(axis, sh, cs[..k]) && ChannelsFit(axis, sh, cs[..k + 1])
    ensures SwapFold(axis, sh, t, cs[..k + 1], vs[..2 * (k + 1)], disc)
         == Swap(axis, SwapFold(axis, sh, t, cs[..k], vs[..2 * k], disc), sh, cs[k],
                 DrawIndex(disc, vs[2 * k], Extent(axis, sh)), DrawIndex(disc, vs[2 * k + 1], Extent(axis, sh)))
  {
    PrefixSnoc(cs, k);
    assert vs[..2 * (k + 1)] == vs[..2 * k] + [vs[2 * k], vs[2 * k + 1]];
    SwapFoldSnoc(axis, sh, t, cs[..k], cs[k], vs[..2 * k], vs[2 * k], vs[2 * k + 1], disc);
  }

  /**
   * The image after the first k visits of cs, counted from the front: visit i swaps in
   * channel cs[i] with the indices drawn from vs[2 * i] and vs[2 * i + 1].
   */
  function Stage<V>(axis: Axis, sh: Shape, t: Image, cs: seq<nat>, vs: seq<V>, k: nat, disc: V -> int): (r: Image)
    requires Shaped(t, sh) && ChannelsFit(axis, sh, cs) && |vs| == 2 * |cs| && k <= |cs|
    ensures Shaped(r, sh)
    decreases k, 0
  {
    if k == 0 then t else Visited(axis, sh, t, cs, vs, k - 1, disc)
  }

  /** The image right after visit i. */
  function Visited<V>(axis: Axis, sh: Shape, t: Image, cs: seq<nat>, vs: seq<V>, i: nat, disc: V -> int): (r: Image)
    requires Shaped(t, sh) && ChannelsFit(axis, sh, cs) && |vs| == 2 * |cs| && i < |cs|
    ensures Shaped(r, sh)
    decreases i, 1
  {
    var n := Extent(axis, sh);
    Swap(axis, Stage(axis, sh, t, cs, vs, i, disc), sh, cs[i], DrawIndex(disc, vs[2 * i], n), DrawIndex(disc, vs[2 * i + 1], n))
  }

  /** Counting visits one by one from the front is the fold over the visited prefix. */
  lemma {:induction false} StageIsFold<V>(axis: Axis, sh: Shape, t: Image, cs: seq<nat>, vs: seq<V>, k: nat, disc: V -> int)
    requires Shaped(t, sh) && ChannelsFit(axis, sh, cs) && |vs| == 2 * |cs| && k <= |cs|
    ensures ChannelsFit(axis, sh, cs[..k])
    ensures Stage(axis, sh, t, cs, vs, k, disc) == SwapFold(axis, sh, t, cs[..k], vs[..2 * k], disc)
    decreases k
  {
    if k == 0 {
      assert cs[..0] == [] && vs[..0] == [];
    } else {
      var i := k - 1;
      assert k == i + 1;
      StageIsFold(axis, sh, t, cs, vs, i, disc);
      SwapFoldPrefix(axis, sh, t, cs, vs, i, disc);
    }
  }

  /** Replaying the shuffle steps backwards with the values reversed undoes them. */
  lemma {:induction false} SwapFoldUndo<V>(axis: Axis, sh: Shape, t: Image, chans: seq<nat>, vals: seq<V>, disc: V -> int)
    requires Shaped(t, sh) && ChannelsFit(axis, sh, chans) && |vals| == 2 * |chans|
    ensures ChannelsFit(axis, sh, Rev(chans))
    ensures SwapFold(axis, sh, SwapFold(axis, sh, t, chans, vals, disc), Rev(chans), Rev(vals), disc) == t
    decreases |chans|
  {
    if chans != [] {
      var n := Extent(axis, sh);
      var x1, x2 := DrawIndex(disc, vals[0], n), DrawIndex(disc, vals[1], n);
      var t' := Swap(axis, t, sh, chans[0], x1, x2);
      var c', v' := chans[1..], vals[2..];
      SwapFoldUndo(axis, sh, t', c', v', disc);
      var y := SwapFold(axis, sh, t', c', v', disc);
      RevCons(chans);
      RevPairCons(vals);
      SwapFoldAppend(axis, sh, y, Rev(c'), [chans[0]], Rev(v'), [vals[1], vals[0]], disc);
      SwapFoldSingle(axis, sh, t', chans[0], vals[1], vals[0], disc);
      SwapUndo(axis, t, sh, chans[0], x1, x2);
    }
  }

  /**
   * One step of the diffusion loop at flattened position i with discretised value d.
   * Forward: `flt[0] = (flt[0] + d) % 256`, `flt[i] = (flt[i-1] + flt[i] + d) % 256`.
   * Reverse: `flt[0] = (flt[0] - d) % 256`, `flt[i] = (flt[i] - flt[i-1] - d) % 256`.
   */
  function DiffStep(f: seq<Byte>, i: nat, d: int, reverse: bool): (r: seq<Byte>)
    requires i < |f|
    ensures |r| == |f|
  {
    if !reverse then
      if i == 0 then f[i := (f[i] + d) % 256] else f[i := (f[i - 1] + f[i] + d) % 256]
    else
      if i == 0 then f[i := (f[i] - d) % 256] else f[i := (f[i] - f[i - 1] - d) % 256]
  }

  lemma ModCancel(x: Byte, e: int)
    ensures ((x + e) % 256 - e) % 256 == x
  {
    var q := (x + e) / 256;
    assert (x + e) % 256 - e == x - 256 * q;
  }

  /** A reverse step undoes the forward step at the same position with the same value. */
  lemma DiffStepUndo(f: seq<Byte>, i: nat, d: int)
    requires i < |f|
    ensures DiffStep(DiffStep(f, i, d, false), i, d, true) == f
  {
    var g := DiffStep(f, i, d, false);
    if i == 0 {
      ModCancel(f[0], d);
    } else {
      assert g[i - 1] == f[i - 1];
      ModCancel(f[i], f[i - 1] + d);
      assert (g[i] - g[i - 1] - d) % 256 == f[i];
    }
    assert DiffStep(g, i, d, true) == f;
  }

  predicate PositionsFit(f: seq<Byte>, ps: seq<nat>)
  {
    forall i :: 0 <= i < |ps| ==> ps[i] < |f|
  }

  /** The diffusion loop over a visit list of flattened positions, one value per position. */
  function DiffFold<V>(f: seq<Byte>, ps: seq<nat>, vals: seq<V>, reverse: bool, disc: V -> int): (r: seq<Byte>)
    requires PositionsFit(f, ps) && |vals| == |ps|
    ensures |r| == |f|
    decreases |ps|
  {
    if ps == [] then f
    else DiffFold(DiffStep(f, ps[0], disc(vals[0]), reverse), ps[1..], vals[1..], reverse, disc)
  }

  lemma {:induction false} DiffFoldAppend<V>(f: seq<Byte>, p1: seq<nat>, p2: seq<nat>, v1: seq<V>, v2: seq<V>, reverse: bool, disc: V -> int)
    requires PositionsFit(f, p1) && PositionsFit(f, p2) && |v1| == |p1| && |v2| == |p2|
    ensures PositionsFit(f, p1 + p2) && PositionsFit(DiffFold(f, p1, v1, reverse, disc), p2)
    ensures DiffFold(f, p1 + p2, v1 + v2, reverse, disc) == DiffFold(DiffFold(f, p1, v1, reverse, disc), p2, v2, reverse, disc)
    decreases |p1|
  {
    if p1 != [] {
      var f' := DiffStep(f, p1[0], disc(v1[0]), reverse);
      assert (p1 + p2)[1..] == p1[1..] + p2;
      assert (v1 + v2)[1..] == v1[1..] + v2;
      DiffFoldAppend(f', p1[1..], p2, v1[1..], v2, reverse, disc);
    } else {
      assert p1 + p2 == p2 && v1 + v2 == v2;
    }
  }

  lemma DiffFoldSingle<V>(f: seq<Byte>, p: nat, v: V, reverse: bool, disc: V -> int)
    requires p < |f|
    ensures PositionsFit(f, [p])
    ensures DiffFold(f, [p], [v], reverse, disc) == DiffStep(f, p, disc(v), reverse)
  {
    assert [p][1..] == [] && [v][1..] == [];
  }

  /** One more diffusion step at the end of a run. */
  lemma DiffFoldSnoc<V>(f: seq<Byte>, ps: seq<nat>, p: nat, vals: seq<V>, v: V, reverse: bool, disc: V -> int)
    requires PositionsFit(f, ps) && |vals| == |ps| && p < |f|
    ensures PositionsFit(f, ps + [p])
    ensures DiffFold(f, ps + [p], vals + [v], reverse, disc) == DiffStep(DiffFold(f, ps, vals, reverse, disc), p, disc(v), reverse)
  {
    var y := DiffFold(f, ps, vals, reverse, disc);
    DiffFoldSingle(y, p, v, reverse, disc);
    DiffFoldAppend(f, ps, [p], vals, [v], reverse, disc);
  }

  /** Replaying the diffusion steps backwards with the values reversed undoes them. */
  lemma {:induction false} DiffFoldUndo<V>(f: seq<Byte>, ps: seq<nat>, vals: seq<V>, disc: V -> int)
    requires PositionsFit(f, ps) && |vals| == |ps|
    ensures PositionsFit(f, Rev(ps))
    ensures DiffFold(DiffFold(f, ps, vals, false, disc), Rev(ps), Rev(vals), true, disc) == f
    decreases |ps|
  {
    if ps != [] {
      var d := disc(vals[0]);
      var f' := DiffStep(f, ps[0], d, false);
      var p', v' := ps[1..], vals[1..];
      DiffFoldUndo(f', p', v', disc);
      var y := DiffFold(f', p', v', false, disc);
      RevCons(ps);
      RevCons(vals);
      DiffFoldAppend(y, Rev(p'), [ps[0]], Rev(v'), [vals[0]], true, disc);
      DiffFoldSingle(f', ps[0], vals[0], true, disc);
      DiffStepUndo(f, ps[0], d);
    }
  }

  /** The fold over the first k + 1 positions grows from the fold over the first k by one step. */
  lemma DiffFoldPrefix<V>(f: seq<Byte>, ps: seq<nat>, vs: seq<V>, k: nat, reverse: bool, disc: V -> int)
    requires PositionsFit(f, ps) && |vs| == |ps| && k < |ps|
    ensures PositionsFit(f, ps[..k]) && PositionsFit(f, ps[..k + 1])
    ensures DiffFold(f, ps[..k + 1], vs[..k + 1], reverse, disc)
         == DiffStep(DiffFold(f, ps[..k], vs[..k], reverse, disc), ps[k], disc(vs[k]), reverse)
  {
    PrefixSnoc(ps, k);
    PrefixSnoc(vs, k);
    DiffFoldSnoc(f, ps[..k], ps[k], vs[..k], vs[k], reverse, disc);
  }

  /** The stream after the first k diffusion steps along ps, counted from the front. */
  function DiffStage<V>(f: seq<Byte>, ps: seq<nat>, vs: seq<V>, k: nat, reverse: bool, disc: V -> int): (r: seq<Byte>)
    requires PositionsFit(f, ps) && |vs| == |ps| && k <= |ps|
    ensures |r| == |f|
    decreases k, 0
  {
    if k == 0 then f else DiffVisited(f, ps, vs, k - 1, reverse, disc)
  }

  /** The stream right after step i. */
  function DiffVisited<V>(f: seq<Byte>, ps: seq<nat>, vs: seq<V>, i: nat, reverse: bool, disc: V -> int): (r: seq<Byte>)
    requires PositionsFit(f, ps) && |vs| == |ps| && i < |ps|
    ensures |r| == |f|
    decreases i, 1
  {
    DiffStep(DiffStage(f, ps, vs, i, reverse, disc), ps[i], disc(vs[i]), reverse)
  }

  /** Counting diffusion steps one by one from the front is the fold over the visited prefix. */
  lemma {:induction false} DiffStageIsFold<V>(f: seq<Byte>, ps: seq<nat>, vs: seq<V>, k: nat, reverse: bool, disc: V -> int)
    requires PositionsFit(f, ps) && |vs| == |ps| && k <= |ps|
    ensures PositionsFit(f, ps[..k])
    ensures DiffStage(f, ps, vs, k, reverse, disc) == DiffFold(f, ps[..k], vs[..k], reverse, disc)
    decreases k
  {
    if k == 0 {
      assert ps[..0] == [] && vs[..0] == [];
    } else {
      var i := k - 1;
      assert k == i + 1;
      DiffStageIsFold(f, ps, vs, i, reverse, disc);
      DiffFoldPrefix(f, ps, vs, i, reverse, disc);
    }
  }

  /**
   * `op(rgb, it, reverse)` on the image value `t` of shape `sh`, given the values `vals`
   * the call pulls, in pulling order.
   */
  ghost function Spec<V>(op: Op, sh: Shape, t: Image, vals: seq<V>, reverse: bool, disc: V -> int): (r: Image)
    requires Shaped(t, sh) && Runnable(op, sh) && |vals| == Cost(op, sh)
    ensures Shaped(r, sh)
    decreases op, 0
  {
    match op
    case RowShuffle(times) =>
      VisitFits(Rows, sh, times, reverse);
      SwapFold(Rows, sh, t, Visit(sh.c, times, reverse), vals, disc)
    case ColumnShuffle(times) =>
      VisitFits(Columns, sh, times, reverse);
      SwapFold(Columns, sh, t, Visit(sh.c, times, reverse), vals, disc)
    case Diffusion(times) =>
      FlattenSize(t, sh);
      Reshape(DiffFold(Flatten(t), Visit(Size(sh), times, reverse), vals, reverse, disc), sh)
    case Compositional(ops, times) =>
      Repeat(ops, sh, t, vals, times, reverse, disc)
  }

  /** The `times` repetitions of a compositional operation; repetitions are never reordered. */
  ghost function Repeat<V>(ops: seq<Op>, sh: Shape, t: Image, vals: seq<V>, n: nat, reverse: bool, disc: V -> int): (r: Image)
    requires Shaped(t, sh) && (n == 0 || AllRunnable(ops, sh)) && |vals| == CostSum(ops, sh) * n
    ensures Shaped(r, sh)
    decreases ops, 2, n
  {
    if n == 0 then t
    else
      var k := CostSum(ops, sh);
      assert |vals[k..]| == k * (n - 1);
      Repeat(ops, sh, Chain(ops, sh, t, vals[..k], reverse, disc), vals[k..], n - 1, reverse, disc)
  }

  /** One repetition: `op_list` in order, or `reversed(op_list)` in reverse mode. */
  ghost function Chain<V>(ops: seq<Op>, sh: Shape, t: Image, vals: seq<V>, reverse: bool, disc: V -> int): (r: Image)
    requires Shaped(t, sh) && AllRunnable(ops, sh) && |vals| == CostSum(ops, sh)
    ensures Shaped(r, sh)
    decreases ops, 1, 0
  {
    if reverse then ChainBackward(ops, sh, t, vals, disc) else ChainForward(ops, sh, t, vals, disc)
  }

  /** `for op in op_list: rgb = op(rgb, it, False)`. */
  ghost function ChainForward<V>(ops: seq<Op>, sh: Shape, t: Image, vals: seq<V>, disc: V -> int): (r: Image)
    requires Shaped(t, sh) && AllRunnable(ops, sh) && |vals| == CostSum(ops, sh)
    ensures Shaped(r, sh)
    decreases ops, 0, 0
  {
    if ops == [] then t
    else
      var k := Cost(ops[0], sh);
      ChainForward(ops[1..], sh, Spec(ops[0], sh, t, vals[..k], false, disc), vals[k..], disc)
  }

  /**
   * `for op in reversed(op_list): rgb = op(rgb, it, True)`: the last operation runs first and
   * takes the first values, so `ops[0]` runs last on the final `Cost(ops[0])` values.
   */
  ghost function ChainBackward<V>(ops: seq<Op>, sh: Shape, t: Image, vals: seq<V>, disc: V -> int): (r: Image)
    requires Shaped(t, sh) && AllRunnable(ops, sh) && |vals| == CostSum(ops, sh)
    ensures Shaped(r, sh)
    decreases ops, 0, 0
  {
    if ops == [] then t
    else
      var k := |vals| - Cost(ops[0], sh);
      Spec(ops[0], sh, ChainBackward(ops[1..], sh, t, vals[..k], disc), vals[k..], true, disc)
  }

  /** Running one more operation at the end of a forward chain. */
  lemma {:induction false} ChainForwardSnoc<V>(ops: seq<Op>, o: Op, sh: Shape, t: Image, v1: seq<V>, v2: seq<V>, disc: V -> int)
    requires Shaped(t, sh) && AllRunnable(ops, sh) && Runnable(o, sh)
    requires |v1| == CostSum(ops, sh) && |v2| == Cost(o, sh)
    ensures CostSum(ops + [o], sh) == |v1 + v2| && AllRunnable(ops + [o], sh)
    ensures ChainForward(ops + [o], sh, t, v1 + v2, disc) == Spec(o, sh, ChainForward(ops, sh, t, v1, disc), v2, false, disc)
    decreases |ops|
  {
    CostSumAppend(ops, [o], sh);
    if ops == [] {
      assert [o][1..] == [];
      assert (v1 + v2)[..Cost(o, sh)] == v2;
    } else {
      var k := Cost(ops[0], sh);
      var t' := Spec(ops[0], sh, t, v1[..k], false, disc);
      assert (ops + [o])[1..] == ops[1..] + [o];
      assert (v1 + v2)[..k] == v1[..k];
      assert (v1 + v2)[k..] == v1[k..] + v2;
      ChainForwardSnoc(ops[1..], o, sh, t', v1[k..], v2, disc);
    }
  }

  /** The cost of a chain split around its operation j. */
  lemma CostSplit(ops: seq<Op>, j: nat, sh: Shape)
    requires j < |ops|
    ensures CostSum(ops[..j + 1], sh) == CostSum(ops[..j], sh) + Cost(ops[j], sh)
    ensures CostSum(ops[j..], sh) == Cost(ops[j], sh) + CostSum(ops[j + 1..], sh)
    ensures CostSum(ops, sh) == CostSum(ops[..j], sh) + CostSum(ops[j..], sh)
  {
    PrefixSnoc(ops, j);
    CostSumAppend(ops[..j], [ops[j]], sh);
    assert [ops[j]][1..] == [];
    assert ops[j..][1..] == ops[j + 1..];
    assert ops == ops[..j] + ops[j..];
    CostSumAppend(ops[..j], ops[j..], sh);
  }

  /** In reverse mode, operation j runs after the operations behind it, on the last values. */
  lemma ChainBackwardCons<V>(ops: seq<Op>, j: nat, sh: Shape, t: Image, vals: seq<V>, v1: seq<V>, v2: seq<V>, disc: V -> int)
    requires Shaped(t, sh) && AllRunnable(ops, sh) && j < |ops|
    requires |v1| == CostSum(ops[j + 1..], sh) && |v2| == Cost(ops[j], sh) && vals == v1 + v2
    ensures AllRunnable(ops[j..], sh) && AllRunnable(ops[j + 1..], sh) && |vals| == CostSum(ops[j..], sh)
    ensures ChainBackward(ops[j..], sh, t, vals, disc) == Spec(ops[j], sh, ChainBackward(ops[j + 1..], sh, t, v1, disc), v2, true, disc)
  {
    var s := ops[j..];
    assert s[0] == ops[j] && s[1..] == ops[j + 1..];
    CostSplit(ops, j, sh);
    var k := |vals| - Cost(ops[j], sh);
    assert vals[..k] == v1 && vals[k..] == v2;
  }

  /** Running one more repetition at the end. */
  lemma {:induction false} RepeatSnoc<V>(ops: seq<Op>, sh: Shape, t: Image, v1: seq<V>, v2: seq<V>, n: nat, reverse: bool, disc: V -> int)
    requires Shaped(t, sh) && AllRunnable(ops, sh)
    requires |v1| == CostSum(ops, sh) * n && |v2| == CostSum(ops, sh)
    ensures |v1 + v2| == CostSum(ops, sh) * (n + 1)
    ensures Repeat(ops, sh, t, v1 + v2, n + 1, reverse, disc) == Chain(ops, sh, Repeat(ops, sh, t, v1, n, reverse, disc), v2, reverse, disc)
    decreases n
  {
    var k := CostSum(ops, sh);
    if n == 0 {
      assert v1 == [] && (v1 + v2)[..k] == v2;
    } else {
      var t' := Chain(ops, sh, t, v1[..k], reverse, disc);
      assert |v1[k..]| == k * (n - 1);
      assert (v1 + v2)[..k] == v1[..k];
      assert (v1 + v2)[k..] == v1[k..] + v2;
      RepeatSnoc(ops, sh, t', v1[k..], v2, n - 1, reverse, disc);
    }
  }

  /**
   * Round trip: an operation called in reverse mode on the values of a forward call,
   * reversed, restores the image the forward call started from.
   */
  lemma {:induction false} RoundTrip<V>(op: Op, sh: Shape, t: Image, vals: seq<V>, disc: V -> int)
    requires Shaped(t, sh) && Runnable(op, sh) && |vals| == Cost(op, sh)
    ensures Spec(op, sh, Spec(op, sh, t, vals, false, disc), Rev(vals), true, disc) == t
    decreases op, 0
  {
    match op
    case RowShuffle(times) => ShuffleRoundTrip(Rows, sh, t, times, vals, disc);
    case ColumnShuffle(times) => ShuffleRoundTrip(Columns, sh, t, times, vals, disc);
    case Diffusion(times) => DiffusionRoundTrip(sh, t, times, vals, disc);
    case Compositional(ops, times) => RepeatUndo(ops, sh, t, vals, times, disc);
  }

  lemma ShuffleRoundTrip<V>(axis: Axis, sh: Shape, t: Image, times: nat, vals: seq<V>, disc: V -> int)
    requires Shaped(t, sh) && (times == 0 || sh.c == 0 || Extent(axis, sh) > 0) && |vals| == 2 * sh.c * times
    ensures ChannelsFit(axis, sh, Visit(sh.c, times, false)) && ChannelsFit(axis, sh, Visit(sh.c, times, true))
    ensures SwapFold(axis, sh, SwapFold(axis, sh, t, Visit(sh.c, times, false), vals, disc), Visit(sh.c, times, true), Rev(vals), disc) == t
  {
    VisitFits(axis, sh, times, false);
    VisitFits(axis, sh, times, true);
    VisitReverse(sh.c, times);
    SwapFoldUndo(axis, sh, t, Visit(sh.c, times, false), vals, disc);
  }

  lemma DiffusionRoundTrip<V>(sh: Shape, t: Image, times: nat, vals: seq<V>, disc: V -> int)
    requires Shaped(t, sh) && |vals| == Size(sh) * times
    ensures Spec(Diffusion(times), sh, Spec(Diffusion(times), sh, t, vals, false, disc), Rev(vals), true, disc) == t
  {
    var ps := Visit(Size(sh), times, false);
    ReshapeFlatten(t, sh);
    var f := Flatten(t);
    var g := DiffFold(f, ps, vals, false, disc);
    FlattenReshape(g, sh);
    VisitReverse(Size(sh), times);
    DiffFoldUndo(f, ps, vals, disc);
  }

  lemma {:induction false} RepeatUndo<V>(ops: seq<Op>, sh: Shape, t: Image, vals: seq<V>, n: nat, disc: V -> int)
    requires Shaped(t, sh) && (n == 0 || AllRunnable(ops, sh)) && |vals| == CostSum(ops, sh) * n
    ensures Repeat(ops, sh, Repeat(ops, sh, t, vals, n, false, disc), Rev(vals), n, true, disc) == t
    decreases ops, 2, n
  {
    if n > 0 {
      var k := CostSum(ops, sh);
      var v0, v' := vals[..k], vals[k..];
      assert |v'| == k * (n - 1);
      var x := ChainForward(ops, sh, t, v0, disc);
      RepeatUndo(ops, sh, x, v', n - 1, disc);
      assert vals == v0 + v';
      RevAppend(v0, v');
      var y := Repeat(ops, sh, x, v', n - 1, false, disc);
      RepeatSnoc(ops, sh, y, Rev(v'), Rev(v0), n - 1, true, disc);
      ChainUndo(ops, sh, t, v0, disc);
    }
  }

  lemma {:induction false} ChainUndo<V>(ops: seq<Op>, sh: Shape, t: Image, vals: seq<V>, disc: V -> int)
    requires Shaped(t, sh) && AllRunnable(ops, sh) && |vals| == CostSum(ops, sh)
    ensures ChainBackward(ops, sh, ChainForward(ops, sh, t, vals, disc), Rev(vals), disc) == t
    decreases ops, 1, 0
  {
    if ops != [] {
      var k := Cost(ops[0], sh);
      var v0, v' := vals[..k], vals[k..];
      var x := Spec(ops[0], sh, t, v0, false, disc);
      ChainUndo(ops[1..], sh, x, v', disc);
      assert vals == v0 + v';
      RevAppend(v0, v');
      var w := Rev(vals);
      assert w[..|w| - k] == Rev(v') && w[|w| - k..] == Rev(v0);
      RoundTrip(ops[0], sh, t, v0, disc);
    }
  }
  /** The discretised values `utils.discrete(v)` of a run of generator values. */
  function Draws<V>(disc: V -> int, vals: seq<V>): (ds: seq<int>)
    ensures |ds| == |vals|
    ensures forall i :: 0 <= i < |vals| ==> ds[i] == disc(vals[i])
  {
    seq(|vals|, i requires 0 <= i < |vals| => disc(vals[i]))
  }

  /**
   * Reference meaning of one forward diffusion pass: output byte i is the running sum mod 256
   * of the output byte before it, input byte i and draw i.
   */
  function Diffused(f: seq<Byte>, ds: seq<int>): (r: seq<Byte>)
    requires |ds| == |f|
    ensures |r| == |f|
    decreases |f|
  {
    if f == [] then []
    else
      var n := |f|;
      var p := Diffused(f[..n - 1], ds[..n - 1]);
      p + [((if n == 1 then 0 else p[n - 2]) + f[n - 1] + ds[n - 1]) % 256]
  }

  lemma DiffusedSnoc(f: seq<Byte>, ds: seq<int>, i: nat)
    requires |ds| == |f| && i < |f|
    ensures Diffused(f[..i + 1], ds[..i + 1])
         == Diffused(f[..i], ds[..i]) + [((if i == 0 then 0 else Diffused(f[..i], ds[..i])[i - 1]) + f[i] + ds[i]) % 256]
  {
    assert f[..i + 1][..i] == f[..i] && ds[..i + 1][..i] == ds[..i];
  }

  /** After visiting positions 0..i-1 the prefix is diffused and the rest is untouched. */
  lemma {:induction false} DiffPrefix<V>(f: seq<Byte>, vals: seq<V>, i: nat, disc: V -> int)
    requires |vals| == |f| && i <= |f|
    ensures PositionsFit(f, Sweep(i, false))
    ensures DiffFold(f, Sweep(i, false), vals[..i], false, disc) == Diffused(f[..i], Draws(disc, vals)[..i]) + f[i..]
  {
    if i == 0 {
      assert f[..0] == [] && f[0..] == f;
    } else {
      var j := i - 1;
      assert i == j + 1;
      DiffPrefix(f, vals, j, disc);
      SweepSnoc(f, vals, j, disc);
      var ds := Draws(disc, vals);
      DiffStepAtFront(Diffused(f[..j], ds[..j]), f[j..], disc(vals[j]));
      DiffusedSnoc(f, ds, j);
      assert f[j..][1..] == f[i..];
    }
  }

  /** Extending a forward sweep from positions 0..j-1 to 0..j adds one step at j. */
  lemma SweepSnoc<V>(f: seq<Byte>, vals: seq<V>, j: nat, disc: V -> int)
    requires |vals| == |f| && j < |f|
    ensures PositionsFit(f, Sweep(j, false)) && PositionsFit(f, Sweep(j + 1, false))
    ensures DiffFold(f, Sweep(j + 1, false), vals[..j + 1], false, disc)
         == DiffStep(DiffFold(f, Sweep(j, false), vals[..j], false, disc), j, disc(vals[j]), false)
  {
    assert Sweep(j + 1, false) == Sweep(j, false) + [j];
    assert vals[..j + 1] == vals[..j] + [vals[j]];
    DiffFoldSnoc(f, Sweep(j, false), j, vals[..j], vals[j], false, disc);
  }

  /** A forward step at the first untouched position, right after the diffused prefix p. */
  lemma DiffStepAtFront(p: seq<Byte>, rest: seq<Byte>, d: int)
    requires rest != []
    ensures DiffStep(p + rest, |p|, d, false)
         == (p + [((if |p| == 0 then 0 else p[|p| - 1]) + rest[0] + d) % 256]) + rest[1..]
  {
    var q := p + rest;
    assert q[|p|] == rest[0];
    if |p| > 0 {
      assert q[|p| - 1] == p[|p| - 1];
    }
  }

  /** A single forward diffusion pass computes the reference running sum. */
  lemma ForwardPass<V>(t: Image, sh: Shape, vals: seq<V>, disc: V -> int)
    requires Shaped(t, sh) && |vals| == Size(sh)
    ensures |Flatten(t)| == Size(sh)
    ensures Spec(Diffusion(1), sh, t, vals, false, disc) == Reshape(Diffused(Flatten(t), Draws(disc, vals)), sh)
  {
    FlattenSize(t, sh);
    var f := Flatten(t);
    var n := Size(sh);
    PassIsDiffused(f, vals, disc);
    assert Visit(n, 1, false) == Sweep(n, false);
  }

  lemma PassIsDiffused<V>(f: seq<Byte>, vals: seq<V>, disc: V -> int)
    requires |vals| == |f|
    ensures PositionsFit(f, Sweep(|f|, false))
    ensures DiffFold(f, Sweep(|f|, false), vals, false, disc) == Diffused(f, Draws(disc, vals))
  {
    var n := |f|;
    DiffPrefix(f, vals, n, disc);
    assert vals[..n] == vals && f[..n] == f && f[n..] == [];
    assert Draws(disc, vals)[..n] == Draws(disc, vals);
  }

  lemma ModInjective(a: int, b: int, e: int)
    requires 0 <= a < 256 && 0 <= b < 256 && a != b
    ensures (a + e) % 256 != (b + e) % 256
  {
    ModCancel(a, e);
    ModCancel(b, e);
  }

  /**
   * Avalanche of one forward pass: two inputs that differ only at byte k give outputs that
   * agree before k and differ at every position from k on.
   */
  lemma {:induction false} Avalanche(f: seq<Byte>, g: seq<Byte>, ds: seq<int>, k: nat)
    requires |f| == |g| == |ds| && k < |f|
    requires forall j :: 0 <= j < |f| && j != k ==> f[j] == g[j]
    requires f[k] != g[k]
    ensures forall i :: 0 <= i < k ==> Diffused(f, ds)[i] == Diffused(g, ds)[i]
    ensures forall i :: k <= i < |f| ==> Diffused(f, ds)[i] != Diffused(g, ds)[i]
    decreases |f|
  {
    var n := |f|;
    var f', g', ds' := f[..n - 1], g[..n - 1], ds[..n - 1];
    var p, q := Diffused(f', ds'), Diffused(g', ds');
    var prev := if n == 1 then 0 else p[n - 2];
    var prev' := if n == 1 then 0 else q[n - 2];
    if k == n - 1 {
      DiffusedAgree(f', g', ds');
      ModInjective(f[k], g[k], prev + ds[k]);
      assert prev + f[k] + ds[k] == f[k] + (prev + ds[k]);
      assert prev' + g[k] + ds[k] == g[k] + (prev + ds[k]);
    } else {
      Avalanche(f', g', ds', k);
      ModInjective(prev, prev', f[n - 1] + ds[n - 1]);
      assert prev + f[n - 1] + ds[n - 1] == prev + (f[n - 1] + ds[n - 1]);
      assert prev' + g[n - 1] + ds[n - 1] == prev' + (f[n - 1] + ds[n - 1]);
    }
  }

  /** Equal inputs diffuse equally (the part before the changed byte). */
  lemma DiffusedAgree(f: seq<Byte>, g: seq<Byte>, ds: seq<int>)
    requires |f| == |g| == |ds|
    requires forall j :: 0 <= j < |f| ==> f[j] == g[j]
    ensures Diffused(f, ds) == Diffused(g, ds)
  {
    assert f == g;
  }
}
