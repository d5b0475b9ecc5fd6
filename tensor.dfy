/**
 * The image buffer: a row x column x channel array of bytes (numpy `uint8`, axes (H, W, C)),
 * its abstract value as nested sequences, and the value-level operations the pixel
 * operations are specified with: flatten/reshape in C order and the swap of two rows or
 * two columns inside one channel.
 */
module Tensor {
  import opened Util

  datatype Shape = Shape(h: nat, w: nat, c: nat)

  /** Abstract image value: `t[i][j][k]` is the sample at row i, column j, channel k. */
  type Image = seq<seq<seq<Byte>>>

  /** Number of samples, i.e. `len(rgb.flatten())`. */
  function Size(sh: Shape): nat
  {
    sh.h * sh.w * sh.c
  }

  predicate Shaped(t: Image, sh: Shape)
  {
    && |t| == sh.h
    && (forall i :: 0 <= i < sh.h ==> |t[i]| == sh.w)
    && (forall i, j :: 0 <= i < sh.h && 0 <= j < sh.w ==> |t[i][j]| == sh.c)
  }

  function ShapeOf(a: array3<Byte>): Shape
  {
    Shape(a.Length0, a.Length1, a.Length2)
  }

  /** The abstract value currently held by an image buffer. */
  function Contents(a: array3<Byte>): (t: Image)
    reads a
    ensures Shaped(t, ShapeOf(a))
    ensures forall i, j, k :: 0 <= i < a.Length0 && 0 <= j < a.Length1 && 0 <= k < a.Length2 ==>
      t[i][j][k] == a[i, j, k]
  {
    seq(a.Length0, i requires 0 <= i < a.Length0 reads a =>
      seq(a.Length1, j requires 0 <= j < a.Length1 reads a =>
        seq(a.Length2, k requires 0 <= k < a.Length2 reads a => a[i, j, k])))
  }

  /** The buffer holds the image value t, sample by sample. */
  predicate Holds(a: array3<Byte>, t: Image)
    reads a
  {
    && Shaped(t, ShapeOf(a))
    && forall i, j, k :: 0 <= i < a.Length0 && 0 <= j < a.Length1 && 0 <= k < a.Length2 ==> a[i, j, k] == t[i][j][k]
  }

  /** A buffer holds exactly one image value: its contents. */
  lemma HoldsContents(a: array3<Byte>, t: Image)
    ensures Holds(a, Contents(a))
    ensures Holds(a, t) ==> t == Contents(a)
  {
    if Holds(a, t) {
      ImageExt(t, Contents(a), ShapeOf(a));
    }
  }

  /** Two images of one shape that agree sample by sample are equal. */
  lemma ImageExt(t: Image, u: Image, sh: Shape)
    requires Shaped(t, sh) && Shaped(u, sh)
    requires forall i, j, k :: 0 <= i < sh.h && 0 <= j < sh.w && 0 <= k < sh.c ==> t[i][j][k] == u[i][j][k]
    ensures t == u
  {
    forall i | 0 <= i < sh.h ensures t[i] == u[i] {
      forall j | 0 <= j < sh.w ensures t[i][j] == u[i][j] {
      }
    }
  }

  /** `np.zeros(shape, dtype=np.uint8)`. */
  function Zeros(sh: Shape): (t: Image)
    ensures Shaped(t, sh)
    ensures forall i, j, k :: 0 <= i < sh.h && 0 <= j < sh.w && 0 <= k < sh.c ==> t[i][j][k] == 0
  {
    seq(sh.h, i => seq(sh.w, j => seq(sh.c, k => 0)))
  }

  /** Each image row with its columns laid end to end. */
  function FlatRows(t: Image): (rs: seq<seq<Byte>>)
    ensures |rs| == |t| && forall i :: 0 <= i < |t| ==> rs[i] == Concat(t[i])
  {
    seq(|t|, i requires 0 <= i < |t| => Concat(t[i]))
  }

  /** `rgb.flatten()`: row-major (C order) sample stream. */
  function Flatten(t: Image): seq<Byte>
  {
    Concat(FlatRows(t))
  }

  /** Samples per image row: `w * c`. */
  function RowSize(sh: Shape): nat
  {
    sh.w * sh.c
  }

  /** C-order position of sample (i, j, k) in the flattened stream. */
  function Offset(sh: Shape, i: nat, j: nat, k: nat): nat
  {
    RowSize(sh) * i + (sh.c * j + k)
  }

  /** `flt.reshape(shape)`. */
  function Reshape(s: seq<Byte>, sh: Shape): (t: Image)
    requires |s| == Size(sh)
    ensures Shaped(t, sh)
  {
    SizeRows(sh);
    var rows := Chunks(s, RowSize(sh), sh.h);
    seq(sh.h, i requires 0 <= i < sh.h => Chunks(rows[i], sh.c, sh.w))
  }

  /** The sample count, row by row. */
  lemma SizeRows(sh: Shape)
    ensures Size(sh) == sh.h * RowSize(sh)
  {
  }

  /** The C-order position of a sample lies inside the stream. */
  lemma IndexFits(sh: Shape, i: nat, j: nat, k: nat)
    requires i < sh.h && j < sh.w && k < sh.c
    ensures sh.c * j + k < RowSize(sh)
    ensures Offset(sh, i, j, k) < Size(sh)
  {
    MulBelow(sh.c, j, k, sh.w);
    assert sh.c * sh.w == RowSize(sh);
    MulBelow(RowSize(sh), i, sh.c * j + k, sh.h);
    SizeRows(sh);
    assert RowSize(sh) * sh.h == sh.h * RowSize(sh);
  }

  /** The row, column and channel of position p of the flattened image, in C order. */
  function Digits(sh: Shape, p: nat): (d: (nat, nat, nat))
    requires p < Size(sh)
    ensures d.0 < sh.h && d.1 < sh.w && d.2 < sh.c && p == Offset(sh, d.0, d.1, d.2)
  {
    SizeRows(sh);
    var n := RowSize(sh);
    assert n == sh.w * sh.c && p < sh.h * n;
    Split3(p, sh.h, sh.w, sh.c);
    (p / n, (p % n) / sh.c, (p % n) % sh.c)
  }

  /** The digits are unique: the C-order position of an in-range sample has that sample as its digits. */
  lemma DigitsUnique(sh: Shape, p: nat, i: nat, j: nat, k: nat)
    requires i < sh.h && j < sh.w && k < sh.c && p == Offset(sh, i, j, k)
    ensures p < Size(sh) && Digits(sh, p) == (i, j, k)
  {
    IndexFits(sh, i, j, k);
    var n, r := RowSize(sh), sh.c * j + k;
    assert p == n * i + r;
    DivModUnique(p, n, i, r);
    DivModUnique(r, sh.c, j, k);
    assert Digits(sh, p) == (p / n, (p % n) / sh.c, (p % n) % sh.c);
  }

  lemma FlattenSize(t: Image, sh: Shape)
    requires Shaped(t, sh)
    ensures |Flatten(t)| == Size(sh)
    ensures forall i :: 0 <= i < sh.h ==> |FlatRows(t)[i]| == RowSize(sh)
  {
    var rows := FlatRows(t);
    forall i | 0 <= i < sh.h ensures |rows[i]| == RowSize(sh) {
      ConcatLength(t[i], sh.c);
    }
    ConcatLength(rows, RowSize(sh));
    SizeRows(sh);
  }

  /** Sample (i, j, k) of an image is at its C-order position of the flattened stream. */
  lemma FlattenAt(t: Image, sh: Shape, i: nat, j: nat, k: nat)
    requires Shaped(t, sh) && i < sh.h && j < sh.w && k < sh.c
    ensures |Flatten(t)| == Size(sh) && Offset(sh, i, j, k) < Size(sh)
    ensures Flatten(t)[Offset(sh, i, j, k)] == t[i][j][k]
  {
    FlattenSize(t, sh);
    IndexFits(sh, i, j, k);
    ConcatAt(t[i], sh.c, j, k);
    ConcatAt(FlatRows(t), RowSize(sh), i, sh.c * j + k);
  }

  /** Sample (i, j, k) of a reshaped stream is the stream's element at the C-order position. */
  lemma ReshapeAt(s: seq<Byte>, sh: Shape, i: nat, j: nat, k: nat)
    requires |s| == Size(sh) && i < sh.h && j < sh.w && k < sh.c
    ensures Offset(sh, i, j, k) < |s|
    ensures Reshape(s, sh)[i][j][k] == s[Offset(sh, i, j, k)]
  {
    SizeRows(sh);
    IndexFits(sh, i, j, k);
    var rows := Chunks(s, RowSize(sh), sh.h);
    ChunksAt(rows[i], sh.c, sh.w, j, k);
    ChunksAt(s, RowSize(sh), sh.h, i, sh.c * j + k);
  }

  /** Reshaping a flattened image gives the image back. */
  lemma ReshapeFlatten(t: Image, sh: Shape)
    requires Shaped(t, sh)
    ensures |Flatten(t)| == Size(sh) && Reshape(Flatten(t), sh) == t
  {
    FlattenSize(t, sh);
    var r := Reshape(Flatten(t), sh);
    forall i, j, k | 0 <= i < sh.h && 0 <= j < sh.w && 0 <= k < sh.c ensures r[i][j][k] == t[i][j][k] {
      ReshapeAt(Flatten(t), sh, i, j, k);
      FlattenAt(t, sh, i, j, k);
    }
    ImageExt(r, t, sh);
  }

  /** Flattening a reshaped stream gives the stream back. */
  lemma FlattenReshape(s: seq<Byte>, sh: Shape)
    requires |s| == Size(sh)
    ensures Flatten(Reshape(s, sh)) == s
  {
    var t := Reshape(s, sh);
    FlattenSize(t, sh);
    forall p | 0 <= p < |s| ensures Flatten(t)[p] == s[p] {
      FlattenReshapeAt(s, sh, p);
    }
  }

  lemma FlattenReshapeAt(s: seq<Byte>, sh: Shape, p: nat)
    requires |s| == Size(sh) && p < |s|
    ensures p < |Flatten(Reshape(s, sh))| && Flatten(Reshape(s, sh))[p] == s[p]
  {
    var d := Digits(sh, p);
    FlattenAt(Reshape(s, sh), sh, d.0, d.1, d.2);
    ReshapeAt(s, sh, d.0, d.1, d.2);
  }

  /** A row whose channel d, column by column, is taken from `src`. */
  function SetChannel(row: seq<seq<Byte>>, src: seq<seq<Byte>>, d: nat): (r: seq<seq<Byte>>)
    requires |src| == |row| && (forall j :: 0 <= j < |row| ==> d < |row[j]| && d < |src[j]|)
    ensures |r| == |row| && forall j :: 0 <= j < |row| ==> r[j] == row[j][d := src[j][d]]
  {
    seq(|row|, j requires 0 <= j < |row| => row[j][d := src[j][d]])
  }

  /** `rgb[[x, y], :, d] = rgb[[y, x], :, d]`: rows x and y of channel d exchanged. */
  function SwapRows(t: Image, sh: Shape, d: nat, x: nat, y: nat): (r: Image)
    requires Shaped(t, sh) && d < sh.c && x < sh.h && y < sh.h
    ensures Shaped(r, sh)
  {
    t[x := SetChannel(t[x], t[y], d)][y := SetChannel(t[y], t[x], d)]
  }

  /** `rgb[:, [x, y], d] = rgb[:, [y, x], d]`: columns x and y of channel d exchanged. */
  function SwapColumns(t: Image, sh: Shape, d: nat, x: nat, y: nat): (r: Image)
    requires Shaped(t, sh) && d < sh.c && x < sh.w && y < sh.w
    ensures Shaped(r, sh)
  {
    seq(sh.h, i requires 0 <= i < sh.h => t[i][x := t[i][x][d := t[i][y][d]]][y := t[i][y][d := t[i][x][d]]])
  }

  /** Sample by sample: only channel d of rows x and y changes, and those two trade places. */
  lemma SwapRowsAt(t: Image, sh: Shape, d: nat, x: nat, y: nat, i: nat, j: nat, k: nat)
    requires Shaped(t, sh) && d < sh.c && x < sh.h && y < sh.h
    requires i < sh.h && j < sh.w && k < sh.c
    ensures SwapRows(t, sh, d, x, y)[i][j][k] ==
      if k == d && i == x then t[y][j][k] else if k == d && i == y then t[x][j][k] else t[i][j][k]
  {
  }

  lemma SwapColumnsAt(t: Image, sh: Shape, d: nat, x: nat, y: nat, i: nat, j: nat, k: nat)
    requires Shaped(t, sh) && d < sh.c && x < sh.w && y < sh.w
    requires i < sh.h && j < sh.w && k < sh.c
    ensures SwapColumns(t, sh, d, x, y)[i][j][k] ==
      if k == d && j == x then t[i][y][k] else if k == d && j == y then t[i][x][k] else t[i][j][k]
  {
  }

  /** Exchanging the same two rows again, in either order, restores the image. */
  lemma SwapRowsUndo(t: Image, sh: Shape, d: nat, x: nat, y: nat)
    requires Shaped(t, sh) && d < sh.c && x < sh.h && y < sh.h
    ensures SwapRows(SwapRows(t, sh, d, x, y), sh, d, y, x) == t
    ensures SwapRows(SwapRows(t, sh, d, x, y), sh, d, x, y) == t
  {
    var u := SwapRows(t, sh, d, x, y);
    forall i, j, k | 0 <= i < sh.h && 0 <= j < sh.w && 0 <= k < sh.c
      ensures SwapRows(u, sh, d, y, x)[i][j][k] == t[i][j][k] && SwapRows(u, sh, d, x, y)[i][j][k] == t[i][j][k]
    {
      SwapRowsAt(u, sh, d, y, x, i, j, k);
      SwapRowsAt(u, sh, d, x, y, i, j, k);
      SwapRowsAt(t, sh, d, x, y, i, j, k);
      SwapRowsAt(t, sh, d, x, y, x, j, k);
      SwapRowsAt(t, sh, d, x, y, y, j, k);
    }
    ImageExt(SwapRows(u, sh, d, y, x), t, sh);
    ImageExt(SwapRows(u, sh, d, x, y), t, sh);
  }

  lemma SwapColumnsUndo(t: Image, sh: Shape, d: nat, x: nat, y: nat)
    requires Shaped(t, sh) && d < sh.c && x < sh.w && y < sh.w
    ensures SwapColumns(SwapColumns(t, sh, d, x, y), sh, d, y, x) == t
    ensures SwapColumns(SwapColumns(t, sh, d, x, y), sh, d, x, y) == t
  {
    var u := SwapColumns(t, sh, d, x, y);
    forall i, j, k | 0 <= i < sh.h && 0 <= j < sh.w && 0 <= k < sh.c
      ensures SwapColumns(u, sh, d, y, x)[i][j][k] == t[i][j][k] && SwapColumns(u, sh, d, x, y)[i][j][k] == t[i][j][k]
    {
      SwapColumnsAt(u, sh, d, y, x, i, j, k);
      SwapColumnsAt(u, sh, d, x, y, i, j, k);
      SwapColumnsAt(t, sh, d, x, y, i, j, k);
      SwapColumnsAt(t, sh, d, x, y, i, x, k);
      SwapColumnsAt(t, sh, d, x, y, i, y, k);
    }
    ImageExt(SwapColumns(u, sh, d, y, x), t, sh);
    ImageExt(SwapColumns(u, sh, d, x, y), t, sh);
  }
}
