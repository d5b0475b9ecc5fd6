/**
 * The Arnold cat-map encryptor of encrypt.py. Every pixel of a square N x N image, all its
 * channels at once, moves to the cell that an integer 2 x 2 matrix sends it to modulo N.
 * Encryption uses [[1, b], [a, ab + 1]] and decryption the inverse matrix
 * [[ab + 1, -b], [-a, 1]]; both write into a fresh all-zero buffer, reading the unchanged input
 * in every one of their `shuffle_times` repetitions.
 */
module Encrypt {
  import opened Util
  import opened Tensor

  /** The integer matrix [[p, q], [r, s]] acting on (row, column). */
  datatype Mat = Mat(p: int, q: int, r: int, s: int)

  /** The matrix of `encrypt`: `x = i + b j`, `y = a i + (ab + 1) j`. */
  function Forward(a: int, b: int): Mat
  {
    Mat(1, b, a, a * b + 1)
  }

  /** The matrix of `decrypt`: `x = (ab + 1) i - b j`, `y = -a i + j`. */
  function Backward(a: int, b: int): Mat
  {
    Mat(a * b + 1, -b, -a, 1)
  }

  /**
   * The row cell (i, j) moves to. Python's `%` by a positive modulus is never negative,
   * and neither is Dafny's, so the two agree for negative matrix entries too.
   */
  function MapRow(m: Mat, n: nat, i: int, j: int): (x: nat)
    requires n > 0
    ensures x < n
  {
    (m.p * i + m.q * j) % n
  }

  /** The column cell (i, j) moves to. */
  function MapCol(m: Mat, n: nat, i: int, j: int): (y: nat)
    requires n > 0
    ensures y < n
  {
    (m.r * i + m.s * j) % n
  }

  /** The matrix product m2 m1 is the identity. */
  predicate Undoes(m2: Mat, m1: Mat)
  {
    && m2.p * m1.p + m2.q * m1.r == 1
    && m2.p * m1.q + m2.q * m1.s == 0
    && m2.r * m1.p + m2.s * m1.r == 0
    && m2.r * m1.q + m2.s * m1.s == 1
  }

  /** The decryption matrix is the two-sided inverse of the encryption matrix (determinant 1). */
  lemma ArnoldInverse(a: int, b: int)
    ensures Undoes(Backward(a, b), Forward(a, b))
    ensures Undoes(Forward(a, b), Backward(a, b))
  {
    assert (a * b + 1) * b + (-b) * (a * b + 1) == 0;
    assert a * (a * b + 1) + (a * b + 1) * (-a) == 0;
  }

  lemma ModShift(u: int, k: int, n: nat)
    requires n > 0
    ensures (u + n * k) % n == u % n
  {
    var q, r := (u + n * k) / n, (u + n * k) % n;
    var q0, r0 := u / n, u % n;
    assert u + n * k == n * q + r;
    assert u == n * q0 + r0;
    assert n * (q - q0 - k) == r0 - r;
    SmallMultiple(n, q - q0 - k);
  }

  /** Multiplying out a matrix product applied to (i, j); e and f are the entries of the row of the product. */
  lemma Expand(p: int, q: int, p1: int, q1: int, r1: int, s1: int, i: int, j: int, e: int, f: int)
    requires p * p1 + q * r1 == e && p * q1 + q * s1 == f
    ensures p * (p1 * i + q1 * j) + q * (r1 * i + s1 * j) == e * i + f * j
  {
  }

  /** Reducing the arguments of a linear form modulo n first does not change it modulo n. */
  lemma ModLinear(p: int, q: int, x: int, y: int, n: nat)
    requires n > 0
    ensures (p * (x % n) + q * (y % n)) % n == (p * x + q * y) % n
  {
    var k := p * (x / n) + q * (y / n);
    assert x == n * (x / n) + x % n;
    assert y == n * (y / n) + y % n;
    assert p * x + q * y == p * (x % n) + q * (y % n) + n * k;
    ModShift(p * (x % n) + q * (y % n), k, n);
  }

  /** When m2 m1 is the identity, m2 sends the cell that m1 moves (i, j) to back to (i, j). */
  lemma MapUndo(m1: Mat, m2: Mat, n: nat, i: nat, j: nat)
    requires Undoes(m2, m1) && n > 0 && i < n && j < n
    ensures MapRow(m2, n, MapRow(m1, n, i, j), MapCol(m1, n, i, j)) == i
    ensures MapCol(m2, n, MapRow(m1, n, i, j), MapCol(m1, n, i, j)) == j
  {
    var x, y := m1.p * i + m1.q * j, m1.r * i + m1.s * j;
    Expand(m2.p, m2.q, m1.p, m1.q, m1.r, m1.s, i, j, 1, 0);
    Expand(m2.r, m2.s, m1.p, m1.q, m1.r, m1.s, i, j, 0, 1);
    ModCoord(m2.p, m2.q, x, y, n, i);
    ModCoord(m2.r, m2.s, x, y, n, j);
  }

  /** A linear form with value v in [0, n) on (x, y) keeps that value on (x mod n, y mod n), modulo n. */
  lemma ModCoord(p: int, q: int, x: int, y: int, n: nat, v: int)
    requires n > 0 && 0 <= v < n && p * x + q * y == v
    ensures (p * (x % n) + q * (y % n)) % n == v
  {
    ModLinear(p, q, x, y, n);
  }

  /** The encryption map is a bijection of Z_N x Z_N: one-to-one, and every cell is hit. */
  lemma ForwardBijective(a: int, b: int, n: nat)
    requires n > 0
    ensures forall i, j, i', j' ::
      (0 <= i < n && 0 <= j < n && 0 <= i' < n && 0 <= j' < n &&
       MapRow(Forward(a, b), n, i, j) == MapRow(Forward(a, b), n, i', j') &&
       MapCol(Forward(a, b), n, i, j) == MapCol(Forward(a, b), n, i', j')) ==> i == i' && j == j'
    ensures forall x, y :: 0 <= x < n && 0 <= y < n ==>
      MapRow(Forward(a, b), n, MapRow(Backward(a, b), n, x, y), MapCol(Backward(a, b), n, x, y)) == x &&
      MapCol(Forward(a, b), n, MapRow(Backward(a, b), n, x, y), MapCol(Backward(a, b), n, x, y)) == y
  {
    ArnoldInverse(a, b);
    var f, g := Forward(a, b), Backward(a, b);
    forall i, j | 0 <= i < n && 0 <= j < n
      ensures MapRow(g, n, MapRow(f, n, i, j), MapCol(f, n, i, j)) == i
      ensures MapCol(g, n, MapRow(f, n, i, j), MapCol(f, n, i, j)) == j
    {
      MapUndo(f, g, n, i, j);
    }
    forall x, y | 0 <= x < n && 0 <= y < n
      ensures MapRow(f, n, MapRow(g, n, x, y), MapCol(g, n, x, y)) == x
      ensures MapCol(f, n, MapRow(g, n, x, y), MapCol(g, n, x, y)) == y
    {
      MapUndo(g, f, n, x, y);
    }
  }

  /** The n x n image whose pixel (x, y) is the pixel of t at the cell `inv` sends (x, y) to. */
  function Gather(t: Image, n: nat, c: nat, inv: Mat): (u: Image)
    requires Shaped(t, Shape(n, n, c))
    ensures Shaped(u, Shape(n, n, c))
  {
    seq(n, x requires 0 <= x < n =>
      seq(n, y requires 0 <= y < n => t[MapRow(inv, n, x, y)][MapCol(inv, n, x, y)]))
  }

  /**
   * The buffer `encrypt` (inv = Backward) or `decrypt` (inv = Forward) hands back: all zeros
   * when no repetition runs, and otherwise the input scattered once, since every repetition
   * writes every cell from the unchanged input.
   */
  function ArnoldResult(t: Image, n: nat, c: nat, inv: Mat, times: nat): (u: Image)
    requires Shaped(t, Shape(n, n, c))
    ensures Shaped(u, Shape(n, n, c))
  {
    if times == 0 then Zeros(Shape(n, n, c)) else Gather(t, n, c, inv)
  }

  /** `encrypt` moves the whole pixel (i, j) to ((i + b j) mod N, (a i + (ab + 1) j) mod N). */
  lemma EncryptMoves(t: Image, n: nat, c: nat, a: int, b: int, times: nat, i: nat, j: nat)
    requires Shaped(t, Shape(n, n, c)) && times >= 1 && i < n && j < n
    ensures ArnoldResult(t, n, c, Backward(a, b), times)[MapRow(Forward(a, b), n, i, j)][MapCol(Forward(a, b), n, i, j)] == t[i][j]
  {
    ArnoldInverse(a, b);
    MapUndo(Forward(a, b), Backward(a, b), n, i, j);
  }

  /** `decrypt(encrypt(rgb)) == rgb` for a square image and at least one repetition of each. */
  lemma DecryptEncrypt(t: Image, n: nat, c: nat, a: int, b: int, k1: nat, k2: nat)
    requires Shaped(t, Shape(n, n, c)) && k1 >= 1 && k2 >= 1
    ensures ArnoldResult(ArnoldResult(t, n, c, Backward(a, b), k1), n, c, Forward(a, b), k2) == t
  {
    ArnoldInverse(a, b);
    Undone(t, n, c, Forward(a, b), Backward(a, b));
  }

  /** `encrypt(decrypt(rgb)) == rgb`: the two directions are mutual inverses. */
  lemma EncryptDecrypt(t: Image, n: nat, c: nat, a: int, b: int, k1: nat, k2: nat)
    requires Shaped(t, Shape(n, n, c)) && k1 >= 1 && k2 >= 1
    ensures ArnoldResult(ArnoldResult(t, n, c, Forward(a, b), k1), n, c, Backward(a, b), k2) == t
  {
    ArnoldInverse(a, b);
    Undone(t, n, c, Backward(a, b), Forward(a, b));
  }

  /** Gathering through m2 and then through m1, where m2 m1 is the identity, restores t. */
  lemma Undone(t: Image, n: nat, c: nat, m1: Mat, m2: Mat)
    requires Shaped(t, Shape(n, n, c)) && Undoes(m2, m1)
    ensures Gather(Gather(t, n, c, m2), n, c, m1) == t
  {
    var u := Gather(Gather(t, n, c, m2), n, c, m1);
    forall x | 0 <= x < n
      ensures u[x] == t[x]
    {
      forall y | 0 <= y < n
        ensures u[x][y] == t[x][y]
      {
        MapUndo(m1, m2, n, x, y);
      }
    }
  }

  /** For the loop proof: whether the source cell of (x, y) comes before (i, j) in loop order. */
  predicate Before(inv: Mat, n: nat, x: nat, y: nat, i: nat, j: nat)
    requires n > 0
  {
    var r := MapRow(inv, n, x, y);
    r < i || (r == i && MapCol(inv, n, x, y) < j)
  }

  /** The buffer after the loop has visited every cell before (i, j), starting from `prior`. */
  function Partial(t: Image, n: nat, c: nat, inv: Mat, prior: Image, i: nat, j: nat): (u: Image)
    requires Shaped(t, Shape(n, n, c)) && Shaped(prior, Shape(n, n, c))
    ensures Shaped(u, Shape(n, n, c))
  {
    seq(n, x requires 0 <= x < n =>
      seq(n, y requires 0 <= y < n =>
        if Before(inv, n, x, y, i, j) then t[MapRow(inv, n, x, y)][MapCol(inv, n, x, y)] else prior[x][y]))
  }

  lemma PartialStart(t: Image, n: nat, c: nat, inv: Mat, prior: Image)
    requires Shaped(t, Shape(n, n, c)) && Shaped(prior, Shape(n, n, c))
    ensures Partial(t, n, c, inv, prior, 0, 0) == prior
  {
    var u := Partial(t, n, c, inv, prior, 0, 0);
    forall x | 0 <= x < n
      ensures u[x] == prior[x]
    {
      assert forall y :: 0 <= y < n ==> u[x][y] == prior[x][y];
    }
  }

  lemma PartialRow(t: Image, n: nat, c: nat, inv: Mat, prior: Image, i: nat)
    requires Shaped(t, Shape(n, n, c)) && Shaped(prior, Shape(n, n, c))
    ensures Partial(t, n, c, inv, prior, i, n) == Partial(t, n, c, inv, prior, i + 1, 0)
  {
    var u, v := Partial(t, n, c, inv, prior, i, n), Partial(t, n, c, inv, prior, i + 1, 0);
    forall x | 0 <= x < n
      ensures u[x] == v[x]
    {
      assert forall y :: 0 <= y < n ==> u[x][y] == v[x][y];
    }
  }

  lemma PartialEnd(t: Image, n: nat, c: nat, inv: Mat, prior: Image)
    requires Shaped(t, Shape(n, n, c)) && Shaped(prior, Shape(n, n, c))
    ensures Partial(t, n, c, inv, prior, n, 0) == Gather(t, n, c, inv)
  {
    var u, v := Partial(t, n, c, inv, prior, n, 0), Gather(t, n, c, inv);
    forall x | 0 <= x < n
      ensures u[x] == v[x]
    {
      assert forall y :: 0 <= y < n ==> u[x][y] == v[x][y];
    }
  }

  /**
   * Writing pixel (i, j) of t at the cell m sends it to completes visit (i, j): that cell is
   * the only one whose source under `inv` is (i, j).
   */
  lemma PartialStep(t: Image, n: nat, c: nat, m: Mat, inv: Mat, prior: Image, i: nat, j: nat)
    requires Shaped(t, Shape(n, n, c)) && Shaped(prior, Shape(n, n, c))
    requires Undoes(inv, m) && Undoes(m, inv) && i < n && j < n
    ensures var p, x0, y0 := Partial(t, n, c, inv, prior, i, j), MapRow(m, n, i, j), MapCol(m, n, i, j);
      p[x0 := p[x0][y0 := t[i][j]]] == Partial(t, n, c, inv, prior, i, j + 1)
  {
    var p, x0, y0 := Partial(t, n, c, inv, prior, i, j), MapRow(m, n, i, j), MapCol(m, n, i, j);
    var u, v := p[x0 := p[x0][y0 := t[i][j]]], Partial(t, n, c, inv, prior, i, j + 1);
    forall x | 0 <= x < n
      ensures u[x] == v[x]
    {
      forall y | 0 <= y < n
        ensures u[x][y] == v[x][y]
      {
        StepCell(t, n, c, m, inv, prior, i, j, x, y);
      }
    }
  }

  /** One cell of `PartialStep`. */
  lemma StepCell(t: Image, n: nat, c: nat, m: Mat, inv: Mat, prior: Image, i: nat, j: nat, x: nat, y: nat)
    requires Shaped(t, Shape(n, n, c)) && Shaped(prior, Shape(n, n, c))
    requires Undoes(inv, m) && Undoes(m, inv) && i < n && j < n && x < n && y < n
    ensures Partial(t, n, c, inv, prior, i, j + 1)[x][y]
         == if x == MapRow(m, n, i, j) && y == MapCol(m, n, i, j) then t[i][j] else Partial(t, n, c, inv, prior, i, j)[x][y]
  {
    if x == MapRow(m, n, i, j) && y == MapCol(m, n, i, j) {
      MapUndo(m, inv, n, i, j);
    } else {
      MapUndo(inv, m, n, x, y);
    }
  }

  /** `result[x, y, :] = rgb[i, j, :]`. */
  method CopyPixel(result: array3<Byte>, rgb: array3<Byte>, x: nat, y: nat, i: nat, j: nat, ghost u: Image, ghost t: Image)
    requires result != rgb && result.Length2 == rgb.Length2
    requires x < result.Length0 && y < result.Length1 && i < rgb.Length0 && j < rgb.Length1
    requires Holds(result, u) && Holds(rgb, t)
    modifies result
    ensures Holds(result, u[x := u[x][y := t[i][j]]])
  {
    for k := 0 to result.Length2
      invariant forall x', y', k' :: 0 <= x' < result.Length0 && 0 <= y' < result.Length1 && 0 <= k' < result.Length2 ==>
        result[x', y', k'] == (if x' == x && y' == y && k' < k then t[i][j][k'] else u[x'][y'][k'])
    {
      result[x, y, k] := rgb[i, j, k];
    }
  }

  /**
   * The loops shared by `encrypt` and `decrypt`: `shuffle_times` repetitions, each writing
   * `rgb[i, j, :]` to the cell m sends (i, j) to, in row-major order, into a zero buffer.
   */
  method Permute(rgb: array3<Byte>, m: Mat, inv: Mat, times: nat) returns (result: array3<Byte>)
    requires rgb.Length0 == rgb.Length1 && Undoes(inv, m) && Undoes(m, inv)
    ensures fresh(result) && ShapeOf(result) == ShapeOf(rgb)
    ensures Contents(result) == ArnoldResult(Contents(rgb), rgb.Length0, rgb.Length2, inv, times)
  {
    var n, c := rgb.Length0, rgb.Length2;
    ghost var t := Contents(rgb);
    HoldsContents(rgb, t);
    result := new Byte[n, n, c]((i, j, k) => 0);
    ghost var z, g := Zeros(Shape(n, n, c)), Gather(t, n, c, inv);
    for rep := 0 to times
      invariant Holds(rgb, t) && Holds(result, if rep == 0 then z else g)
    {
      ScatterPass(result, rgb, m, inv, t, if rep == 0 then z else g);
    }
    HoldsContents(result, if times == 0 then z else g);
  }

  /** One repetition: `for i in range(N): for j in range(N): result[x, y, :] = rgb[i, j, :]`. */
  method ScatterPass(result: array3<Byte>, rgb: array3<Byte>, m: Mat, inv: Mat, ghost t: Image, ghost prior: Image)
    requires result != rgb && rgb.Length0 == rgb.Length1 && ShapeOf(result) == ShapeOf(rgb)
    requires Undoes(inv, m) && Undoes(m, inv)
    requires Holds(rgb, t) && Holds(result, prior)
    modifies result
    ensures Holds(result, Gather(t, rgb.Length0, rgb.Length2, inv))
  {
    var n, c := rgb.Length0, rgb.Length2;
    PartialStart(t, n, c, inv, prior);
    for i := 0 to n
      invariant Holds(result, Partial(t, n, c, inv, prior, i, 0))
    {
      assert Scattering(result, rgb, m, inv, t, prior, i, 0);
      ScatterRow(result, rgb, m, inv, t, prior, i);
    }
    PartialEnd(t, n, c, inv, prior);
  }

  /** Row i of a repetition: `for j in range(N)`. */
  method ScatterRow(result: array3<Byte>, rgb: array3<Byte>, m: Mat, inv: Mat, ghost t: Image, ghost prior: Image, i: nat)
    requires Scattering(result, rgb, m, inv, t, prior, i, 0)
    modifies result
    ensures Holds(result, Partial(t, rgb.Length0, rgb.Length2, inv, prior, i + 1, 0))
  {
    for j := 0 to rgb.Length0
      invariant Scattering(result, rgb, m, inv, t, prior, i, j)
    {
      ScatterStep(result, rgb, m, inv, t, prior, i, j);
    }
    PartialRow(t, rgb.Length0, rgb.Length2, inv, prior, i);
  }

  /** The loop state of a repetition: every cell before (i, j) is written. */
  ghost predicate Scattering(result: array3<Byte>, rgb: array3<Byte>, m: Mat, inv: Mat, t: Image, prior: Image, i: nat, j: nat)
    reads result, rgb
  {
    && result != rgb && rgb.Length0 == rgb.Length1 && ShapeOf(result) == ShapeOf(rgb)
    && i < rgb.Length0 && j <= rgb.Length0
    && Undoes(inv, m) && Undoes(m, inv) && Holds(rgb, t) && Shaped(prior, ShapeOf(rgb))
    && Holds(result, Partial(t, rgb.Length0, rgb.Length2, inv, prior, i, j))
  }

  /** The loop body: `x`, `y` from the matrix, then `result[x, y, :] = rgb[i, j, :]`. */
  method ScatterStep(result: array3<Byte>, rgb: array3<Byte>, m: Mat, inv: Mat, ghost t: Image, ghost prior: Image, i: nat, j: nat)
    requires Scattering(result, rgb, m, inv, t, prior, i, j) && j < rgb.Length0
    modifies result
    ensures Scattering(result, rgb, m, inv, t, prior, i, j + 1)
  {
    var n := rgb.Length0;
    var x := (m.p * i + m.q * j) % n;
    var y := (m.r * i + m.s * j) % n;
    CopyPixel(result, rgb, x, y, i, j, Partial(t, n, rgb.Length2, inv, prior, i, j), t);
    PartialStep(t, n, rgb.Length2, m, inv, prior, i, j);
  }

  /** `ArnoldEncryptor(a, b, shuffle_times)`. */
  class ArnoldEncryptor {
    const a: int
    const b: int
    const shuffleTimes: nat

    constructor (a: int, b: int, shuffleTimes: nat)
      ensures this.a == a && this.b == b && this.shuffleTimes == shuffleTimes
    {
      this.a := a;
      this.b := b;
      this.shuffleTimes := shuffleTimes;
    }

    /** `encrypt(rgb)`; a non-square image is the source's message-and-exit, here a failure. */
    method Encrypt(rgb: array3<Byte>) returns (res: Result<array3<Byte>, string>)
      ensures res.Failure? <==> rgb.Length0 != rgb.Length1
      ensures res.Success? ==> fresh(res.value) && ShapeOf(res.value) == ShapeOf(rgb)
      ensures res.Success? ==>
        Contents(res.value) == ArnoldResult(Contents(rgb), rgb.Length0, rgb.Length2, Backward(a, b), shuffleTimes)
    {
      if rgb.Length0 != rgb.Length1 {
        return Failure("Arnold only accepts images with same height and width");
      }
      ArnoldInverse(a, b);
      var r := Permute(rgb, Forward(a, b), Backward(a, b), shuffleTimes);
      return Success(r);
    }

    /** `decrypt(rgb)`: the same loops with the inverse matrix. */
    method Decrypt(rgb: array3<Byte>) returns (res: Result<array3<Byte>, string>)
      ensures res.Failure? <==> rgb.Length0 != rgb.Length1
      ensures res.Success? ==> fresh(res.value) && ShapeOf(res.value) == ShapeOf(rgb)
      ensures res.Success? ==>
        Contents(res.value) == ArnoldResult(Contents(rgb), rgb.Length0, rgb.Length2, Forward(a, b), shuffleTimes)
    {
      if rgb.Length0 != rgb.Length1 {
        return Failure("Arnold only accepts images with same height and width");
      }
      ArnoldInverse(a, b);
      var r := Permute(rgb, Backward(a, b), Forward(a, b), shuffleTimes);
      return Success(r);
    }
  }
}
