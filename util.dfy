/** Shared vocabulary: bytes, results, and sequence helpers (reversal, concatenation, chunking). */
module Util {

  /** A numpy `uint8` sample. */
  type Byte = x: int | 0 <= x < 256

  /** An error return in place of a Python exception or process exit. */
  datatype Result<+T, +E> = Success(value: T) | Failure(error: E)

  /** Python's `reversed(...)` materialised as a sequence. */
  function Rev<X>(s: seq<X>): (r: seq<X>)
    ensures |r| == |s|
  {
    seq(|s|, i requires 0 <= i < |s| => s[|s| - 1 - i])
  }

  lemma RevAppend<X>(a: seq<X>, b: seq<X>)
    ensures Rev(a + b) == Rev(b) + Rev(a)
  {
    var l, r := Rev(a + b), Rev(b) + Rev(a);
    assert |l| == |r|;
    forall i | 0 <= i < |l| ensures l[i] == r[i] {
      if i < |b| {
        assert l[i] == b[|b| - 1 - i];
      } else {
        assert l[i] == a[|a| - 1 - (i - |b|)];
      }
    }
  }

  lemma RevCons<X>(s: seq<X>)
    requires |s| >= 1
    ensures Rev(s) == Rev(s[1..]) + [s[0]]
  {
    assert s == [s[0]] + s[1..];
    RevAppend([s[0]], s[1..]);
  }

  lemma RevPairCons<X>(s: seq<X>)
    requires |s| >= 2
    ensures Rev(s) == Rev(s[2..]) + [s[1], s[0]]
  {
    assert s == s[..2] + s[2..];
    RevAppend(s[..2], s[2..]);
  }

  lemma PrefixSnoc<X>(s: seq<X>, j: nat)
    requires j < |s|
    ensures s[..j + 1] == s[..j] + [s[j]]
  {
  }

  /** Two consecutive elements of a slice, read from the underlying sequence at p = lo + i. */
  lemma SlicePair<X>(s: seq<X>, lo: nat, hi: nat, i: nat, p: nat)
    requires lo <= hi <= |s| && i + 1 < hi - lo && p == lo + i
    ensures s[lo..hi][i] == s[p] && s[lo..hi][i + 1] == s[p + 1]
  {
  }

  lemma SliceAt<X>(s: seq<X>, lo: nat, hi: nat, i: nat, p: nat)
    requires lo <= hi <= |s| && i < hi - lo && p == lo + i
    ensures s[lo..hi][i] == s[p]
  {
  }

  /** Splitting a slice at an inner point. */
  lemma SliceSplit<X>(s: seq<X>, lo: nat, mid: nat, hi: nat)
    requires lo <= mid <= hi <= |s|
    ensures s[lo..hi] == s[lo..mid] + s[mid..hi]
  {
  }

  lemma DivLess(p: nat, n: nat, h: nat)
    requires n > 0 && p < n * h
    ensures p / n < h
  {
    var q := p / n;
    assert n * q + p % n == p;
    assert n * q < n * h;
  }

  /** A multiple of a positive n strictly between -n and n is zero. */
  lemma SmallMultiple(n: int, d: int)
    requires n > 0 && -n < n * d < n
    ensures d == 0
  {
    if d >= 1 {
      MulAtLeast(n, d);
      assert false;
    } else if d <= -1 {
      MulAtLeast(n, -d);
      assert false;
    }
  }

  lemma MulAtLeast(n: int, e: int)
    requires n > 0 && e >= 1
    ensures n * e >= n
  {
  }

  /** Euclidean division is unique: q and r with p == n * q + r and 0 <= r < n are p / n and p % n. */
  lemma DivModUnique(p: nat, n: nat, q: nat, r: nat)
    requires n > 0 && r < n && p == n * q + r
    ensures p / n == q && p % n == r
  {
    assert p == n * (p / n) + p % n;
    assert n * (q - p / n) == p % n - r;
    SmallMultiple(n, q - p / n);
  }

  lemma MulBelow(n: nat, i: nat, r: nat, h: nat)
    requires r < n && i < h
    ensures n * i + r < n * h
  {
    assert n * i + r < n * (i + 1);
    assert n * (i + 1) <= n * h;
  }

  /** Mixed-radix digits: p below `h * (w * c)` splits into a row, a column and a channel. */
  lemma Split3(p: nat, h: nat, w: nat, c: nat)
    requires p < h * (w * c)
    ensures w * c > 0 && c > 0
    ensures p / (w * c) < h && (p % (w * c)) / c < w && (p % (w * c)) % c < c
    ensures p == (w * c) * (p / (w * c)) + (c * ((p % (w * c)) / c) + (p % (w * c)) % c)
  {
    var n := w * c;
    assert n > 0 && c > 0;
    assert p < n * h;
    DivLess(p, n, h);
    var r := p % n;
    assert p == n * (p / n) + r;
    DivLess(r, c, w);
    assert r == c * (r / c) + r % c;
  }

  /** Concatenation of a sequence of sequences (numpy `flatten` of one axis). */
  function Concat<X>(ss: seq<seq<X>>): seq<X>
  {
    if ss == [] then [] else ss[0] + Concat(ss[1..])
  }

  /** m pieces of length n: one piece, then m - 1 more. */
  lemma PieceTail(n: nat, m: nat)
    requires m > 0
    ensures n <= m * n && m * n - n == (m - 1) * n
  {
  }

  /** Position n * i with i > 0 lies one piece past n * (i - 1). */
  lemma PositionTail(n: nat, i: nat)
    requires i > 0
    ensures n * i == n + n * (i - 1)
  {
  }

  /** Splits `s` into `m` consecutive pieces of length `n` (numpy `reshape` of one axis). */
  function Chunks<X>(s: seq<X>, n: nat, m: nat): (r: seq<seq<X>>)
    requires |s| == m * n
    ensures |r| == m
    ensures forall i :: 0 <= i < m ==> |r[i]| == n
  {
    if m == 0 then []
    else
      PieceTail(n, m);
      [s[..n]] + Chunks(s[n..], n, m - 1)
  }

  lemma {:induction false} ConcatLength<X>(ss: seq<seq<X>>, n: nat)
    requires forall i :: 0 <= i < |ss| ==> |ss[i]| == n
    ensures |Concat(ss)| == |ss| * n
  {
    if ss != [] {
      ConcatLength(ss[1..], n);
      PieceTail(n, |ss|);
    }
  }

  /** Element j of piece i of a concatenation of equal pieces sits at n * i + j. */
  lemma {:induction false} ConcatAt<X>(ss: seq<seq<X>>, n: nat, i: nat, j: nat)
    requires forall x :: 0 <= x < |ss| ==> |ss[x]| == n
    requires i < |ss| && j < n
    ensures 0 <= n * i + j < |Concat(ss)| && Concat(ss)[n * i + j] == ss[i][j]
    decreases i
  {
    ConcatLength(ss, n);
    MulBelow(n, i, j, |ss|);
    if i > 0 {
      ConcatAt(ss[1..], n, i - 1, j);
      PositionTail(n, i);
    }
  }

  /** Element j of piece i of a chunking is element n * i + j of the stream. */
  lemma {:induction false} ChunksAt<X>(s: seq<X>, n: nat, m: nat, i: nat, j: nat)
    requires |s| == m * n && i < m && j < n
    ensures 0 <= n * i + j < |s| && Chunks(s, n, m)[i][j] == s[n * i + j]
    decreases i
  {
    PieceTail(n, m);
    MulBelow(n, i, j, m);
    if i > 0 {
      ChunksAt(s[n..], n, m - 1, i - 1, j);
      PositionTail(n, i);
    }
  }

  lemma {:induction false} ConcatChunks<X>(s: seq<X>, n: nat, m: nat)
    requires |s| == m * n
    ensures Concat(Chunks(s, n, m)) == s
  {
    if m > 0 {
      PieceTail(n, m);
      var rest := s[n..];
      ConcatChunks(rest, n, m - 1);
      assert Chunks(s, n, m)[1..] == Chunks(rest, n, m - 1);
      assert s == s[..n] + rest;
    }
  }

  lemma {:induction false} ChunksConcat<X>(ss: seq<seq<X>>, n: nat)
    requires forall i :: 0 <= i < |ss| ==> |ss[i]| == n
    ensures |Concat(ss)| == |ss| * n
    ensures Chunks(Concat(ss), n, |ss|) == ss
  {
    ConcatLength(ss, n);
    if ss != [] {
      ChunksConcat(ss[1..], n);
      var c := Concat(ss);
      assert c == ss[0] + Concat(ss[1..]);
      assert c[..n] == ss[0];
      assert c[n..] == Concat(ss[1..]);
      assert ss == [ss[0]] + ss[1..];
    }
  }
}
