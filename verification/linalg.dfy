/** Exact linear algebra over the one-based buffers: rows and columns as
    slices, linearity of the dot product, and the statement "simi is the
    inverse of the leading n by n block of sim" in the form the rounding-error
    check of cobylb evaluates it (row i of simi dotted with column j of sim). */
module LinearAlgebra {
  import opened Buffers

  /** Row i of a, columns 1..n, as PART2(a, i, 1, n). */
  function Row(a: Matrix, i: int, n: nat): (r: Vector)
    requires 0 <= i < |a| && n < |a[i]|
    ensures |r| == n
    ensures forall d :: 0 <= d < n ==> r[d] == a[i][d + 1]
  {
    Part2(a, i, 1, n)
  }

  /** Column j of a, rows 1..n, as PART1(a, 1, n, j). */
  function Column(a: Matrix, j: int, n: nat): (c: Vector)
    requires n < |a| && 0 <= j
    requires forall r :: 1 <= r <= n ==> j < |a[r]|
    ensures |c| == n
    ensures forall d :: 0 <= d < n ==> c[d] == a[d + 1][j]
  {
    Part1(a, 1, n, j)
  }

  /** Kronecker delta: the entries of the identity matrix. */
  function Delta(i: int, j: int): real
  {
    if i == j then 1.0 else 0.0
  }

  /** simi times the leading n by n block of sim is the identity. */
  predicate IsLeftInverse(simi: Matrix, sim: Matrix, n: nat)
    requires IsMatrix(simi, n, n)
    requires |sim| == n + 1 && forall r :: 0 <= r <= n ==> n < |sim[r]|
  {
    forall i, j :: 1 <= i <= n && 1 <= j <= n ==>
      DotProduct(Row(simi, i, n), Column(sim, j, n)) == Delta(i, j)
  }

  lemma {:induction false} SumPointwiseAdd(x: Vector, y: Vector, z: Vector)
    requires |x| == |y| == |z|
    requires forall d :: 0 <= d < |z| ==> z[d] == x[d] + y[d]
    ensures Sum(z) == Sum(x) + Sum(y)
    decreases |z|
  {
    if |z| > 0 {
      var k := |z| - 1;
      SumPointwiseAdd(x[..k], y[..k], z[..k]);
    }
  }

  lemma {:induction false} SumPointwiseSub(x: Vector, y: Vector, z: Vector)
    requires |x| == |y| == |z|
    requires forall d :: 0 <= d < |z| ==> z[d] == x[d] - y[d]
    ensures Sum(z) == Sum(x) - Sum(y)
    decreases |z|
  {
    if |z| > 0 {
      var k := |z| - 1;
      SumPointwiseSub(x[..k], y[..k], z[..k]);
    }
  }

  lemma {:induction false} SumPointwiseNeg(x: Vector, z: Vector)
    requires |x| == |z|
    requires forall d :: 0 <= d < |z| ==> z[d] == -x[d]
    ensures Sum(z) == -Sum(x)
    decreases |z|
  {
    if |z| > 0 {
      var k := |z| - 1;
      SumPointwiseNeg(x[..k], z[..k]);
    }
  }

  /** A sequence that is zero except at position p sums to its entry at p. */
  lemma {:induction false} SumSingleEntry(s: Vector, p: int, v: real)
    requires forall d :: 0 <= d < |s| ==> s[d] == (if d == p then v else 0.0)
    ensures Sum(s) == if 0 <= p < |s| then v else 0.0
    decreases |s|
  {
    if |s| > 0 {
      SumSingleEntry(s[..|s| - 1], p, v);
    }
  }

  lemma {:induction false} SumOfZeros(s: Vector)
    requires forall d :: 0 <= d < |s| ==> s[d] == 0.0
    ensures Sum(s) == 0.0
    decreases |s|
  {
    if |s| > 0 {
      SumOfZeros(s[..|s| - 1]);
    }
  }

  /** Changing one entry of a sequence changes its sum by the same amount. */
  lemma SumReplaceOne(x: Vector, z: Vector, p: int)
    requires |x| == |z| && 0 <= p < |x|
    requires forall d :: 0 <= d < |x| && d != p ==> z[d] == x[d]
    ensures Sum(z) == Sum(x) - x[p] + z[p]
  {
    var e := seq(|x|, d requires 0 <= d < |x| => if d == p then z[p] - x[p] else 0.0);
    SumSingleEntry(e, p, z[p] - x[p]);
    SumPointwiseAdd(x, e, z);
  }

  /** Dot product against a difference of two vectors. */
  lemma DotPointwiseSub(x: Vector, u: Vector, w: Vector, y: Vector)
    requires |x| == |u| == |w| == |y|
    requires forall d :: 0 <= d < |y| ==> y[d] == u[d] - w[d]
    ensures DotProduct(x, y) == DotProduct(x, u) - DotProduct(x, w)
  {
    var zy, zu, zw := ZipProducts(x, y), ZipProducts(x, u), ZipProducts(x, w);
    forall d | 0 <= d < |zy|
      ensures zy[d] == zu[d] - zw[d]
    {
      assert zy[d] == x[d] * (u[d] - w[d]);
    }
    SumPointwiseSub(zu, zw, zy);
  }

  /** Dot product against a negated vector. */
  lemma DotPointwiseNegRight(x: Vector, u: Vector, y: Vector)
    requires |x| == |u| == |y|
    requires forall d :: 0 <= d < |y| ==> y[d] == -u[d]
    ensures DotProduct(x, y) == -DotProduct(x, u)
  {
    var zy, zu := ZipProducts(x, y), ZipProducts(x, u);
    forall d | 0 <= d < |zy|
      ensures zy[d] == -zu[d]
    {
      assert zy[d] == x[d] * -u[d];
    }
    SumPointwiseNeg(zu, zy);
  }

  /** Dot product of a negated vector. */
  lemma DotPointwiseNegLeft(x: Vector, y: Vector, v: Vector)
    requires |x| == |y| == |v|
    requires forall d :: 0 <= d < |y| ==> y[d] == -x[d]
    ensures DotProduct(y, v) == -DotProduct(x, v)
  {
    var zy, zx := ZipProducts(y, v), ZipProducts(x, v);
    forall d | 0 <= d < |zy|
      ensures zy[d] == -zx[d]
    {
      assert zy[d] == -x[d] * v[d];
    }
    SumPointwiseNeg(zx, zy);
  }

  /** Dot product of a sum of two vectors. */
  lemma DotPointwiseAddLeft(x: Vector, y: Vector, z: Vector, v: Vector)
    requires |x| == |y| == |z| == |v|
    requires forall d :: 0 <= d < |z| ==> z[d] == x[d] + y[d]
    ensures DotProduct(z, v) == DotProduct(x, v) + DotProduct(y, v)
  {
    var zz, zx, zy := ZipProducts(z, v), ZipProducts(x, v), ZipProducts(y, v);
    forall d | 0 <= d < |zz|
      ensures zz[d] == zx[d] + zy[d]
    {
      assert zz[d] == (x[d] + y[d]) * v[d];
    }
    SumPointwiseAdd(zx, zy, zz);
  }

  /** Entry c (zero-based) is the sum of column c + 1 of a over rows 1..t. */
  function PartialColumnSums(a: Matrix, n: nat, t: nat): (s: Vector)
    requires IsMatrix(a, n, n) && t <= n
    ensures |s| == n
  {
    seq(n, c requires 0 <= c < n => Sum(Part1(a, 1, t, c + 1)))
  }

  /** The sum over rows 1..t of (row r of a) dotted with v. */
  function SumOfRowDots(a: Matrix, n: nat, t: nat, v: Vector): real
    requires IsMatrix(a, n, n) && t <= n
  {
    if t == 0 then 0.0 else SumOfRowDots(a, n, t - 1, v) + DotProduct(Row(a, t, n), v)
  }

  /** Exchanging the order of summation: the column sums dotted with v equal
      the sum of the row-wise dot products. */
  lemma {:induction false} ColumnSumsDot(a: Matrix, n: nat, t: nat, v: Vector)
    requires IsMatrix(a, n, n) && t <= n && |v| == n
    ensures DotProduct(PartialColumnSums(a, n, t), v) == SumOfRowDots(a, n, t, v)
    decreases t
  {
    var s := PartialColumnSums(a, n, t);
    if t == 0 {
      var z := ZipProducts(s, v);
      forall d | 0 <= d < |z|
        ensures z[d] == 0.0
      {
        assert s[d] == Sum(Part1(a, 1, 0, d + 1));
      }
      SumOfZeros(z);
    } else {
      var prev := PartialColumnSums(a, n, t - 1);
      var row := Row(a, t, n);
      forall d | 0 <= d < n
        ensures s[d] == prev[d] + row[d]
      {
        SumPart1Step(a, 1, t - 1, d + 1);
      }
      DotPointwiseAddLeft(prev, row, s, v);
      ColumnSumsDot(a, n, t - 1, v);
    }
  }

  /** If row r of a dotted with v is ck at r == k, cp at r == p and 0
      elsewhere, the row-wise dot products over rows 1..t add up to the
      weights whose rows lie in 1..t. */
  lemma {:induction false} SumOfRowDotsOfWeights(a: Matrix, n: nat, t: nat, v: Vector,
                                                   k: int, ck: real, p: int, cp: real)
    requires IsMatrix(a, n, n) && t <= n
    requires forall r :: 1 <= r <= n ==>
      DotProduct(Row(a, r, n), v) == (if r == k then ck else 0.0) + (if r == p then cp else 0.0)
    ensures SumOfRowDots(a, n, t, v) ==
      (if 1 <= k <= t then ck else 0.0) + (if 1 <= p <= t then cp else 0.0)
    decreases t
  {
    if t > 0 {
      SumOfRowDotsOfWeights(a, n, t - 1, v, k, ck, p, cp);
    }
  }
}
