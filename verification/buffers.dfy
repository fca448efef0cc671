/** The array helpers of the COBYLA port: slices over inclusive index ranges of
    vectors and matrices, element-wise transforms of one matrix column or row,
    and the dot product of two enumerations.

    Buffers are one-based, as in the Fortran original: a vector of n entries is
    held in a sequence of length n + 1 and a matrix of r rows and c columns in a
    sequence of r + 1 rows of c + 1 entries each. Row 0 and column 0 are never
    written by the modelled code, except column 0 of datmat, which the
    recording of a vertex fills when no vertex is chosen to drop (jdrop = 0).
    The program does read them: the minimum over the con buffer includes
    slot 0, and on the jdrop = 0 path the repair step reads row 0 of simi,
    writes column 0 of sim and divides row 0 of simi by a zero sum.
    Doubles are modelled as exact reals. */
module Buffers {

  type Vector = seq<real>
  type Matrix = seq<seq<real>>

  /** `a` is a one-based buffer with rows 0..rows and columns 0..cols. */
  predicate IsMatrix(a: Matrix, rows: nat, cols: nat)
  {
    |a| == rows + 1 && forall i :: 0 <= i < |a| ==> |a[i]| == cols + 1
  }

  /** PART: the entries src[first..last] (both ends included) copied into a
      fresh zero-based array. An empty range (last == first - 1) yields an empty array. */
  function Part(src: Vector, first: int, last: int): (r: Vector)
    requires first <= last + 1
    requires first <= last ==> 0 <= first && last < |src|
    ensures |r| == last - first + 1
    ensures forall d :: 0 <= d < |r| ==> (r[d] == src[first + d])
    decreases last - first + 1
  {
    if first > last then [] else [src[first]] + Part(src, first + 1, last)
  }

  /** PART1: rows first..last of column fix2 of a matrix. */
  function Part1(src: Matrix, first: int, last: int, fix2: int): (r: Vector)
    requires first <= last + 1
    requires first <= last ==> 0 <= first && last < |src| && 0 <= fix2
    requires forall i :: first <= i <= last ==> fix2 < |src[i]|
    ensures |r| == last - first + 1
    ensures forall d :: 0 <= d < |r| ==> (r[d] == src[first + d][fix2])
    decreases last - first + 1
  {
    if first > last then [] else [src[first][fix2]] + Part1(src, first + 1, last, fix2)
  }

  /** PART2: columns first..last of row fix1 of a matrix. */
  function Part2(src: Matrix, fix1: int, first: int, last: int): (r: Vector)
    requires first <= last + 1
    requires first <= last ==> 0 <= fix1 < |src| && 0 <= first && last < |src[fix1]|
    ensures |r| == last - first + 1
    ensures forall d :: 0 <= d < |r| ==> (r[d] == src[fix1][first + d])
    decreases last - first + 1
  {
    if first > last then [] else [src[fix1][first]] + Part2(src, fix1, first + 1, last)
  }

  /** TRANSFORM1: replaces every entry of column j in rows first..last by its
      image under func; every other entry keeps its value. */
  function Transform1(a: Matrix, first: int, last: int, j: int, func: real -> real): (r: Matrix)
    requires first <= last ==> 0 <= first && last < |a| && 0 <= j
    requires forall i :: first <= i <= last ==> j < |a[i]|
    ensures |r| == |a|
    ensures forall i :: 0 <= i < |a| ==> |r[i]| == |a[i]|
    ensures forall i, k :: 0 <= i < |a| && 0 <= k < |a[i]| ==>
      r[i][k] == (if first <= i <= last && k == j then func(a[i][k]) else a[i][k])
    decreases last - first + 1
  {
    if first > last then a
    else Transform1(a[first := a[first][j := func(a[first][j])]], first + 1, last, j, func)
  }

  /** TRANSFORM2: replaces every entry of row i in columns first..last by its
      image under func; every other entry keeps its value. */
  function Transform2(a: Matrix, i: int, first: int, last: int, func: real -> real): (r: Matrix)
    requires first <= last ==> 0 <= i < |a| && 0 <= first && last < |a[i]|
    ensures |r| == |a|
    ensures forall k :: 0 <= k < |a| ==> |r[k]| == |a[k]|
    ensures forall k, c :: 0 <= k < |a| && 0 <= c < |a[k]| ==>
      r[k][c] == (if k == i && first <= c <= last then func(a[k][c]) else a[k][c])
    decreases last - first + 1
  {
    if first > last then a
    else Transform2(a[i := a[i][first := func(a[i][first])]], i, first + 1, last, func)
  }

  /** The buffer a with entry (r, c) replaced by v: the assignment a[r, c] = v. */
  function SetEntry(a: Matrix, r: int, c: int, v: real): (b: Matrix)
    requires 0 <= r < |a| && 0 <= c < |a[r]|
    ensures |b| == |a| && forall i :: 0 <= i < |a| ==> |b[i]| == |a[i]|
  {
    a[r := a[r][c := v]]
  }

  /** Enumerable.Sum: a left fold of + starting from 0. */
  function Sum(s: seq<real>): real
  {
    if |s| == 0 then 0.0 else Sum(s[..|s| - 1]) + s[|s| - 1]
  }

  function Min(a: int, b: int): int
  {
    if a < b then a else b
  }

  /** Enumerable.Zip with multiplication: pairs entries up to the end of the
      shorter operand and drops the rest of the longer one. */
  function ZipProducts(a: seq<real>, b: seq<real>): (r: seq<real>)
    ensures |r| == Min(|a|, |b|)
    ensures forall d :: 0 <= d < |r| ==> r[d] == a[d] * b[d]
  {
    seq(Min(|a|, |b|), d requires 0 <= d < Min(|a|, |b|) => a[d] * b[d])
  }

  /** DOT_PRODUCT: the sum of the pairwise products of the common prefix. */
  function DotProduct(a: seq<real>, b: seq<real>): (r: real)
    ensures |a| == 0 || |b| == 0 ==> r == 0.0
  {
    Sum(ZipProducts(a, b))
  }

  /** Sums over sequences with the same entries are equal. */
  lemma SumExtensional(s: seq<real>, t: seq<real>)
    requires |s| == |t|
    requires forall d :: 0 <= d < |s| ==> s[d] == t[d]
    ensures Sum(s) == Sum(t)
  {
    assert s == t;
  }

  /** The dot product does not depend on the order of its operands. */
  lemma DotProductSymmetric(a: seq<real>, b: seq<real>)
    ensures DotProduct(a, b) == DotProduct(b, a)
  {
    SumExtensional(ZipProducts(a, b), ZipProducts(b, a));
  }

  /** Zip truncation: only the common prefix of the two operands is used. */
  lemma DotProductTruncates(a: seq<real>, b: seq<real>, k: nat)
    requires k == Min(|a|, |b|)
    ensures DotProduct(a, b) == DotProduct(a[..k], b[..k])
  {
    SumExtensional(ZipProducts(a, b), ZipProducts(a[..k], b[..k]));
  }

  /** Appending one pair of entries adds their product to the dot product. */
  lemma {:induction false} DotProductSnoc(a: seq<real>, b: seq<real>, x: real, y: real)
    requires |a| == |b|
    ensures DotProduct(a + [x], b + [y]) == DotProduct(a, b) + x * y
  {
    var z := ZipProducts(a + [x], b + [y]);
    SumExtensional(z[..|z| - 1], ZipProducts(a, b));
  }

  /** Extending a column slice by one row adds that row's entry to its sum. */
  lemma SumPart1Step(src: seq<seq<real>>, first: int, last: int, c: int)
    requires first <= last + 1
    requires 0 <= first && last + 1 < |src| && 0 <= c
    requires forall i :: first <= i <= last + 1 ==> c < |src[i]|
    ensures Sum(Part1(src, first, last + 1, c)) == Sum(Part1(src, first, last, c)) + src[last + 1][c]
  {
    var s := Part1(src, first, last + 1, c);
    SumExtensional(s[..|s| - 1], Part1(src, first, last, c));
  }

  /** Slicing row i with PART2 gives the same entries as slicing the row
      vector a[i] with PART. */
  lemma Part2IsPartOfRow(a: Matrix, i: int, first: int, last: int)
    requires first <= last + 1
    requires 0 <= i < |a|
    requires first <= last ==> 0 <= first && last < |a[i]|
    ensures Part2(a, i, first, last) == Part(a[i], first, last)
  {
  }

  /** Reading back a transformed column with PART1 yields func applied to
      each entry of the original slice. */
  lemma Part1OfTransform1(a: Matrix, first: int, last: int, j: int, func: real -> real)
    requires first <= last + 1
    requires first <= last ==> 0 <= first && last < |a| && 0 <= j
    requires forall i :: first <= i <= last ==> j < |a[i]|
    ensures forall d :: 0 <= d <= last - first ==>
      Part1(Transform1(a, first, last, j, func), first, last, j)[d] == func(Part1(a, first, last, j)[d])
  {
  }

  /** Transforming a column with func and then with an inverse of func
      restores the matrix. */
  lemma Transform1RoundTrip(a: Matrix, first: int, last: int, j: int, func: real -> real, inv: real -> real)
    requires first <= last ==> 0 <= first && last < |a| && 0 <= j
    requires forall i :: first <= i <= last ==> j < |a[i]|
    requires forall x :: inv(func(x)) == x
    ensures Transform1(Transform1(a, first, last, j, func), first, last, j, inv) == a
  {
    var b := Transform1(Transform1(a, first, last, j, func), first, last, j, inv);
    forall i | 0 <= i < |a|
      ensures b[i] == a[i]
    {
      assert forall k :: 0 <= k < |a[i]| ==> b[i][k] == a[i][k];
    }
  }

  /** Transforming a row with func and then with an inverse of func
      restores the matrix. */
  lemma Transform2RoundTrip(a: Matrix, i: int, first: int, last: int, func: real -> real, inv: real -> real)
    requires first <= last ==> 0 <= i < |a| && 0 <= first && last < |a[i]|
    requires forall x :: inv(func(x)) == x
    ensures Transform2(Transform2(a, i, first, last, func), i, first, last, inv) == a
  {
    var b := Transform2(Transform2(a, i, first, last, func), i, first, last, inv);
    forall k | 0 <= k < |a|
      ensures b[k] == a[k]
    {
      assert forall c :: 0 <= c < |a[k]| ==> b[k][c] == a[k][c];
    }
  }
}
