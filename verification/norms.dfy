/** The squared lengths behind sigma and eta: wsig is the squared length of
    row j of simi and weta the squared length of column j of sim. The port
    sums the squares with an unseeded Aggregate, which takes the first entry
    as the initial accumulator without squaring it. */
module EdgeNorms {
  import opened Buffers
  import opened LinearAlgebra

  /** a * b together with its sign: positive when both factors have the same
      strict sign, zero when either factor is zero. The squares below go
      through this function so that these sign facts reach the verifier as
      a contract; stated directly on x * x next to other terms, the solver's
      nonlinear arithmetic does not find them. */
  function Product(a: real, b: real): (r: real)
    ensures (a > 0.0 && b > 0.0) || (a < 0.0 && b < 0.0) ==> r > 0.0
    ensures a == 0.0 || b == 0.0 ==> r == 0.0
  {
    a * b
  }

  /** item * item, as both folds compute it: nonnegative, and nonzero
      whenever item is. A named product only so that these facts travel
      with it (see Product). */
  function Square(x: real): (r: real)
    ensures r >= 0.0
    ensures x != 0.0 ==> r > 0.0
  {
    Product(x, x)
  }

  /** Aggregate((sum, item) => sum + item * item) with no seed: the fold
      starts from s[0] itself and squares only the entries after it. */
  function SquaredNormAsWritten(s: Vector): real
    requires |s| > 0
  {
    if |s| == 1 then s[0]
    else SquaredNormAsWritten(s[..|s| - 1]) + Square(s[|s| - 1])
  }

  /** SUM(v**2): the squared Euclidean length. */
  function SquaredNorm(s: Vector): (r: real)
    ensures r >= 0.0
    ensures r == 0.0 <==> forall i :: 0 <= i < |s| ==> s[i] == 0.0
  {
    if |s| == 0 then 0.0
    else
      var prefix := s[..|s| - 1];
      assert forall i :: 0 <= i < |prefix| ==> prefix[i] == s[i];
      SquaredNorm(prefix) + Square(s[|s| - 1])
  }

  /** A product of two nonzero reals is nonzero. */
  lemma ProductNonzero(a: real, b: real)
    requires a != 0.0 && b != 0.0
    ensures a * b != 0.0
  {
  }

  /** The unseeded fold differs from the sum of squares exactly in its first
      term: s[0] is added where s[0] * s[0] belongs. */
  lemma {:induction false} UnseededAggregateDiscrepancy(s: Vector)
    requires |s| > 0
    ensures SquaredNormAsWritten(s) == SquaredNorm(s) - Square(s[0]) + s[0]
  {
    if |s| == 1 {
      assert s[..0] == [];
    } else {
      var p := s[..|s| - 1];
      UnseededAggregateDiscrepancy(p);
      assert p[0] == s[0];
    }
  }

  /** Hence the two agree exactly when the first entry is 0 or 1. */
  lemma UnseededAggregateAgreesIff(s: Vector)
    requires |s| > 0
    ensures SquaredNormAsWritten(s) == SquaredNorm(s) <==> s[0] == 0.0 || s[0] == 1.0
  {
    UnseededAggregateDiscrepancy(s);
    assert s[0] * s[0] - s[0] == s[0] * (s[0] - 1.0);
    if s[0] != 0.0 && s[0] != 1.0 {
      ProductNonzero(s[0], s[0] - 1.0);
    }
  }

  /** A one-entry row of -1: the port gets wsig = -1, whose square root is
      not a number, where the squared length is 1. */
  lemma NegativeFirstEntryCounterexample()
    ensures SquaredNormAsWritten([-1.0]) == -1.0
    ensures SquaredNorm([-1.0]) == 1.0
  {
    assert [-1.0][..0] == [];
  }

  /** A vector whose only nonzero entry is v at position p has squared length v * v. */
  lemma {:induction false} SquaredNormSingleEntry(s: Vector, p: int, v: real)
    requires 0 <= p < |s| && s[p] == v
    requires forall i :: 0 <= i < |s| && i != p ==> s[i] == 0.0
    ensures SquaredNorm(s) == Square(v)
  {
    var q := s[..|s| - 1];
    if p == |s| - 1 {
      assert SquaredNorm(q) == 0.0;
    } else {
      SquaredNormSingleEntry(q, p, v);
    }
  }

  /** On the initial simplex (rho I and (1 / rho) I) every edge has squared
      length rho * rho and every row of simi squared length 1 / (rho * rho),
      so veta = |rho| and vsig = |rho| before any iteration. */
  lemma InitialSimplexNorms(sim: Matrix, simi: Matrix, n: nat, rho: real, j: int)
    requires IsMatrix(sim, n, n + 1) && IsMatrix(simi, n, n) && rho != 0.0 && 1 <= j <= n
    requires forall i, k :: 0 <= i <= n && 0 <= k <= n ==>
      sim[i][k] == (if 1 <= i && i == k then rho else 0.0)
    requires forall i, k :: 0 <= i <= n && 0 <= k <= n ==>
      simi[i][k] == (if 1 <= i && i == k then 1.0 / rho else 0.0)
    ensures SquaredNorm(Column(sim, j, n)) == Square(rho)
    ensures SquaredNorm(Row(simi, j, n)) == Square(1.0 / rho)
  {
    var col, row := Column(sim, j, n), Row(simi, j, n);
    assert forall d :: 0 <= d < n ==> col[d] == sim[d + 1][j];
    assert forall d :: 0 <= d < n ==> row[d] == simi[j][d + 1];
    SquaredNormSingleEntry(col, j - 1, rho);
    SquaredNormSingleEntry(row, j - 1, 1.0 / rho);
  }

  /** On the initial simplex with n = 1 and rho = 2 the port computes
      wsig = 1 / 2 from the row (1 / 2) instead of 1 / 4, so vsig comes out
      as the square root of 2 instead of 2. */
  lemma InitialSimplexAsWrittenCounterexample()
    ensures SquaredNormAsWritten([0.5]) == 0.5
    ensures SquaredNorm([0.5]) == 0.25
  {
    assert [0.5][..0] == [];
  }
}
