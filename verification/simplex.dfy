/** The initial simplex of cobylb: the caller's point is the pole (column
    np = n + 1 of sim), the other vertices lie rho along each coordinate axis
    (so the displacement block is rho times the identity), and simi starts as
    (1 / rho) times the identity. */
module InitialSimplex {
  import opened Buffers
  import opened LinearAlgebra

  /** The simplex buffers: sim is n x (n + 1), simi is n x n, both one-based. */
  datatype Simplex = Simplex(sim: Matrix, simi: Matrix)

  /** A freshly allocated buffer: every entry is zero. */
  function Zeros(rows: nat, cols: nat): (a: Matrix)
    ensures IsMatrix(a, rows, cols)
    ensures forall i, j :: 0 <= i <= rows && 0 <= j <= cols ==> a[i][j] == 0.0
  {
    seq(rows + 1, i => seq(cols + 1, j => 0.0))
  }

  /** The allocation of SIM and SIMI followed by the loop that places x in
      the last column of sim, rho on the diagonal of sim and 1 / rho on the
      diagonal of simi. */
  method BuildInitialSimplex(x: Vector, n: nat, rho: real) returns (s: Simplex)
    requires |x| > n
    requires rho != 0.0
    ensures IsMatrix(s.sim, n, n + 1) && IsMatrix(s.simi, n, n)
    ensures forall i :: 1 <= i <= n ==> s.sim[i][n + 1] == x[i]
    ensures s.sim[0][n + 1] == 0.0
    ensures forall i, j :: 0 <= i <= n && 0 <= j <= n ==>
      s.sim[i][j] == (if 1 <= i && i == j then rho else 0.0)
    ensures forall i, j :: 0 <= i <= n && 0 <= j <= n ==>
      s.simi[i][j] == (if 1 <= i && i == j then 1.0 / rho else 0.0)
    ensures IsLeftInverse(s.simi, s.sim, n)
  {
    var temp := 1.0 / rho;
    var sim := Zeros(n, n + 1);
    var simi := Zeros(n, n);
    var i := 1;
    while i <= n
      invariant 1 <= i <= n + 1
      invariant IsMatrix(sim, n, n + 1) && IsMatrix(simi, n, n)
      invariant forall r :: 0 <= r <= n ==> sim[r][n + 1] == (if 1 <= r < i then x[r] else 0.0)
      invariant forall r, c :: 0 <= r <= n && 0 <= c <= n ==>
        sim[r][c] == (if 1 <= r < i && r == c then rho else 0.0)
      invariant forall r, c :: 0 <= r <= n && 0 <= c <= n ==>
        simi[r][c] == (if 1 <= r < i && r == c then temp else 0.0)
    {
      sim := SetEntry(sim, i, n + 1, x[i]);
      sim := SetEntry(sim, i, i, rho);
      simi := SetEntry(simi, i, i, temp);
      i := i + 1;
    }
    ScaledIdentityInverse(sim, simi, n, rho);
    s := Simplex(sim, simi);
  }

  /** (1 / rho) I is the inverse of rho I. */
  lemma ScaledIdentityInverse(sim: Matrix, simi: Matrix, n: nat, rho: real)
    requires IsMatrix(sim, n, n + 1) && IsMatrix(simi, n, n) && rho != 0.0
    requires forall i, j :: 0 <= i <= n && 0 <= j <= n ==>
      sim[i][j] == (if 1 <= i && i == j then rho else 0.0)
    requires forall i, j :: 0 <= i <= n && 0 <= j <= n ==>
      simi[i][j] == (if 1 <= i && i == j then 1.0 / rho else 0.0)
    ensures IsLeftInverse(simi, sim, n)
  {
    forall i, j | 1 <= i <= n && 1 <= j <= n
      ensures DotProduct(Row(simi, i, n), Column(sim, j, n)) == Delta(i, j)
    {
      var row, col := Row(simi, i, n), Column(sim, j, n);
      var z := ZipProducts(row, col);
      forall d | 0 <= d < |z|
        ensures z[d] == (if d == i - 1 then Delta(i, j) else 0.0)
      {
        assert row[d] == simi[i][d + 1] && col[d] == sim[d + 1][j];
        if d == i - 1 {
          assert (1.0 / rho) * rho == 1.0;
        }
      }
      SumSingleEntry(z, i - 1, Delta(i, j));
    }
  }
}
