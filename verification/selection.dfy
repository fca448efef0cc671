/** Identifying the optimal vertex of the current simplex (cobylb, before the
    pole switch). Row mp = m + 1 of datmat holds the objective at each vertex
    and row mpp = m + 2 the greatest constraint violation; the merit of a
    vertex is phi = f + parmu * violation. */
module Selection {
  import opened Buffers

  /** The merit phi of vertex j. */
  function Phi(datmat: Matrix, m: nat, n: nat, parmu: real, j: int): real
    requires IsMatrix(datmat, m + 2, n + 1) && 1 <= j <= n + 1
  {
    datmat[m + 1][j] + parmu * datmat[m + 2][j]
  }

  /** The greatest constraint violation recorded for vertex j. */
  function ViolationAt(datmat: Matrix, m: nat, n: nat, j: int): real
    requires IsMatrix(datmat, m + 2, n + 1) && 1 <= j <= n + 1
  {
    datmat[m + 2][j]
  }

  /** Vertex j displaces vertex k as the candidate: a strictly smaller merit,
      or, only while parmu is zero, an equal merit and a strictly smaller
      violation. */
  predicate Beats(datmat: Matrix, m: nat, n: nat, parmu: real, j: int, k: int)
    requires IsMatrix(datmat, m + 2, n + 1) && 1 <= j <= n + 1 && 1 <= k <= n + 1
  {
    || Phi(datmat, m, n, parmu, j) < Phi(datmat, m, n, parmu, k)
    || (parmu == 0.0 && Phi(datmat, m, n, parmu, j) == Phi(datmat, m, n, parmu, k)
        && ViolationAt(datmat, m, n, j) < ViolationAt(datmat, m, n, k))
  }

  /** The order in which the scan meets the vertices: the pole np = n + 1
      first, then 1, 2, ..., n. */
  function ScanPosition(j: int, n: nat): int
  {
    if j == n + 1 then 0 else j
  }

  /** nbest is the vertex the scan settles on: it beats every vertex met
      before it and no vertex met after it beats it. */
  predicate IsSelected(datmat: Matrix, m: nat, n: nat, parmu: real, nbest: int)
    requires IsMatrix(datmat, m + 2, n + 1)
  {
    && 1 <= nbest <= n + 1
    && (forall k :: 1 <= k <= n + 1 && ScanPosition(k, n) < ScanPosition(nbest, n) ==>
          Beats(datmat, m, n, parmu, nbest, k))
    && (forall k :: 1 <= k <= n + 1 && ScanPosition(nbest, n) < ScanPosition(k, n) ==>
          !Beats(datmat, m, n, parmu, k, nbest))
  }

  lemma BeatsTransitive(datmat: Matrix, m: nat, n: nat, parmu: real, a: int, b: int, c: int)
    requires IsMatrix(datmat, m + 2, n + 1) && 1 <= a <= n + 1 && 1 <= b <= n + 1 && 1 <= c <= n + 1
    requires Beats(datmat, m, n, parmu, a, b) && Beats(datmat, m, n, parmu, b, c)
    ensures Beats(datmat, m, n, parmu, a, c)
  {
  }

  /** If a beats b and c does not beat b, then a beats c. */
  lemma BeatsPastUnbeaten(datmat: Matrix, m: nat, n: nat, parmu: real, a: int, b: int, c: int)
    requires IsMatrix(datmat, m + 2, n + 1) && 1 <= a <= n + 1 && 1 <= b <= n + 1 && 1 <= c <= n + 1
    requires Beats(datmat, m, n, parmu, a, b) && !Beats(datmat, m, n, parmu, c, b)
    ensures Beats(datmat, m, n, parmu, a, c)
  {
  }

  /** The scan of cobylb: start from the pole, visit vertices 1..n, and move
      to vertex j whenever j beats the current candidate. */
  method SelectBest(datmat: Matrix, m: nat, n: nat, parmu: real) returns (nbest: int)
    requires IsMatrix(datmat, m + 2, n + 1)
    ensures IsSelected(datmat, m, n, parmu, nbest)
    ensures forall k :: 1 <= k <= n + 1 ==>
      Phi(datmat, m, n, parmu, nbest) <= Phi(datmat, m, n, parmu, k)
    ensures parmu == 0.0 ==> forall k ::
      (1 <= k <= n + 1 && Phi(datmat, m, n, parmu, k) == Phi(datmat, m, n, parmu, nbest)) ==>
        ViolationAt(datmat, m, n, nbest) <= ViolationAt(datmat, m, n, k)
  {
    var mp, mpp, np := m + 1, m + 2, n + 1;
    var phimin := Phi(datmat, m, n, parmu, np);
    nbest := np;
    var j := 1;
    while j <= n
      invariant 1 <= j <= n + 1
      invariant 1 <= nbest <= n + 1 && ScanPosition(nbest, n) < j
      invariant phimin == Phi(datmat, m, n, parmu, nbest)
      invariant forall k :: 1 <= k <= n + 1 && ScanPosition(k, n) < ScanPosition(nbest, n) ==>
        Beats(datmat, m, n, parmu, nbest, k)
      invariant forall k :: 1 <= k <= n + 1 && ScanPosition(nbest, n) < ScanPosition(k, n) < j ==>
        !Beats(datmat, m, n, parmu, k, nbest)
    {
      var temp := Phi(datmat, m, n, parmu, j);
      if temp < phimin || (temp == phimin && parmu == 0.0 && datmat[mpp][j] < datmat[mpp][nbest]) {
        var old_best := nbest;
        assert Beats(datmat, m, n, parmu, j, old_best);
        forall k | 1 <= k <= n + 1 && ScanPosition(k, n) < j
          ensures Beats(datmat, m, n, parmu, j, k)
        {
          if ScanPosition(k, n) < ScanPosition(old_best, n) {
            BeatsTransitive(datmat, m, n, parmu, j, old_best, k);
          } else if k != old_best {
            BeatsPastUnbeaten(datmat, m, n, parmu, j, old_best, k);
          }
        }
        nbest := j;
        phimin := temp;
      }
      j := j + 1;
    }
    SelectedIsArgmin(datmat, m, n, parmu, nbest);
  }

  /** The selected vertex minimises phi, and while parmu is zero it has the
      least violation among the minimisers of phi. */
  lemma SelectedIsArgmin(datmat: Matrix, m: nat, n: nat, parmu: real, nbest: int)
    requires IsMatrix(datmat, m + 2, n + 1)
    requires IsSelected(datmat, m, n, parmu, nbest)
    ensures forall k :: 1 <= k <= n + 1 ==>
      Phi(datmat, m, n, parmu, nbest) <= Phi(datmat, m, n, parmu, k)
    ensures parmu == 0.0 ==> forall k ::
      (1 <= k <= n + 1 && Phi(datmat, m, n, parmu, k) == Phi(datmat, m, n, parmu, nbest)) ==>
        ViolationAt(datmat, m, n, nbest) <= ViolationAt(datmat, m, n, k)
  {
    forall k | 1 <= k <= n + 1 && k != nbest
      ensures Phi(datmat, m, n, parmu, nbest) <= Phi(datmat, m, n, parmu, k)
      ensures parmu == 0.0 && Phi(datmat, m, n, parmu, k) == Phi(datmat, m, n, parmu, nbest) ==>
        ViolationAt(datmat, m, n, nbest) <= ViolationAt(datmat, m, n, k)
    {
      if ScanPosition(k, n) < ScanPosition(nbest, n) {
        assert Beats(datmat, m, n, parmu, nbest, k);
      } else {
        assert !Beats(datmat, m, n, parmu, k, nbest);
      }
    }
  }

  /** The selection rule determines the vertex uniquely. */
  lemma SelectionIsUnique(datmat: Matrix, m: nat, n: nat, parmu: real, a: int, b: int)
    requires IsMatrix(datmat, m + 2, n + 1)
    requires IsSelected(datmat, m, n, parmu, a) && IsSelected(datmat, m, n, parmu, b)
    ensures a == b
  {
    if ScanPosition(a, n) < ScanPosition(b, n) {
      assert false;
    } else if ScanPosition(b, n) < ScanPosition(a, n) {
      assert false;
    }
  }
}
