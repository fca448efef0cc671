/** Switching the best vertex into pole position (cobylb, after the choice of
    nbest). Column np = n + 1 of sim holds the pole, the optimal vertex itself;
    columns 1..n hold the displacements of the other vertices from it, and
    simi holds the inverse of those n displacement columns. Column j of datmat
    holds the constraint values, the objective and the greatest constraint
    violation at vertex j. */
module Pivot {
  import opened Buffers
  import opened LinearAlgebra

  /** Entry (r, c) of sim once vertex nbest has become the pole: the pole is
      moved by the displacement of nbest, the displacement of the old pole
      from the new one is minus that displacement, and every other
      displacement is taken relative to the new pole. Row 0 and column 0 are
      untouched. */
  function PivotedSimEntry(sim: Matrix, n: nat, nbest: int, r: int, c: int): real
    requires IsMatrix(sim, n, n + 1) && 1 <= nbest <= n
    requires 0 <= r <= n && 0 <= c <= n + 1
  {
    if r == 0 || c == 0 then sim[r][c]
    else if c == n + 1 then sim[r][n + 1] + sim[r][nbest]
    else if c == nbest then -sim[r][nbest]
    else sim[r][c] - sim[r][nbest]
  }

  /** Entry (r, c) of simi once vertex nbest has become the pole: only row
      nbest changes, to minus the column sums of the old inverse. */
  function PivotedSimiEntry(simi: Matrix, n: nat, nbest: int, r: int, c: int): real
    requires IsMatrix(simi, n, n) && 1 <= nbest <= n
    requires 0 <= r <= n && 0 <= c <= n
  {
    if r == nbest && 1 <= c then -Sum(Part1(simi, 1, n, c)) else simi[r][c]
  }

  /** Entry (r, c) of datmat once columns nbest and np have been exchanged in
      rows 1..mpp. */
  function SwappedDataEntry(datmat: Matrix, mpp: nat, n: nat, nbest: int, r: int, c: int): real
    requires IsMatrix(datmat, mpp, n + 1) && 1 <= nbest <= n + 1
    requires 0 <= r <= mpp && 0 <= c <= n + 1
  {
    if 1 <= r && c == n + 1 then datmat[r][nbest]
    else if 1 <= r && c == nbest then datmat[r][n + 1]
    else datmat[r][c]
  }

  /** Coordinate r of vertex j of the simplex stored in sim: the pole for
      j == np, the pole plus displacement j otherwise. */
  function VertexCoordinate(sim: Matrix, n: nat, j: int, r: int): real
    requires IsMatrix(sim, n, n + 1) && 1 <= j <= n + 1 && 1 <= r <= n
  {
    if j == n + 1 then sim[r][n + 1] else sim[r][n + 1] + sim[r][j]
  }

  /** The transposition of vertex labels nbest and np. */
  function Exchange(j: int, nbest: int, np: int): int
  {
    if j == nbest then np else if j == np then nbest else j
  }

  predicate SimPivoted(sim: Matrix, sim': Matrix, n: nat, nbest: int)
    requires IsMatrix(sim, n, n + 1) && IsMatrix(sim', n, n + 1) && 1 <= nbest <= n
  {
    forall r, c :: 0 <= r <= n && 0 <= c <= n + 1 ==>
      sim'[r][c] == PivotedSimEntry(sim, n, nbest, r, c)
  }

  predicate SimiPivoted(simi: Matrix, simi': Matrix, n: nat, nbest: int)
    requires IsMatrix(simi, n, n) && IsMatrix(simi', n, n) && 1 <= nbest <= n
  {
    forall r, c :: 0 <= r <= n && 0 <= c <= n ==>
      simi'[r][c] == PivotedSimiEntry(simi, n, nbest, r, c)
  }

  /** The first loop of the pole switch: exchange columns nbest and np of
      datmat in rows 1..mpp. */
  method SwapDataColumns(datmat: Matrix, n: nat, mpp: nat, nbest: int) returns (datmat': Matrix)
    requires IsMatrix(datmat, mpp, n + 1) && 1 <= nbest <= n + 1
    ensures IsMatrix(datmat', mpp, n + 1)
    ensures forall r, c :: 0 <= r <= mpp && 0 <= c <= n + 1 ==>
      datmat'[r][c] == SwappedDataEntry(datmat, mpp, n, nbest, r, c)
  {
    var np := n + 1;
    datmat' := datmat;
    var i := 1;
    while i <= mpp
      invariant 1 <= i <= mpp + 1
      invariant IsMatrix(datmat', mpp, n + 1)
      invariant forall r, c :: 0 <= r <= mpp && 0 <= c <= n + 1 ==>
        datmat'[r][c] == (if r < i then SwappedDataEntry(datmat, mpp, n, nbest, r, c) else datmat[r][c])
    {
      var temp := datmat'[i][np];
      datmat' := SetEntry(datmat', i, np, datmat'[i][nbest]);
      datmat' := SetEntry(datmat', i, nbest, temp);
      i := i + 1;
    }
  }

  /** The second loop of the pole switch: for each row i of sim move the pole
      by the displacement of nbest and re-base the displacement columns on
      the new pole, and overwrite entry (nbest, i) of simi with minus the sum
      of column i of simi. simi is updated in place; column i is read before
      any entry of it is overwritten. */
  method MovePole(sim: Matrix, simi: Matrix, n: nat, nbest: int) returns (sim': Matrix, simi': Matrix)
    requires IsMatrix(sim, n, n + 1) && IsMatrix(simi, n, n) && 1 <= nbest <= n
    ensures IsMatrix(sim', n, n + 1) && IsMatrix(simi', n, n)
    ensures SimPivoted(sim, sim', n, nbest) && SimiPivoted(simi, simi', n, nbest)
  {
    var np := n + 1;
    sim', simi' := sim, simi;
    var i := 1;
    while i <= n
      invariant 1 <= i <= n + 1
      invariant IsMatrix(sim', n, n + 1) && IsMatrix(simi', n, n)
      invariant forall r, c :: 0 <= r <= n && 0 <= c <= n + 1 ==>
        sim'[r][c] == (if r < i then PivotedSimEntry(sim, n, nbest, r, c) else sim[r][c])
      invariant forall r, c :: 0 <= r <= n && 0 <= c <= n ==>
        simi'[r][c] == (if c < i then PivotedSimiEntry(simi, n, nbest, r, c) else simi[r][c])
    {
      var temp := sim'[i][nbest];
      sim' := SetEntry(sim', i, nbest, 0.0);
      sim' := SetEntry(sim', i, np, sim'[i][np] + temp);
      var tempa := 0.0;
      var k := 1;
      while k <= n
        invariant 1 <= k <= n + 1
        invariant IsMatrix(sim', n, n + 1)
        invariant temp == sim[i][nbest]
        invariant tempa == -Sum(Part1(simi, 1, k - 1, i))
        invariant forall r, c :: 0 <= r <= n && 0 <= c <= n + 1 && r != i ==>
          sim'[r][c] == (if r < i then PivotedSimEntry(sim, n, nbest, r, c) else sim[r][c])
        invariant forall c :: 0 <= c <= n + 1 ==>
          sim'[i][c] == (if (1 <= c < k || c == np) then PivotedSimEntry(sim, n, nbest, i, c)
                         else if c == nbest then 0.0 else sim[i][c])
      {
        sim' := SetEntry(sim', i, k, sim'[i][k] - temp);
        SumPart1Step(simi, 1, k - 1, i);
        tempa := tempa - simi'[k][i];
        k := k + 1;
      }
      simi' := SetEntry(simi', nbest, i, tempa);
      i := i + 1;
    }
  }

  /** The pole switch of cobylb: when nbest <= n, swap the datmat columns
      nbest and np, then move the pole and update simi. */
  method SwitchToPole(sim: Matrix, simi: Matrix, datmat: Matrix, n: nat, mpp: nat, nbest: int)
    returns (sim': Matrix, simi': Matrix, datmat': Matrix)
    requires IsMatrix(sim, n, n + 1) && IsMatrix(simi, n, n) && IsMatrix(datmat, mpp, n + 1)
    requires 1 <= nbest <= n + 1
    ensures IsMatrix(sim', n, n + 1) && IsMatrix(simi', n, n) && IsMatrix(datmat', mpp, n + 1)
    ensures nbest == n + 1 ==> sim' == sim && simi' == simi && datmat' == datmat
    ensures forall r, c :: 0 <= r <= mpp && 0 <= c <= n + 1 ==>
      datmat'[r][c] == SwappedDataEntry(datmat, mpp, n, nbest, r, c)
    ensures nbest <= n ==> SimPivoted(sim, sim', n, nbest) && SimiPivoted(simi, simi', n, nbest)
    ensures forall j, r :: 1 <= j <= n + 1 && 1 <= r <= n ==>
      VertexCoordinate(sim', n, j, r) == VertexCoordinate(sim, n, Exchange(j, nbest, n + 1), r)
    ensures IsLeftInverse(simi, sim, n) ==> IsLeftInverse(simi', sim', n)
  {
    sim', simi', datmat' := sim, simi, datmat;
    if nbest <= n {
      datmat' := SwapDataColumns(datmat, n, mpp, nbest);
      sim', simi' := MovePole(sim, simi, n, nbest);
      PivotRelabelsVertices(sim, sim', n, nbest);
      if IsLeftInverse(simi, sim, n) {
        PivotKeepsInverse(sim, simi, sim', simi', n, nbest);
      }
    }
  }

  /** The pole switch only relabels the vertices: vertex nbest becomes the
      pole, the old pole takes label nbest, and every other vertex keeps its
      position in space. */
  lemma PivotRelabelsVertices(sim: Matrix, sim': Matrix, n: nat, nbest: int)
    requires IsMatrix(sim, n, n + 1) && IsMatrix(sim', n, n + 1) && 1 <= nbest <= n
    requires SimPivoted(sim, sim', n, nbest)
    ensures forall j, r :: 1 <= j <= n + 1 && 1 <= r <= n ==>
      VertexCoordinate(sim', n, j, r) == VertexCoordinate(sim, n, Exchange(j, nbest, n + 1), r)
  {
    forall j, r | 1 <= j <= n + 1 && 1 <= r <= n
      ensures VertexCoordinate(sim', n, j, r) == VertexCoordinate(sim, n, Exchange(j, nbest, n + 1), r)
    {
      assert sim'[r][n + 1] == PivotedSimEntry(sim, n, nbest, r, n + 1);
      assert sim'[r][j] == PivotedSimEntry(sim, n, nbest, r, j);
    }
  }

  /** Row t of the old simi against column j of the new sim: displacement j
      re-based on the new pole p meets the old rows t == j and t == p. */
  lemma OldRowAgainstNewColumn(sim: Matrix, simi: Matrix, sim': Matrix, n: nat, p: int, j: int, t: int)
    requires IsMatrix(sim, n, n + 1) && IsMatrix(simi, n, n) && IsMatrix(sim', n, n + 1)
    requires 1 <= p <= n && 1 <= j <= n && 1 <= t <= n
    requires IsLeftInverse(simi, sim, n)
    requires SimPivoted(sim, sim', n, p)
    ensures DotProduct(Row(simi, t, n), Column(sim', j, n)) ==
      (if t == (if j != p then j else 0) then 1.0 else 0.0) + (if t == p then -1.0 else 0.0)
  {
    var col := Column(sim', j, n);
    assert DotProduct(Row(simi, t, n), Column(sim, p, n)) == Delta(t, p);
    if j != p {
      assert DotProduct(Row(simi, t, n), Column(sim, j, n)) == Delta(t, j);
      forall d | 0 <= d < n
        ensures col[d] == Column(sim, j, n)[d] - Column(sim, p, n)[d]
      {
        assert sim'[d + 1][j] == PivotedSimEntry(sim, n, p, d + 1, j);
      }
      DotPointwiseSub(Row(simi, t, n), Column(sim, j, n), Column(sim, p, n), col);
    } else {
      forall d | 0 <= d < n
        ensures col[d] == -Column(sim, p, n)[d]
      {
        assert sim'[d + 1][p] == PivotedSimEntry(sim, n, p, d + 1, p);
      }
      DotPointwiseNegRight(Row(simi, t, n), Column(sim, p, n), col);
    }
  }

  /** The rewritten row p of simi against any vector v is minus the sum of
      the old rows against v. */
  lemma NewRowAgainst(simi: Matrix, simi': Matrix, n: nat, p: int, v: Vector)
    requires IsMatrix(simi, n, n) && IsMatrix(simi', n, n) && 1 <= p <= n && |v| == n
    requires SimiPivoted(simi, simi', n, p)
    ensures DotProduct(Row(simi', p, n), v) == -SumOfRowDots(simi, n, n, v)
  {
    var sums := PartialColumnSums(simi, n, n);
    var row := Row(simi', p, n);
    forall d | 0 <= d < n
      ensures row[d] == -sums[d]
    {
      assert row[d] == simi'[p][d + 1];
      assert simi'[p][d + 1] == PivotedSimiEntry(simi, n, p, p, d + 1);
      assert sums[d] == Sum(Part1(simi, 1, n, d + 1));
    }
    DotPointwiseNegLeft(sums, row, v);
    ColumnSumsDot(simi, n, n, v);
  }

  /** One entry of (new simi) x (new sim) in exact arithmetic. */
  lemma PivotInverseEntry(sim: Matrix, simi: Matrix, sim': Matrix, simi': Matrix,
                          n: nat, p: int, i: int, j: int)
    requires IsMatrix(sim, n, n + 1) && IsMatrix(simi, n, n)
    requires IsMatrix(sim', n, n + 1) && IsMatrix(simi', n, n)
    requires 1 <= p <= n && 1 <= i <= n && 1 <= j <= n
    requires IsLeftInverse(simi, sim, n)
    requires SimPivoted(sim, sim', n, p) && SimiPivoted(simi, simi', n, p)
    ensures DotProduct(Row(simi', i, n), Column(sim', j, n)) == Delta(i, j)
  {
    var col := Column(sim', j, n);
    if i != p {
      forall d | 0 <= d < n
        ensures Row(simi', i, n)[d] == Row(simi, i, n)[d]
      {
        assert simi'[i][d + 1] == PivotedSimiEntry(simi, n, p, i, d + 1);
      }
      assert Row(simi', i, n) == Row(simi, i, n);
      OldRowAgainstNewColumn(sim, simi, sim', n, p, j, i);
    } else {
      forall t | 1 <= t <= n
        ensures DotProduct(Row(simi, t, n), col) ==
          (if t == (if j != p then j else 0) then 1.0 else 0.0) + (if t == p then -1.0 else 0.0)
      {
        OldRowAgainstNewColumn(sim, simi, sim', n, p, j, t);
      }
      NewRowAgainst(simi, simi', n, p, col);
      SumOfRowDotsOfWeights(simi, n, n, col, if j != p then j else 0, 1.0, p, -1.0);
    }
  }

  /** In exact arithmetic the pole switch keeps simi the inverse of the
      displacement columns of sim. */
  lemma PivotKeepsInverse(sim: Matrix, simi: Matrix, sim': Matrix, simi': Matrix, n: nat, p: int)
    requires IsMatrix(sim, n, n + 1) && IsMatrix(simi, n, n)
    requires IsMatrix(sim', n, n + 1) && IsMatrix(simi', n, n)
    requires 1 <= p <= n
    requires IsLeftInverse(simi, sim, n)
    requires SimPivoted(sim, sim', n, p) && SimiPivoted(simi, simi', n, p)
    ensures IsLeftInverse(simi', sim', n)
  {
    forall i, j | 1 <= i <= n && 1 <= j <= n
      ensures DotProduct(Row(simi', i, n), Column(sim', j, n)) == Delta(i, j)
    {
      PivotInverseEntry(sim, simi, sim', simi', n, p, i, j);
    }
  }

  /** Switching the same vertex into pole position twice restores sim and
      simi: the relabelling is a transposition, and the new row nbest of simi
      yields the old one when it is rewritten again. */
  lemma PivotTwiceRestores(sim: Matrix, sim': Matrix, sim'': Matrix,
                           simi: Matrix, simi': Matrix, simi'': Matrix, n: nat, p: int)
    requires IsMatrix(sim, n, n + 1) && IsMatrix(sim', n, n + 1) && IsMatrix(sim'', n, n + 1)
    requires IsMatrix(simi, n, n) && IsMatrix(simi', n, n) && IsMatrix(simi'', n, n)
    requires 1 <= p <= n
    requires SimPivoted(sim, sim', n, p) && SimPivoted(sim', sim'', n, p)
    requires SimiPivoted(simi, simi', n, p) && SimiPivoted(simi', simi'', n, p)
    ensures sim'' == sim && simi'' == simi
  {
    forall r | 0 <= r <= n
      ensures sim''[r] == sim[r]
    {
      forall c | 0 <= c <= n + 1
        ensures sim''[r][c] == sim[r][c]
      {
        assert sim''[r][c] == PivotedSimEntry(sim', n, p, r, c);
        assert sim'[r][c] == PivotedSimEntry(sim, n, p, r, c);
        assert sim'[r][p] == PivotedSimEntry(sim, n, p, r, p);
      }
    }
    forall r | 0 <= r <= n
      ensures simi''[r] == simi[r]
    {
      forall c | 0 <= c <= n
        ensures simi''[r][c] == simi[r][c]
      {
        assert simi''[r][c] == PivotedSimiEntry(simi', n, p, r, c);
        if r == p && 1 <= c {
          var old_column, new_column := Part1(simi, 1, n, c), Part1(simi', 1, n, c);
          forall d | 0 <= d < n && d != p - 1
            ensures new_column[d] == old_column[d]
          {
            assert simi'[d + 1][c] == PivotedSimiEntry(simi, n, p, d + 1, c);
          }
          assert new_column[p - 1] == simi'[p][c] == PivotedSimiEntry(simi, n, p, p, c);
          SumReplaceOne(old_column, new_column, p - 1);
        } else {
          assert simi'[r][c] == PivotedSimiEntry(simi, n, p, r, c);
        }
      }
    }
  }
}
