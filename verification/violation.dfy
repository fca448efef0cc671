/** The greatest constraint violation RESMAX of a freshly evaluated point and
    the column of datmat that records the point. The con buffer of cobylb
    has slots 0..m + 2: slots 1..m receive the constraint values of the
    latest evaluation, slot mp = m + 1 and slot mpp = m + 2 still hold what
    earlier steps stored there, and slot 0 is never written (it stays 0, and
    the minimum over the buffer reads it). */
module Violation {
  import opened Buffers

  /** Enumerable.Min over every slot of a buffer. */
  function MinEntry(s: Vector): (r: real)
    requires |s| > 0
    ensures forall i :: 0 <= i < |s| ==> r <= s[i]
    ensures exists i :: 0 <= i < |s| && r == s[i]
  {
    if |s| == 1 then s[0]
    else
      var t := MinEntry(s[..|s| - 1]);
      if s[|s| - 1] < t then s[|s| - 1] else t
  }

  /** RESMAX as the port computes it: minus the least entry of the whole con
      buffer, slot 0 and the two stale slots above m included. */
  function MaxViolationAsWritten(con: Vector, m: nat): real
    requires |con| > 0
  {
    if m > 0 then -MinEntry(con) else 0.0
  }

  /** RESMAX as intended: the running maximum of 0 and -con[k] over
      k = 1..m, i.e. the largest amount by which any of the m constraints
      falls below zero, and zero when all are satisfied. */
  function MaxViolation(con: Vector, m: nat): (r: real)
    requires |con| > m
    ensures r >= 0.0
    ensures forall i :: 1 <= i <= m ==> r >= -con[i]
    ensures r == 0.0 || exists i :: 1 <= i <= m && r == -con[i]
  {
    if m == 0 then 0.0
    else
      var t := MaxViolation(con, m - 1);
      if -con[m] > t then -con[m] else t
  }

  /** An input on which the two differ: one satisfied constraint (value 1)
      after an evaluation whose objective was -5, so the stale slot mp holds
      -5. The port reports a violation of 5 where there is none. */
  lemma StaleObjectiveInflatesViolation()
    ensures MaxViolationAsWritten([0.0, 1.0, -5.0, 0.0], 1) == 5.0
    ensures MaxViolation([0.0, 1.0, -5.0, 0.0], 1) == 0.0
  {
    var con := [0.0, 1.0, -5.0, 0.0];
    assert MinEntry(con[..1]) == 0.0;
    assert con[..2][..1] == con[..1];
    assert MinEntry(con[..2]) == 0.0;
    assert con[..3][..2] == con[..2];
    assert MinEntry(con[..3]) == -5.0;
    assert con[..4][..3] == con[..3];
    assert con[..4] == con;
  }

  /** The two agree exactly when no slot above m holds a value whose
      negation exceeds the true violation; slot 0 being zero is what supplies
      the MAX with zero in the port. */
  lemma AsWrittenAgreesIffStaleSlotsHarmless(con: Vector, m: nat)
    requires |con| > m && m > 0 && con[0] == 0.0
    ensures MaxViolationAsWritten(con, m) == MaxViolation(con, m) <==>
      forall i :: m < i < |con| ==> -con[i] <= MaxViolation(con, m)
  {
    var mv := MaxViolation(con, m);
    var mn := MinEntry(con);
    assert mv <= -mn by {
      assert mn <= con[0];
      if mv != 0.0 {
        var i :| 1 <= i <= m && mv == -con[i];
        assert mn <= con[i];
      }
    }
    if forall i :: m < i < |con| ==> -con[i] <= mv {
      var k :| 0 <= k < |con| && mn == con[k];
      if 1 <= k <= m {
        assert -con[k] <= mv;
      }
    }
  }

  /** With slot 0 at zero, the as-written value is still a nonnegative upper
      bound on every constraint violation; what goes wrong is only that it
      can be too large. */
  lemma AsWrittenIsUpperBound(con: Vector, m: nat)
    requires |con| > m && m > 0 && con[0] == 0.0
    ensures MaxViolationAsWritten(con, m) >= MaxViolation(con, m)
    ensures MaxViolationAsWritten(con, m) >= 0.0
    ensures forall i :: 1 <= i <= m ==> MaxViolationAsWritten(con, m) >= -con[i]
  {
    var mv := MaxViolation(con, m);
    var mn := MinEntry(con);
    assert mn <= con[0];
    if mv != 0.0 {
      var i :| 1 <= i <= m && mv == -con[i];
      assert mn <= con[i];
    }
  }

  /** The lines that store a fresh evaluation, given the RESMAX computed
      for it: con[mp] = f, con[mpp] = resmax, then column jdrop of datmat
      receives con[1..mpp] while every other entry of datmat is kept. When
      resmax is the intended value, or the as-written one with con[0] = 0,
      the recorded violation bounds every recorded constraint value. */
  method RecordVertex(datmat: Matrix, con: Vector, f: real, resmax: real, m: nat, n: nat, jdrop: int)
    returns (con': Vector, datmat': Matrix)
    requires IsMatrix(datmat, m + 2, n + 1) && |con| == m + 3 && 0 <= jdrop <= n + 1
    ensures |con'| == m + 3 && IsMatrix(datmat', m + 2, n + 1)
    ensures con'[m + 1] == f && con'[m + 2] == resmax
    ensures forall i :: 0 <= i <= m ==> con'[i] == con[i]
    ensures forall i, j :: 0 <= i <= m + 2 && 0 <= j <= n + 1 ==>
      datmat'[i][j] == (if 1 <= i && j == jdrop then con'[i] else datmat[i][j])
    ensures datmat'[m + 1][jdrop] == f && datmat'[m + 2][jdrop] == resmax
    ensures (resmax == MaxViolation(con, m) ||
             (m > 0 && con[0] == 0.0 && resmax == MaxViolationAsWritten(con, m))) ==>
      datmat'[m + 2][jdrop] >= 0.0 &&
      forall i :: 1 <= i <= m ==> datmat'[m + 2][jdrop] >= -datmat'[i][jdrop]
  {
    var mp, mpp := m + 1, m + 2;
    if m > 0 && con[0] == 0.0 {
      AsWrittenIsUpperBound(con, m);
    }
    con' := con[mp := f][mpp := resmax];
    datmat' := datmat;
    var i := 1;
    while i <= mpp
      invariant 1 <= i <= mpp + 1
      invariant IsMatrix(datmat', m + 2, n + 1)
      invariant forall r, j :: 0 <= r <= m + 2 && 0 <= j <= n + 1 ==>
        datmat'[r][j] == (if 1 <= r < i && j == jdrop then con'[r] else datmat[r][j])
    {
      datmat' := SetEntry(datmat', i, jdrop, con'[i]);
      i := i + 1;
    }
  }

  /** A fresh evaluation recorded with the intended RESMAX: the violation
      stored in the new column is the largest amount by which any recorded
      constraint falls below zero, or zero when none does. */
  method RecordEvaluation(datmat: Matrix, con: Vector, f: real, m: nat, n: nat, jdrop: int)
    returns (con': Vector, datmat': Matrix)
    requires IsMatrix(datmat, m + 2, n + 1) && |con| == m + 3 && 0 <= jdrop <= n + 1
    ensures |con'| == m + 3 && IsMatrix(datmat', m + 2, n + 1)
    ensures forall i :: 0 <= i <= m ==> con'[i] == con[i]
    ensures forall i, j :: 0 <= i <= m + 2 && 0 <= j <= n + 1 ==>
      datmat'[i][j] == (if 1 <= i && j == jdrop then con'[i] else datmat[i][j])
    ensures datmat'[m + 1][jdrop] == f
    ensures datmat'[m + 2][jdrop] >= 0.0
    ensures forall i :: 1 <= i <= m ==> datmat'[m + 2][jdrop] >= -datmat'[i][jdrop]
    ensures datmat'[m + 2][jdrop] == 0.0 ||
      exists i :: 1 <= i <= m && datmat'[m + 2][jdrop] == -datmat'[i][jdrop]
  {
    var resmax := MaxViolation(con, m);
    con', datmat' := RecordVertex(datmat, con, f, resmax, m, n, jdrop);
    if resmax != 0.0 {
      var i :| 1 <= i <= m && resmax == -con[i];
      assert datmat'[i][jdrop] == con[i];
    }
  }
}
