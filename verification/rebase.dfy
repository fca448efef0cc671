/** The adapter of Minimize between the caller's zero-based arrays and the
    one-based arrays of cobylb: the starting point is copied into slots
    1..n of a fresh buffer, the caller's evaluation routine is wrapped so that
    it sees a zero-based point and its zero-based constraint values land in
    slots 1..m, and the final point is copied back into the caller's array. */
module Rebase {
  import opened Buffers

  /** What the caller's evaluation routine (CalcfcDelegate) hands back for a
      point: the objective f and the m constraint values. */
  datatype Evaluation = Evaluation(f: real, con: Vector)

  /** `new double[n + 1]` followed by Array.Copy(x, 0, iox, 1, n). */
  function ToOneBased(x: Vector, n: nat): (iox: Vector)
    requires n <= |x|
    ensures |iox| == n + 1 && iox[0] == 0.0
    ensures forall i :: 0 <= i < n ==> iox[i + 1] == x[i]
  {
    [0.0] + x[..n]
  }

  /** Array.Copy(iox, 1, x, 0, n): the first n entries of the caller's array
      are overwritten with slots 1..n of iox; any further entries are kept. */
  function CopyBack(iox: Vector, x: Vector, n: nat): (x': Vector)
    requires n < |iox| && n <= |x|
    ensures |x'| == |x|
    ensures forall i :: 0 <= i < n ==> x'[i] == iox[i + 1]
    ensures forall i :: n <= i < |x| ==> x'[i] == x[i]
  {
    iox[1..n + 1] + x[n..]
  }

  /** The point the wrapped routine passes on: Array.Copy(xx, 1, ixx, 0, nn). */
  function UserArgument(xx: Vector, nn: nat): (ixx: Vector)
    requires nn < |xx|
    ensures |ixx| == nn
    ensures forall i :: 0 <= i < nn ==> ixx[i] == xx[i + 1]
  {
    xx[1..nn + 1]
  }

  /** Array.Copy(ocon, 0, con, 1, mm): constraint i of the caller lands in
      slot i + 1; slot 0 and the slots above mm keep their values. */
  function StoreConstraints(ocon: Vector, con: Vector, mm: nat): (con': Vector)
    requires mm <= |ocon| && mm < |con|
    ensures |con'| == |con| && con'[0] == con[0]
    ensures forall i :: 0 <= i < mm ==> con'[i + 1] == ocon[i]
    ensures forall i :: mm < i < |con| ==> con'[i] == con[i]
  {
    con[..1] + ocon[..mm] + con[mm + 1..]
  }

  /** icalcfc: the caller's routine seen through one-based buffers. The
      routine fills exactly mm constraint values. */
  function Icalcfc(calcfc: Vector -> Evaluation, nn: nat, mm: nat, xx: Vector, con: Vector): (r: Evaluation)
    requires nn < |xx| && mm < |con|
    requires |calcfc(UserArgument(xx, nn)).con| == mm
    ensures r.f == calcfc(xx[1..nn + 1]).f
    ensures |r.con| == |con| && r.con[0] == con[0]
    ensures forall i :: 1 <= i <= mm ==> r.con[i] == calcfc(xx[1..nn + 1]).con[i - 1]
    ensures forall i :: mm < i < |con| ==> r.con[i] == con[i]
  {
    var e := calcfc(UserArgument(xx, nn));
    Evaluation(e.f, StoreConstraints(e.con, con, mm))
  }

  /** Copying the rebased point straight back leaves the caller's array as it was. */
  lemma RebaseRoundTrip(x: Vector, n: nat)
    requires n <= |x|
    ensures CopyBack(ToOneBased(x, n), x, n) == x
  {
    var x' := CopyBack(ToOneBased(x, n), x, n);
    assert forall i :: 0 <= i < |x| ==> x'[i] == x[i];
  }

  /** Whatever point cobylb leaves in iox, copying it back and rebasing again
      reproduces iox (slot 0 is never written and stays zero). */
  lemma CopyBackRoundTrip(iox: Vector, x: Vector, n: nat)
    requires |iox| == n + 1 && iox[0] == 0.0 && n <= |x|
    ensures ToOneBased(CopyBack(iox, x, n), n) == iox
  {
    var y := ToOneBased(CopyBack(iox, x, n), n);
    assert forall i :: 0 <= i < |iox| ==> y[i] == iox[i];
  }

  /** Through the wrapper, the caller's routine is evaluated at exactly its
      own zero-based point, and the constraint values it returns come back
      shifted up by one slot, with slot 0 and the slots above m untouched. */
  lemma WrapperSeesCallerPoint(calcfc: Vector -> Evaluation, x: Vector, n: nat, m: nat, con: Vector)
    requires n <= |x| && m < |con|
    requires |calcfc(x[..n]).con| == m
    ensures UserArgument(ToOneBased(x, n), n) == x[..n]
    ensures Icalcfc(calcfc, n, m, ToOneBased(x, n), con).f == calcfc(x[..n]).f
    ensures forall i :: 0 <= i < m ==>
      Icalcfc(calcfc, n, m, ToOneBased(x, n), con).con[i + 1] == calcfc(x[..n]).con[i]
    ensures forall i :: (i == 0 || m < i < |con|) ==>
      Icalcfc(calcfc, n, m, ToOneBased(x, n), con).con[i] == con[i]
  {
    var iox := ToOneBased(x, n);
    assert UserArgument(iox, n) == x[..n];
  }
}
