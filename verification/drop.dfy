/** Choosing the vertex to drop when the simplex needs a new vertex to
    improve its acceptability (cobylb, after the computation of sigma and
    eta). vsig[j] measures how well direction j is resolved by the simplex
    and veta[j] is the length of edge j; both are one-based vectors taken as
    given here. */
module DropChoice {
  import opened Buffers

  /** ALPHA and BETA of cobylb. */
  const Alpha: real := 0.25
  const Beta: real := 2.1

  /** The simplex is acceptable (IFLAG stays 1) when no vsig[j] falls below
      alpha * rho and no veta[j] exceeds beta * rho. */
  predicate Acceptable(vsig: Vector, veta: Vector, n: nat, rho: real)
    requires |vsig| > n && |veta| > n
  {
    forall j :: 1 <= j <= n ==> vsig[j] >= Alpha * rho && veta[j] <= Beta * rho
  }

  /** j is the first index of the largest entry of v among 1..n, and that
      entry is strictly above bound. */
  predicate FirstLargestAbove(v: Vector, n: nat, bound: real, j: int)
    requires |v| > n
  {
    && 1 <= j <= n && v[j] > bound
    && (forall k :: 1 <= k <= n ==> v[k] <= v[j])
    && (forall k :: 1 <= k < j ==> v[k] < v[j])
  }

  /** j is the first index of the smallest entry of v among 1..n, and that
      entry is strictly below bound. */
  predicate FirstSmallestBelow(v: Vector, n: nat, bound: real, j: int)
    requires |v| > n
  {
    && 1 <= j <= n && v[j] < bound
    && (forall k :: 1 <= k <= n ==> v[j] <= v[k])
    && (forall k :: 1 <= k < j ==> v[k] > v[j])
  }

  /** The drop rule: the longest edge longer than beta * rho; failing that,
      the smallest vsig below the same threshold beta * rho; failing that, 0. */
  predicate IsDropChoice(vsig: Vector, veta: Vector, n: nat, rho: real, jdrop: int)
    requires |vsig| > n && |veta| > n
  {
    var pareta := Beta * rho;
    if exists k :: 1 <= k <= n && veta[k] > pareta then
      FirstLargestAbove(veta, n, pareta, jdrop)
    else if exists k :: 1 <= k <= n && vsig[k] < pareta then
      FirstSmallestBelow(vsig, n, pareta, jdrop)
    else
      jdrop == 0
  }

  /** The two scans of cobylb that set JDROP. */
  method ChooseDrop(vsig: Vector, veta: Vector, n: nat, rho: real) returns (jdrop: int)
    requires |vsig| > n && |veta| > n
    ensures 0 <= jdrop <= n
    ensures IsDropChoice(vsig, veta, n, rho, jdrop)
    ensures rho >= 0.0 && !Acceptable(vsig, veta, n, rho) ==> 1 <= jdrop
  {
    var pareta := Beta * rho;
    jdrop := 0;
    var temp := pareta;
    var j := 1;
    while j <= n
      invariant 1 <= j <= n + 1 && 0 <= jdrop < j
      invariant jdrop == 0 ==> temp == pareta && forall k :: 1 <= k < j ==> veta[k] <= pareta
      invariant jdrop != 0 ==> temp == veta[jdrop] && FirstLargestAbove(veta, j - 1, pareta, jdrop)
    {
      if veta[j] > temp {
        jdrop := j;
        temp := veta[j];
      }
      j := j + 1;
    }
    if jdrop == 0 {
      j := 1;
      while j <= n
        invariant 1 <= j <= n + 1 && 0 <= jdrop < j
        invariant jdrop == 0 ==> temp == pareta && forall k :: 1 <= k < j ==> vsig[k] >= pareta
        invariant jdrop != 0 ==> temp == vsig[jdrop] && FirstSmallestBelow(vsig, j - 1, pareta, jdrop)
      {
        if vsig[j] < temp {
          jdrop := j;
          temp := vsig[j];
        }
        j := j + 1;
      }
    }
    if rho >= 0.0 && !Acceptable(vsig, veta, n, rho) {
      UnacceptableHasDrop(vsig, veta, n, rho);
    }
  }

  /** When the simplex is not acceptable the drop rule always names a
      vertex: an edge above beta * rho is found by the first scan, and a vsig
      below alpha * rho lies below beta * rho as well. */
  lemma UnacceptableHasDrop(vsig: Vector, veta: Vector, n: nat, rho: real)
    requires |vsig| > n && |veta| > n && rho >= 0.0
    requires !Acceptable(vsig, veta, n, rho)
    ensures (exists k :: 1 <= k <= n && veta[k] > Beta * rho) ||
            (exists k :: 1 <= k <= n && vsig[k] < Beta * rho)
  {
    var k :| 1 <= k <= n && !(vsig[k] >= Alpha * rho && veta[k] <= Beta * rho);
    if vsig[k] < Alpha * rho {
      assert vsig[k] < Beta * rho;
    }
  }

  /** The drop rule names at most one vertex. */
  lemma DropChoiceIsUnique(vsig: Vector, veta: Vector, n: nat, rho: real, a: int, b: int)
    requires |vsig| > n && |veta| > n
    requires IsDropChoice(vsig, veta, n, rho, a) && IsDropChoice(vsig, veta, n, rho, b)
    ensures a == b
  {
    if a < b {
      assert false;
    } else if b < a {
      assert false;
    }
  }
}
