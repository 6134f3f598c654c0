/**
 * ProblemAndSolver: the problem instance (its cities and the best solution so
 * far) and the matrix reduction the branch-and-bound search starts from.
 */
module Solver {
  import opened Tour
  import opened SearchState

  /** The matrix has at least n rows, and each of its first n rows at least n entries. */
  predicate WindowFits(rows: seq<seq<real>>, n: nat)
  {
    n <= |rows| && forall i :: 0 <= i < n ==> n <= |rows[i]|
  }

  /** The matrix with minValue taken off every entry of its top-left n-by-n window. */
  function Reduced(rows: seq<seq<real>>, n: nat, minValue: real): seq<seq<real>>
  {
    seq(|rows|, i requires 0 <= i < |rows| =>
      if i < n then
        seq(|rows[i]|, j requires 0 <= j < |rows[i]| =>
          if j < n then rows[i][j] - minValue else rows[i][j])
      else rows[i])
  }

  /** Reduction keeps the shape, subtracts inside the window and leaves every other entry alone. */
  lemma ReducedEntries(rows: seq<seq<real>>, n: nat, minValue: real)
    ensures |Reduced(rows, n, minValue)| == |rows|
    ensures forall i :: 0 <= i < |rows| ==> |Reduced(rows, n, minValue)[i]| == |rows[i]|
    ensures forall i, j :: 0 <= i < n && 0 <= j < n && i < |rows| && j < |rows[i]| ==>
      Reduced(rows, n, minValue)[i][j] == rows[i][j] - minValue
    ensures forall i, j :: 0 <= i < |rows| && 0 <= j < |rows[i]| && (n <= i || n <= j) ==>
      Reduced(rows, n, minValue)[i][j] == rows[i][j]
  {
  }

  /** Reduction keeps a matrix large enough for the window. */
  lemma ReducedKeepsWindow(rows: seq<seq<real>>, n: nat, minValue: real)
    requires WindowFits(rows, n)
    ensures WindowFits(Reduced(rows, n, minValue), n)
  {
  }

  /** Reducing by zero changes nothing. */
  lemma ReducedByZero(rows: seq<seq<real>>, n: nat)
    ensures Reduced(rows, n, 0.0) == rows
  {
    var r := Reduced(rows, n, 0.0);
    forall i | 0 <= i < |rows|
      ensures r[i] == rows[i]
    {
      if i < n {
        assert r[i] == seq(|rows[i]|, j requires 0 <= j < |rows[i]| => if j < n then rows[i][j] - 0.0 else rows[i][j]);
      }
    }
  }

  /** Two reductions of the same window add up to one. */
  lemma ReducedComposes(rows: seq<seq<real>>, n: nat, a: real, b: real)
    ensures Reduced(Reduced(rows, n, a), n, b) == Reduced(rows, n, a + b)
  {
    var once := Reduced(rows, n, a);
    var twice := Reduced(once, n, b);
    var both := Reduced(rows, n, a + b);
    forall i | 0 <= i < |rows|
      ensures twice[i] == both[i]
    {
      if i < n {
        assert |twice[i]| == |both[i]| == |rows[i]|;
        forall j | 0 <= j < |rows[i]|
          ensures twice[i][j] == both[i][j]
        {
        }
      }
    }
  }

  /** Reducing by -minValue undoes a reduction by minValue. */
  lemma ReducedUndone(rows: seq<seq<real>>, n: nat, minValue: real)
    ensures Reduced(Reduced(rows, n, minValue), n, -minValue) == rows
  {
    ReducedComposes(rows, n, minValue, -minValue);
    ReducedByZero(rows, n);
  }

  /** The difference between any two entries of the window survives reduction. */
  lemma ReducedPreservesDifferences(rows: seq<seq<real>>, n: nat, minValue: real, i: nat, j: nat, k: nat, l: nat)
    requires WindowFits(rows, n)
    requires i < n && j < n && k < n && l < n
    ensures Reduced(rows, n, minValue)[i][j] - Reduced(rows, n, minValue)[k][l] == rows[i][j] - rows[k][l]
  {
  }

  /** Reduction keeps the order between any two entries of the window. */
  lemma ReducedPreservesOrder(rows: seq<seq<real>>, n: nat, minValue: real, i: nat, j: nat, k: nat, l: nat)
    requires WindowFits(rows, n)
    requires i < n && j < n && k < n && l < n
    ensures Reduced(rows, n, minValue)[i][j] <= Reduced(rows, n, minValue)[k][l] <==> rows[i][j] <= rows[k][l]
  {
    ReducedPreservesDifferences(rows, n, minValue, i, j, k, l);
  }

  class ProblemAndSolver {
    /** The cities of the current problem. */
    var Cities: seq<City>
    /** The best solution so far, if any. */
    var bssf: TSPSolution?

    /**
     * reduceMatrix: subtracts minValue in place from every entry of the
     * top-left window whose side is the number of cities.
     */
    method ReduceMatrix(matrix: Matrix, minValue: real)
      requires WindowFits(matrix.rows, |Cities|)
      modifies matrix
      ensures matrix.rows == Reduced(old(matrix.rows), |Cities|, minValue)
    {
      ghost var was := matrix.rows;
      var n := |Cities|;
      var i := 0;
      while i < n
        invariant i <= n
        invariant |matrix.rows| == |was|
        invariant forall a :: 0 <= a < |was| ==> |matrix.rows[a]| == |was[a]|
        invariant forall a, b :: 0 <= a < |was| && 0 <= b < |was[a]| ==>
          matrix.rows[a][b] == if a < i && b < n then was[a][b] - minValue else was[a][b]
      {
        var j := 0;
        while j < n
          invariant j <= n
          invariant |matrix.rows| == |was|
          invariant forall a :: 0 <= a < |was| ==> |matrix.rows[a]| == |was[a]|
          invariant forall a, b :: 0 <= a < |was| && 0 <= b < |was[a]| ==>
            matrix.rows[a][b] == if (a < i && b < n) || (a == i && b < j) then was[a][b] - minValue else was[a][b]
        {
          matrix.rows := matrix.rows[i := matrix.rows[i][j := matrix.rows[i][j] - minValue]];
          j := j + 1;
        }
        i := i + 1;
      }
      ReducedEntries(was, n, minValue);
      assert matrix.rows == Reduced(was, n, minValue) by {
        forall a | 0 <= a < |was|
          ensures matrix.rows[a] == Reduced(was, n, minValue)[a]
        {
        }
      }
    }

    /** costOfBssf: the cycle cost of the best solution so far, or -1 when there is none. */
    method CostOfBssf(costToGetTo: CostFn) returns (r: real)
      requires bssf != null ==> |bssf.Route| > 0
      ensures bssf == null ==> r == -1.0
      ensures bssf != null ==> r == CycleCost(bssf.Route, costToGetTo)
    {
      if bssf != null {
        r := bssf.CostOfRoute(costToGetTo);
      } else {
        r := -1.0;
      }
    }
  }
}
