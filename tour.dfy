/** A candidate tour (TSPSolution) and the cyclic cost of following it. */
module Tour {

  /** A city of the problem instance, placed in the unit square. */
  datatype City = City(X: real, Y: real)

  /**
   * The travel cost `here.costToGetTo(there)`. City's own cost function is
   * not part of this model, so every member that needs it takes it as a parameter.
   */
  type CostFn = (City, City) -> real

  /** Cost of walking the route from its first city to its last, edge by edge (no closing edge). */
  function PathCost(route: seq<City>, costToGetTo: CostFn): real
  {
    if |route| <= 1 then 0.0
    else costToGetTo(route[0], route[1]) + PathCost(route[1..], costToGetTo)
  }

  /**
   * Cost of the closed tour: the path plus the edge from the last city back to
   * the first. A route [b, a, c] means b, then a, then c, then back to b.
   */
  function CycleCost(route: seq<City>, costToGetTo: CostFn): real
    requires |route| > 0
  {
    PathCost(route, costToGetTo) + costToGetTo(route[|route| - 1], route[0])
  }

  /** The route started at its k-th city instead of its first. */
  function Rotated(route: seq<City>, k: nat): seq<City>
    requires k <= |route|
  {
    route[k..] + route[..k]
  }

  /** The position after i on the cycle: i + 1, wrapping to 0 after the last city. */
  function Successor(n: nat, i: nat): (j: nat)
    requires i < n
    ensures j < n && j == (i + 1) % n
  {
    if i + 1 < n then i + 1 else 0
  }

  /**
   * Independent reference: the sum, over the first `k` positions i, of the edge
   * from route[i] to its cyclic successor.
   */
  function EdgeSum(route: seq<City>, costToGetTo: CostFn, k: nat): real
    requires k <= |route|
  {
    if k == 0 then 0.0
    else EdgeSum(route, costToGetTo, k - 1) + costToGetTo(route[k - 1], route[Successor(|route|, k - 1)])
  }

  /** Extending a path by one city adds exactly the edge into that city. */
  lemma {:induction false} PathCostSnoc(route: seq<City>, x: City, costToGetTo: CostFn)
    requires |route| > 0
    ensures PathCost(route + [x], costToGetTo) == PathCost(route, costToGetTo) + costToGetTo(route[|route| - 1], x)
  {
    if |route| > 1 {
      assert (route + [x])[1..] == route[1..] + [x];
      PathCostSnoc(route[1..], x, costToGetTo);
    }
  }

  /** The path through the first k + 1 cities costs what its k consecutive edges cost. */
  lemma {:induction false} PathCostIsEdgeSum(route: seq<City>, costToGetTo: CostFn, k: nat)
    requires k < |route|
    ensures PathCost(route[..k + 1], costToGetTo) == EdgeSum(route, costToGetTo, k)
  {
    if k > 0 {
      PathCostIsEdgeSum(route, costToGetTo, k - 1);
      assert route[..k + 1] == route[..k] + [route[k]];
      PathCostSnoc(route[..k], route[k], costToGetTo);
    }
  }

  /** The cycle cost is the sum of every edge from a city to its cyclic successor. */
  lemma CycleCostIsEdgeSum(route: seq<City>, costToGetTo: CostFn)
    requires |route| > 0
    ensures CycleCost(route, costToGetTo) == EdgeSum(route, costToGetTo, |route|)
  {
    PathCostIsEdgeSum(route, costToGetTo, |route| - 1);
    assert route[..|route|] == route;
  }

  /** A one-city route costs the edge from that city to itself. */
  lemma SingleCityCost(c: City, costToGetTo: CostFn)
    ensures CycleCost([c], costToGetTo) == costToGetTo(c, c)
  {
  }

  /** Moving the first city to the end does not change the cycle cost. */
  lemma {:induction false} RotateOnceCost(route: seq<City>, costToGetTo: CostFn)
    requires |route| > 0
    ensures CycleCost(route[1..] + [route[0]], costToGetTo) == CycleCost(route, costToGetTo)
  {
    if |route| > 1 {
      PathCostSnoc(route[1..], route[0], costToGetTo);
    } else {
      assert route[1..] + [route[0]] == route;
    }
  }

  /** Starting the tour at any of its cities gives the same cycle cost. */
  lemma {:induction false} CycleCostRotation(route: seq<City>, k: nat, costToGetTo: CostFn)
    requires 0 < |route| && k <= |route|
    ensures CycleCost(Rotated(route, k), costToGetTo) == CycleCost(route, costToGetTo)
  {
    if k == 0 {
      assert Rotated(route, 0) == route;
    } else {
      CycleCostRotation(route, k - 1, costToGetTo);
      var r := Rotated(route, k - 1);
      assert Rotated(route, k) == r[1..] + [r[0]];
      RotateOnceCost(r, costToGetTo);
    }
  }

  /** With non-negative edge costs, no path costs less than zero. */
  lemma {:induction false} PathCostNonnegative(route: seq<City>, costToGetTo: CostFn)
    requires forall a, b :: costToGetTo(a, b) >= 0.0
    ensures PathCost(route, costToGetTo) >= 0.0
  {
    if |route| > 1 {
      PathCostNonnegative(route[1..], costToGetTo);
    }
  }

  /** With non-negative edge costs, the cycle cost is at least the closing edge. */
  lemma CycleCostAtLeastClosingEdge(route: seq<City>, costToGetTo: CostFn)
    requires |route| > 0
    requires forall a, b :: costToGetTo(a, b) >= 0.0
    ensures CycleCost(route, costToGetTo) >= costToGetTo(route[|route| - 1], route[0]) >= 0.0
  {
    PathCostNonnegative(route, costToGetTo);
  }

  /** TSPSolution: a route through the cities, visited in order and closed back to the start. */
  class TSPSolution {
    var Route: seq<City>

    /** Stores its own copy of the given route; the route is a value, so later edits to the argument cannot reach it. */
    constructor (iroute: seq<City>)
      ensures Route == iroute
    {
      Route := iroute;
    }

    /**
     * costOfRoute: sums each consecutive edge, then the edge from the last city
     * back to the first. It does not check that the route visits every city.
     */
    method CostOfRoute(costToGetTo: CostFn) returns (cost: real)
      requires |Route| > 0
      ensures cost == CycleCost(Route, costToGetTo)
    {
      cost := 0.0;
      var x := 0;
      while x < |Route| - 1
        invariant 0 <= x <= |Route| - 1
        invariant cost == PathCost(Route[..x + 1], costToGetTo)
      {
        assert Route[..x + 2] == Route[..x + 1] + [Route[x + 1]];
        PathCostSnoc(Route[..x + 1], Route[x + 1], costToGetTo);
        cost := cost + costToGetTo(Route[x], Route[x + 1]);
        x := x + 1;
      }
      assert Route[..x + 1] == Route;
      cost := cost + costToGetTo(Route[|Route| - 1], Route[0]);
    }
  }
}
