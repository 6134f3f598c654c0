/**
 * myCompare: the ordering the search agenda (a min-heap of states) uses.
 * States are compared on the number of rows of their matrix (the Count of
 * the field pathThusFar) first and on their integer cost second; the bound
 * plays no part.
 */
module Agenda {
  import opened SearchState

  /** The `pathThusFar.Count` the comparer reads. */
  function Count(s: State): nat
    reads s, s.pathThusFar
  {
    |s.pathThusFar.rows|
  }

  /**
   * Compare(x, y): negative when x sorts first. Equal counts are decided by
   * cost; otherwise the state with the smaller count sorts first.
   */
  function Compare(x: State, y: State): (r: int)
    reads x, x.pathThusFar, y, y.pathThusFar
    ensures -1 <= r <= 1
    ensures r == 0 <==> Count(x) == Count(y) && x.cost == y.cost
  {
    if Count(x) == Count(y) then
      if x.cost < y.cost then -1
      else if x.cost > y.cost then 1
      else 0
    else if Count(x) < Count(y) then -1
    else 1
  }

  /** The comparer read as a "sorts no later than" relation. */
  predicate NoLater(x: State, y: State)
    reads x, x.pathThusFar, y, y.pathThusFar
  {
    Compare(x, y) <= 0
  }

  /** Independent reference: strict lexicographic order on (count, cost) pairs. */
  predicate LexLess(a: (int, int), b: (int, int))
  {
    a.0 < b.0 || (a.0 == b.0 && a.1 < b.1)
  }

  /** The key the comparer orders by. */
  function Key(s: State): (int, int)
    reads s, s.pathThusFar
  {
    (Count(s), s.cost)
  }

  /** With equal counts, the result follows the comparison of the costs exactly. */
  lemma EqualCountComparesCost(x: State, y: State)
    requires Count(x) == Count(y)
    ensures Compare(x, y) == -1 <==> x.cost < y.cost
    ensures Compare(x, y) == 0 <==> x.cost == y.cost
    ensures Compare(x, y) == 1 <==> x.cost > y.cost
  {
  }

  /** With different counts, the smaller count sorts first, whatever the costs. */
  lemma DifferentCountIgnoresCost(x: State, y: State)
    requires Count(x) != Count(y)
    ensures Compare(x, y) == -1 <==> Count(x) < Count(y)
    ensures Compare(x, y) == 1 <==> Count(x) > Count(y)
  {
  }

  /** Compare is exactly the lexicographic order on (count, cost). */
  lemma CompareIsLexicographic(x: State, y: State)
    ensures Compare(x, y) == -1 <==> LexLess(Key(x), Key(y))
    ensures Compare(x, y) == 1 <==> LexLess(Key(y), Key(x))
    ensures Compare(x, y) == 0 <==> Key(x) == Key(y)
  {
  }

  /** Swapping the arguments negates the result. */
  lemma CompareAntisymmetric(x: State, y: State)
    ensures Compare(x, y) == -Compare(y, x)
  {
  }

  /** "Sorts no later than" is reflexive and total: a total preorder, together with transitivity below. */
  lemma NoLaterReflexiveTotal(x: State, y: State)
    ensures NoLater(x, x)
    ensures NoLater(x, y) || NoLater(y, x)
  {
  }

  /** "Sorts no later than" is transitive. */
  lemma NoLaterTransitive(x: State, y: State, z: State)
    requires NoLater(x, y) && NoLater(y, z)
    ensures NoLater(x, z)
  {
  }

  /** "Sorts strictly first" is transitive. */
  lemma CompareLessTransitive(x: State, y: State, z: State)
    requires Compare(x, y) == -1 && Compare(y, z) == -1
    ensures Compare(x, z) == -1
  {
  }

  /** States that agree on count and cost compare alike against every state: the bound is ignored. */
  lemma CompareIgnoresBound(x: State, x': State, y: State)
    requires Count(x) == Count(x') && x.cost == x'.cost
    ensures Compare(x, y) == Compare(x', y) && Compare(y, x) == Compare(y, x')
  {
  }
}
