/** Counting the elements of a sequence that satisfy a test, and the
    positions where they stand. */
module Counting {

  /** Number of elements of xs on which p holds. */
  function CountWhere<T>(xs: seq<T>, p: T -> bool): (n: nat)
    ensures n <= |xs|
  {
    if xs == [] then 0
    else CountWhere(xs[..|xs| - 1], p) + (if p(xs[|xs| - 1]) then 1 else 0)
  }

  /** Positions of the elements of xs on which p holds. */
  function IndicesWhere<T>(xs: seq<T>, p: T -> bool): set<int> {
    set i | 0 <= i < |xs| && p(xs[i])
  }

  /** CountWhere counts exactly the positions where p holds. */
  lemma {:induction false} CountWhereIsCardinality<T>(xs: seq<T>, p: T -> bool)
    ensures CountWhere(xs, p) == |IndicesWhere(xs, p)|
    decreases |xs|
  {
    if xs != [] {
      var n := |xs| - 1;
      var init := xs[..n];
      CountWhereIsCardinality(init, p);
      if p(xs[n]) {
        assert IndicesWhere(xs, p) == IndicesWhere(init, p) + {n};
      } else {
        assert IndicesWhere(xs, p) == IndicesWhere(init, p);
      }
    }
  }

  /** Counting over a three-element list, one element at a time. */
  lemma CountThree<T>(x: T, y: T, z: T, p: T -> bool)
    ensures CountWhere([x, y, z], p)
            == (if p(x) then 1 else 0) + (if p(y) then 1 else 0) + (if p(z) then 1 else 0)
  {
    var xs := [x, y, z];
    assert xs[..2] == [x, y];
    assert [x, y][..1] == [x];
    assert [x][..0] == [];
    assert CountWhere([x], p) == (if p(x) then 1 else 0);
    assert CountWhere([x, y], p) == CountWhere([x], p) + (if p(y) then 1 else 0);
  }
}
