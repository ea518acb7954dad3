/**
 * The Java collection steps the builders rely on: taking some element of a
 * hash set, copying a set into a list (new ArrayList<>(set)), and iterating
 * a TreeSet<Integer> in ascending order or taking its last element.
 */
module Collections {
  /** Some element of a non-empty set; which one is left open, as hash order is. */
  method Choose<X>(xs: set<X>) returns (x: X)
    requires xs != {}
    ensures x in xs
  {
    x :| x in xs;
  }

  /** Some element of a non-empty set (the same one for the same set). */
  ghost function Pick<X>(xs: set<X>): (x: X)
    requires xs != {}
    ensures x in xs
  {
    var x :| x in xs; x
  }

  predicate Distinct<X(==)>(xs: seq<X>) { forall i, j :: 0 <= i < j < |xs| ==> xs[i] != xs[j] }

  /** new ArrayList<>(set): each element once, in some order. */
  method ToList<X(==)>(s: set<X>) returns (xs: seq<X>)
    ensures Distinct(xs)
    ensures forall x :: x in xs <==> x in s
  {
    xs := [];
    var rest := s;
    while rest != {}
      invariant rest <= s
      invariant Distinct(xs)
      invariant forall x :: x in xs <==> x in s && x !in rest
      decreases rest
    {
      var x := Choose(rest);
      xs := xs + [x];
      rest := rest - {x};
    }
  }

  predicate Increasing(xs: seq<int>) { forall i, j :: 0 <= i < j < |xs| ==> xs[i] < xs[j] }

  /** The smallest element (TreeSet.first). */
  method MinOf(s: set<int>) returns (m: int)
    requires s != {}
    ensures m in s && forall x | x in s :: m <= x
  {
    m := Choose(s);
    var rest := s - {m};
    while rest != {}
      invariant rest <= s && m in s
      invariant forall x | x in s && x !in rest :: m <= x
      decreases rest
    {
      var x := Choose(rest);
      if x < m { m := x; }
      rest := rest - {x};
    }
  }

  /** The largest element (TreeSet.last). */
  method MaxOf(s: set<int>) returns (m: int)
    requires s != {}
    ensures m in s && forall x | x in s :: x <= m
  {
    m := Choose(s);
    var rest := s - {m};
    while rest != {}
      invariant rest <= s && m in s
      invariant forall x | x in s && x !in rest :: x <= m
      decreases rest
    {
      var x := Choose(rest);
      if x > m { m := x; }
      rest := rest - {x};
    }
  }

  /** Iteration order of a TreeSet<Integer>: every element once, ascending. */
  method Ascending(s: set<int>) returns (xs: seq<int>)
    ensures Increasing(xs)
    ensures forall x :: x in xs <==> x in s
  {
    xs := [];
    var rest := s;
    while rest != {}
      invariant rest <= s
      invariant Increasing(xs)
      invariant forall x :: x in xs <==> x in s && x !in rest
      invariant forall i, y :: 0 <= i < |xs| && y in rest ==> xs[i] < y
      decreases rest
    {
      var m := MinOf(rest);
      xs := xs + [m];
      rest := rest - {m};
    }
  }

  lemma IncreasingDistinct(xs: seq<int>)
    requires Increasing(xs)
    ensures Distinct(xs)
  {
  }

  /** A list without repeats holding exactly the elements of s is as long as s is large. */
  lemma {:induction false} DistinctCard(xs: seq<int>, s: set<int>)
    requires Distinct(xs) && forall x :: x in xs <==> x in s
    ensures |xs| == |s|
    decreases |xs|
  {
    if |xs| == 0 {
      assert forall x | x in s :: false;
    } else {
      var init, last := xs[..|xs| - 1], xs[|xs| - 1];
      forall x ensures x in init <==> x in s - {last} {
        if x in init {
          var k :| 0 <= k < |init| && init[k] == x;
          assert xs[k] == x;
        }
        if x in s - {last} {
          var k :| 0 <= k < |xs| && xs[k] == x;
          assert k < |xs| - 1 && init[k] == x;
        }
      }
      DistinctCard(init, s - {last});
    }
  }

  /** A subset is no larger than its superset. */
  lemma {:induction false} SubsetCard<X>(a: set<X>, b: set<X>)
    requires a <= b
    ensures |a| <= |b|
    decreases |b|
  {
    if b != {} {
      var x := Pick(b);
      SubsetCard(a - {x}, b - {x});
    }
  }

  /** The elements of a list, as a set. */
  function Elems<X>(xs: seq<X>): set<X> { set x | x in xs }

  lemma ElemsSnoc<X>(xs: seq<X>, x: X)
    ensures Elems(xs + [x]) == Elems(xs) + {x}
  {
  }

  lemma DistinctSnoc<X>(xs: seq<X>, x: X)
    requires Distinct(xs) && x !in Elems(xs)
    ensures Distinct(xs + [x])
  {
  }
}
