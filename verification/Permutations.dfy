/** Lists that hold the same elements in another order. */
module Permutations {

  ghost predicate SameElements<T>(xs: seq<T>, ys: seq<T>) {
    multiset(xs) == multiset(ys)
  }

  function Without<T>(xs: seq<T>, j: nat): seq<T>
    requires j < |xs|
  {
    xs[..j] + xs[j + 1..]
  }

  lemma WithoutElements<T>(xs: seq<T>, j: nat)
    requires j < |xs|
    ensures multiset(xs) == multiset(Without(xs, j)) + multiset{xs[j]}
  {
    assert xs == xs[..j] + [xs[j]] + xs[j + 1..];
  }

  /** Taking the first element of one list out of both leaves permutations. */
  lemma TakeFirst<T>(xs: seq<T>, ys: seq<T>) returns (j: nat)
    requires xs != [] && SameElements(xs, ys)
    ensures j < |ys| && ys[j] == xs[0] && SameElements(xs[1..], Without(ys, j))
  {
    assert xs == [xs[0]] + xs[1..];
    assert xs[0] in multiset(xs);
    j :| 0 <= j < |ys| && ys[j] == xs[0];
    WithoutElements(ys, j);
    assert multiset(xs) == multiset{xs[0]} + multiset(xs[1..]);
    assert multiset(xs[1..]) == multiset(xs) - multiset{xs[0]};
    assert multiset(Without(ys, j)) == multiset(ys) - multiset{ys[j]};
  }

  lemma SameLength<T>(xs: seq<T>, ys: seq<T>)
    requires SameElements(xs, ys)
    ensures |xs| == |ys| && (xs == [] <==> ys == [])
  {
    assert |multiset(xs)| == |xs| && |multiset(ys)| == |ys|;
  }

  lemma SameMembers<T>(xs: seq<T>, ys: seq<T>)
    requires SameElements(xs, ys)
    ensures forall x :: x in xs <==> x in ys
  {
    forall x ensures x in xs <==> x in ys {
      assert x in xs <==> x in multiset(xs);
      assert x in ys <==> x in multiset(ys);
    }
  }

  function Map<T, U>(f: T -> U, xs: seq<T>): (ys: seq<U>)
    ensures |ys| == |xs|
  {
    if xs == [] then [] else [f(xs[0])] + Map(f, xs[1..])
  }

  lemma {:induction false} MapAppend<T, U>(f: T -> U, xs: seq<T>, ys: seq<T>)
    ensures Map(f, xs + ys) == Map(f, xs) + Map(f, ys)
    decreases |xs|
  {
    if xs == [] {
      assert xs + ys == ys;
    } else {
      assert (xs + ys)[1..] == xs[1..] + ys;
      MapAppend(f, xs[1..], ys);
    }
  }

  lemma {:induction false} MapSameElements<T, U>(f: T -> U, xs: seq<T>, ys: seq<T>)
    requires SameElements(xs, ys)
    ensures SameElements(Map(f, xs), Map(f, ys))
    decreases |xs|
  {
    SameLength(xs, ys);
    if xs != [] {
      var j := TakeFirst(xs, ys);
      MapSameElements(f, xs[1..], Without(ys, j));
      MapAppend(f, ys[..j], ys[j + 1..]);
      MapAppend(f, ys[..j], [ys[j]] + ys[j + 1..]);
      MapAppend(f, [ys[j]], ys[j + 1..]);
      assert ys == ys[..j] + ([ys[j]] + ys[j + 1..]);
      assert Map(f, [ys[j]]) == [f(ys[j])] by {
        assert [ys[j]][1..] == [];
      }
    }
  }

  function Sum(xs: seq<int>): int {
    if xs == [] then 0 else xs[0] + Sum(xs[1..])
  }

  lemma {:induction false} SumAppend(xs: seq<int>, ys: seq<int>)
    ensures Sum(xs + ys) == Sum(xs) + Sum(ys)
    decreases |xs|
  {
    if xs == [] {
      assert xs + ys == ys;
    } else {
      assert (xs + ys)[1..] == xs[1..] + ys;
      SumAppend(xs[1..], ys);
    }
  }

  lemma {:induction false} SumSameElements(xs: seq<int>, ys: seq<int>)
    requires SameElements(xs, ys)
    ensures Sum(xs) == Sum(ys)
    decreases |xs|
  {
    SameLength(xs, ys);
    if xs != [] {
      var j := TakeFirst(xs, ys);
      SumSameElements(xs[1..], Without(ys, j));
      SumAppend(ys[..j], ys[j + 1..]);
      SumAppend(ys[..j], [ys[j]] + ys[j + 1..]);
      assert ys == ys[..j] + ([ys[j]] + ys[j + 1..]);
      assert ([ys[j]] + ys[j + 1..])[1..] == ys[j + 1..];
    }
  }

  ghost predicate Ascending(xs: seq<int>) {
    forall i, j :: 0 <= i < j < |xs| ==> xs[i] <= xs[j]
  }

  lemma FirstLeast(xs: seq<int>, ys: seq<int>)
    requires SameElements(xs, ys) && Ascending(xs) && xs != [] && ys != []
    ensures xs[0] <= ys[0]
  {
    SameMembers(xs, ys);
    assert ys[0] in xs;
  }

  lemma TailElements(xs: seq<int>)
    requires xs != []
    ensures multiset(xs[1..]) == multiset(xs) - multiset{xs[0]}
  {
    assert xs == [xs[0]] + xs[1..];
  }

  /** A list of numbers has one ascending arrangement. */
  lemma {:induction false} AscendingUnique(xs: seq<int>, ys: seq<int>)
    requires SameElements(xs, ys) && Ascending(xs) && Ascending(ys)
    ensures xs == ys
    decreases |xs|
  {
    SameLength(xs, ys);
    if xs != [] {
      FirstLeast(xs, ys);
      FirstLeast(ys, xs);
      TailElements(xs);
      TailElements(ys);
      AscendingUnique(xs[1..], ys[1..]);
    }
  }
}
