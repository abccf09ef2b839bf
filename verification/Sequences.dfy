/** Sequences without repetition. */
module Sequences {
  predicate Distinct<T(==)>(xs: seq<T>) {
    forall i, j :: 0 <= i < j < |xs| ==> xs[i] != xs[j]
  }

  /** A sequence repeats nothing exactly when it has as many members as places. */
  lemma {:induction false} DistinctBySize<T>(xs: seq<T>)
    ensures |set x | x in xs| <= |xs|
    ensures |set x | x in xs| == |xs| <==> Distinct(xs)
  {
    if xs != [] {
      var init, last := xs[..|xs| - 1], xs[|xs| - 1];
      DistinctBySize(init);
      assert xs == init + [last];
      assert (set x | x in xs) == (set x | x in init) + {last};
      if last in init {
        assert (set x | x in xs) == (set x | x in init);
        var i :| 0 <= i < |init| && init[i] == last;
        assert xs[i] == xs[|xs| - 1];
      } else {
        forall i, j | 0 <= i < j < |xs| && Distinct(init) ensures xs[i] != xs[j] {
          if j < |init| { assert init[i] != init[j]; }
        }
        if Distinct(xs) {
          forall i, j | 0 <= i < j < |init| ensures init[i] != init[j] { assert xs[i] != xs[j]; }
        }
      }
    }
  }

  lemma DistinctConcat<T>(xs: seq<T>, ys: seq<T>)
    requires Distinct(xs) && Distinct(ys) && forall x :: x in xs ==> x !in ys
    ensures Distinct(xs + ys)
  {
    var zs := xs + ys;
    forall i, j | 0 <= i < j < |zs| ensures zs[i] != zs[j] {
      assert if i < |xs| then zs[i] == xs[i] && zs[i] in xs else zs[i] == ys[i - |xs|];
      assert if j < |xs| then zs[j] == xs[j] else zs[j] == ys[j - |xs|] && zs[j] in ys;
    }
  }

  lemma SameSize<T>(xs: seq<T>, ys: seq<T>)
    requires multiset(xs) == multiset(ys)
    ensures |xs| == |ys|
  {
    assert |multiset(xs)| == |xs| && |multiset(ys)| == |ys|;
  }

  lemma SameTails<T>(x: T, xs: seq<T>, ys: seq<T>)
    requires multiset([x] + xs) == multiset([x] + ys)
    ensures multiset(xs) == multiset(ys)
  {
    assert multiset(xs) == multiset([x] + xs) - multiset{x};
    assert multiset(ys) == multiset([x] + ys) - multiset{x};
  }
}
