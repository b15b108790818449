/** Sequence facts shared by the model: distinctness, and the set of a
    sequence's elements, whose size Python compares with the sequence's
    length to detect duplicates. */
module Seqs {
  predicate Distinct<T(==)>(xs: seq<T>) {
    forall i, j :: 0 <= i < j < |xs| ==> xs[i] != xs[j]
  }

  function SetOf<T(==,!new)>(xs: seq<T>): (s: set<T>)
    ensures forall x :: x in s <==> x in xs
  {
    if xs == [] then {} else {xs[0]} + SetOf(xs[1..])
  }

  lemma DistinctCons<T>(xs: seq<T>)
    requires xs != []
    ensures Distinct(xs) <==> xs[0] !in xs[1..] && Distinct(xs[1..])
  {
    var t := xs[1..];
    if xs[0] !in t && Distinct(t) {
      forall i, j | 0 <= i < j < |xs| ensures xs[i] != xs[j] {
        assert xs[j] == t[j - 1];
        if i > 0 { assert xs[i] == t[i - 1]; }
      }
    }
    if Distinct(xs) {
      forall i, j | 0 <= i < j < |t| ensures t[i] != t[j] {
        assert t[i] == xs[i + 1] && t[j] == xs[j + 1];
      }
      forall j | 0 <= j < |t| ensures t[j] != xs[0] {
        assert t[j] == xs[j + 1];
      }
    }
  }

  lemma DistinctSnoc<T>(xs: seq<T>, x: T)
    ensures Distinct(xs + [x]) <==> x !in xs && Distinct(xs)
  {
    var ys := xs + [x];
    if Distinct(ys) {
      forall i, j | 0 <= i < j < |xs| ensures xs[i] != xs[j] {
        assert xs[i] == ys[i] && xs[j] == ys[j];
      }
      forall i | 0 <= i < |xs| ensures xs[i] != x {
        assert ys[i] != ys[|xs|];
      }
    }
  }

  /** A sequence has as many distinct elements as entries exactly when no
      element repeats: `len(set(xs)) == len(xs)` is a duplicate test. */
  lemma {:induction false} SetOfSize<T(!new)>(xs: seq<T>)
    ensures |SetOf(xs)| <= |xs|
    ensures |SetOf(xs)| == |xs| <==> Distinct(xs)
  {
    if xs != [] {
      var t := xs[1..];
      SetOfSize(t);
      DistinctCons(xs);
      assert SetOf(xs) == {xs[0]} + SetOf(t);
      if xs[0] in t {
        assert SetOf(xs) == SetOf(t);
      } else {
        assert xs[0] !in SetOf(t);
      }
    }
  }

  /** A subset is no larger than its superset. */
  lemma {:induction false} SubsetSize<T>(a: set<T>, b: set<T>)
    requires a <= b
    ensures |a| <= |b|
    decreases |a|
  {
    if a != {} {
      var x :| x in a;
      SubsetSize(a - {x}, b - {x});
    }
  }
}
