/**
  Sequences that list every element of a finite set exactly once.

  A Go map is iterated in an order the language leaves unspecified; the model
  stands for "whatever order the runtime chose" by a sequence that enumerates
  the map's key set, and the lemmas here relate such a sequence to the set.
 */
module Enumerations {

  /** No element occurs twice. */
  predicate Distinct<T(==)>(xs: seq<T>) {
    forall i, j | 0 <= i < j < |xs| :: xs[i] != xs[j]
  }

  /** The set of elements occurring in `xs`. */
  function Elements<T(==)>(xs: seq<T>): set<T> {
    set x | x in xs
  }

  /** `xs` lists every element of `s`, each exactly once, and nothing else. */
  predicate IsEnumeration<T(==)>(xs: seq<T>, s: set<T>) {
    Distinct(xs) && Elements(xs) == s
  }

  /** Dropping the head of an enumeration enumerates the rest of the set. */
  lemma EnumerationTail<T>(xs: seq<T>, s: set<T>)
    requires IsEnumeration(xs, s)
    requires xs != []
    ensures xs[0] in s
    ensures IsEnumeration(xs[1..], s - {xs[0]})
  {
  }

  /** An enumeration of a set is exactly as long as the set is large. */
  lemma {:induction false} EnumerationLength<T>(xs: seq<T>, s: set<T>)
    requires IsEnumeration(xs, s)
    ensures |xs| == |s|
  {
    if xs == [] {
      assert s == {};
    } else {
      EnumerationTail(xs, s);
      EnumerationLength(xs[1..], s - {xs[0]});
    }
  }

  /** A sequence without duplicates counts each of its elements once. */
  lemma {:induction false} DistinctMultiset<T>(xs: seq<T>)
    requires Distinct(xs)
    ensures multiset(xs) == multiset(Elements(xs))
  {
    if xs != [] {
      var rest := xs[1..];
      assert xs == [xs[0]] + rest;
      assert Distinct(rest) by {
        forall i, j | 0 <= i < j < |rest|
          ensures rest[i] != rest[j]
        {
          assert rest[i] == xs[i + 1] && rest[j] == xs[j + 1];
        }
      }
      DistinctMultiset(rest);
      assert xs[0] !in Elements(rest) by {
        forall k | 0 <= k < |rest|
          ensures rest[k] != xs[0]
        {
          assert rest[k] == xs[k + 1];
        }
      }
      assert Elements(xs) == {xs[0]} + Elements(rest);
    }
  }

  /** Every finite set has an enumeration, so requiring one of a map's keys excludes no map. */
  lemma {:induction false} EnumerationExists<T>(s: set<T>) returns (xs: seq<T>)
    ensures IsEnumeration(xs, s)
    decreases |s|
  {
    if s == {} {
      xs := [];
    } else {
      var x :| x in s;
      var rest := EnumerationExists(s - {x});
      xs := [x] + rest;
      forall i, j | 0 <= i < j < |xs|
        ensures xs[i] != xs[j]
      {
        if i > 0 {
          assert xs[i] == rest[i - 1] && xs[j] == rest[j - 1];
        } else {
          assert xs[j] == rest[j - 1] && rest[j - 1] in Elements(rest);
        }
      }
      assert Elements(xs) == {x} + Elements(rest);
    }
  }

  /** A sequence has at most as many distinct elements as positions, and exactly as many only when it repeats none. */
  lemma {:induction false} ElementsCardinality<T>(xs: seq<T>)
    ensures |Elements(xs)| <= |xs|
    ensures |Elements(xs)| == |xs| ==> Distinct(xs)
  {
    if xs != [] {
      var rest := xs[1..];
      assert xs == [xs[0]] + rest;
      ElementsCardinality(rest);
      assert Elements(xs) == {xs[0]} + Elements(rest);
      if |Elements(xs)| == |xs| {
        assert xs[0] !in Elements(rest);
        forall i, j | 0 <= i < j < |xs|
          ensures xs[i] != xs[j]
        {
          if i > 0 {
            assert xs[i] == rest[i - 1] && xs[j] == rest[j - 1];
          } else {
            assert xs[j] == rest[j - 1] && rest[j - 1] in Elements(rest);
          }
        }
      }
    }
  }

  /** A sequence no longer than a set that mentions every element of it enumerates that set. */
  lemma CoveringSequenceIsEnumeration<T>(xs: seq<T>, s: set<T>)
    requires s <= Elements(xs)
    requires |xs| <= |s|
    ensures IsEnumeration(xs, s)
  {
    ElementsCardinality(xs);
    var extra := Elements(xs) - s;
    assert Elements(xs) == s + extra;
    assert |Elements(xs)| == |s| + |extra|;
    assert extra == {};
  }
}
