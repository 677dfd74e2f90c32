/** The two calls into Python's `random` module that the card builder makes,
    with the random choice turned into a caller-supplied input. */
module Randomness {
  import opened Wrappers

  /** The `ValueError`s the two calls can raise. */
  datatype ValueError =
    | EmptyRange                  // randrange(start, stop) with start >= stop
    | SampleLargerThanPopulation  // sample(population, k) without 0 <= k <= len(population)

  predicate Distinct<T(==)>(xs: seq<T>)
  {
    forall i, j :: 0 <= i < j < |xs| ==> xs[i] != xs[j]
  }

  /** `order` lists every element of `population` exactly once. Any such
      order is a possible outcome of shuffling the population. */
  ghost predicate IsOrdering<T>(order: seq<T>, population: set<T>)
  {
    && |order| == |population|
    && Distinct(order)
    && (forall x :: x in order ==> x in population)
    && (forall x :: x in population ==> x in order)
  }

  /** The elements of a sequence, as a set. */
  function Elements<T>(xs: seq<T>): (r: set<T>)
  {
    set x | x in xs
  }

  lemma {:induction false} DistinctCardinality<T>(xs: seq<T>)
    requires Distinct(xs)
    ensures |Elements(xs)| == |xs|
  {
    if xs != [] {
      var rest := xs[1..];
      assert Distinct(rest) by {
        forall i, j | 0 <= i < j < |rest| ensures rest[i] != rest[j] {
          assert rest[i] == xs[i + 1] && rest[j] == xs[j + 1];
        }
      }
      DistinctCardinality(rest);
      assert xs[0] !in rest by {
        forall i | 0 <= i < |rest| ensures rest[i] != xs[0] {
          assert rest[i] == xs[i + 1];
        }
      }
      assert Elements(xs) == Elements(rest) + {xs[0]} by {
        assert xs == [xs[0]] + rest;
      }
    }
  }

  /** Every finite population has at least one ordering, so the inputs below
      that stand for a random shuffle can always be supplied. */
  ghost function {:induction false} SomeOrdering<T>(population: set<T>): (order: seq<T>)
    ensures IsOrdering(order, population)
    decreases |population|
  {
    if population == {} then []
    else
      var x :| x in population;
      var rest := SomeOrdering(population - {x});
      assert x !in rest;
      assert Distinct([x] + rest) by {
        var xs := [x] + rest;
        forall i, j | 0 <= i < j < |xs| ensures xs[i] != xs[j] {
          assert xs[j] == rest[j - 1];
          if i > 0 {
            assert xs[i] == rest[i - 1];
          }
        }
      }
      [x] + rest
  }

  /** `randrange(start, stop)`: `choice` is the value the generator picks; the
      call raises when the range is empty. */
  function RandRange(start: int, stop: int, choice: int): (r: Result<int, ValueError>)
    requires start < stop ==> start <= choice < stop
    ensures r.Ok? <==> start < stop
    ensures r.Ok? ==> start <= r.value < stop
    ensures r.Err? ==> r.error == EmptyRange
  {
    if start < stop then Ok(choice) else Err(EmptyRange)
  }

  /** `sample(population, k)`: `order` is the random shuffle of the population
      the draw is taken from; the call raises unless 0 <= k <= |population|. */
  function Sample<T>(population: set<T>, k: int, order: seq<T>): (r: Result<seq<T>, ValueError>)
    requires IsOrdering(order, population)
    ensures r.Ok? <==> 0 <= k <= |population|
    ensures r.Err? ==> r.error == SampleLargerThanPopulation
    ensures r.Ok? ==> |r.value| == k && Distinct(r.value)
    ensures r.Ok? ==> forall x :: x in r.value ==> x in population
    ensures r.Ok? ==> r.value == order[..k]
  {
    if 0 <= k <= |population| then Ok(order[..k]) else Err(SampleLargerThanPopulation)
  }

  /** Every outcome `sample` may produce (any `k` distinct members of the
      population, in any order) is produced by `Sample` for some ordering. */
  lemma {:induction false} SampleComplete<T>(population: set<T>, draw: seq<T>)
    requires Distinct(draw)
    requires forall x :: x in draw ==> x in population
    ensures exists order :: IsOrdering(order, population) && Sample(population, |draw|, order) == Ok(draw)
  {
    var rest := SomeOrdering(population - Elements(draw));
    ExtendToOrdering(population, draw, rest);
    var order := draw + rest;
    assert order[..|draw|] == draw;
    assert Sample(population, |draw|, order) == Ok(draw);
  }

  /** A distinct draw followed by an ordering of the members it left out is
      an ordering of the whole population. */
  lemma ExtendToOrdering<T>(population: set<T>, draw: seq<T>, rest: seq<T>)
    requires Distinct(draw)
    requires forall x :: x in draw ==> x in population
    requires IsOrdering(rest, population - Elements(draw))
    ensures IsOrdering(draw + rest, population)
  {
    DistinctAppend(draw, rest);
    DistinctCardinality(draw);
    assert Elements(draw) <= population;
    assert |population - Elements(draw)| == |population| - |Elements(draw)|;
  }

  /** Two distinct sequences with no element in common concatenate to a
      distinct sequence. */
  lemma DistinctAppend<T>(a: seq<T>, b: seq<T>)
    requires Distinct(a) && Distinct(b)
    requires forall x :: x in a ==> x !in b
    ensures Distinct(a + b)
  {
    var ab := a + b;
    forall i, j | 0 <= i < j < |ab| ensures ab[i] != ab[j] {
      if j < |a| {
        assert ab[i] == a[i] && ab[j] == a[j];
      } else if i < |a| {
        assert ab[i] == a[i] && ab[j] == b[j - |a|];
        assert a[i] in a;
      } else {
        assert ab[i] == b[i - |a|] && ab[j] == b[j - |a|];
      }
    }
  }
}
