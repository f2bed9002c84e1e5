/** The delete handlers of the Home wizard: `prev.filter(x => x._id !== id)` on the
    criteria and on the locations. */
module Deletion {
  import opened Entities

  /** `r` is `xs` with some elements dropped and the rest kept in their order. */
  predicate IsSubsequence<T(==)>(r: seq<T>, xs: seq<T>)
    decreases |xs|
  {
    if r == [] then true
    else if xs == [] then false
    else (r[0] == xs[0] && IsSubsequence(r[1..], xs[1..])) || IsSubsequence(r, xs[1..])
  }

  /** The elements of `xs` whose id differs from `id`, in their original order. Each such
      element keeps its multiplicity; every element carrying `id` is gone. */
  function WithoutId<T(!new)>(xs: seq<T>, idOf: T -> Id, id: Id): (r: seq<T>)
    ensures forall x :: x in r <==> x in xs && idOf(x) != id
    ensures forall x :: multiset(r)[x] == if idOf(x) == id then 0 else multiset(xs)[x]
  {
    if xs == [] then []
    else
      var rest := WithoutId(xs[1..], idOf, id);
      assert xs == [xs[0]] + xs[1..];
      if idOf(xs[0]) == id then rest else [xs[0]] + rest
  }

  /** Deleting keeps the survivors in their relative order. */
  lemma {:induction false} WithoutIdKeepsOrder<T(!new)>(xs: seq<T>, idOf: T -> Id, id: Id)
    ensures IsSubsequence(WithoutId(xs, idOf, id), xs)
  {
    if xs != [] {
      WithoutIdKeepsOrder(xs[1..], idOf, id);
      var rest := WithoutId(xs[1..], idOf, id);
      if idOf(xs[0]) == id {
        assert IsSubsequence(rest, xs[1..]);
      } else {
        assert ([xs[0]] + rest)[1..] == rest;
      }
    }
  }

  /** Deleting an id that no element carries changes nothing. */
  lemma {:induction false} WithoutAbsentId<T(!new)>(xs: seq<T>, idOf: T -> Id, id: Id)
    requires forall k :: 0 <= k < |xs| ==> idOf(xs[k]) != id
    ensures WithoutId(xs, idOf, id) == xs
  {
    if xs != [] {
      WithoutAbsentId(xs[1..], idOf, id);
      assert xs == [xs[0]] + xs[1..];
    }
  }

  /** Deleting twice by the same id is the same as deleting once. */
  lemma WithoutIdIdempotent<T(!new)>(xs: seq<T>, idOf: T -> Id, id: Id)
    ensures WithoutId(WithoutId(xs, idOf, id), idOf, id) == WithoutId(xs, idOf, id)
  {
    var r := WithoutId(xs, idOf, id);
    forall k | 0 <= k < |r| ensures idOf(r[k]) != id {
      assert r[k] in r;
    }
    WithoutAbsentId(r, idOf, id);
  }

  function CriterionId(c: Criterion): Id { c.id }

  function LocationId(l: Location): Id { l.id }

  /** `handleDeleteCriterion` once confirmed and accepted by the server. */
  function DeleteCriterion(criteria: seq<Criterion>, id: Id): (r: seq<Criterion>)
    ensures forall c :: c in r <==> c in criteria && c.id != id
    ensures forall c :: multiset(r)[c] == if c.id == id then 0 else multiset(criteria)[c]
    ensures IsSubsequence(r, criteria)
  {
    WithoutIdKeepsOrder(criteria, CriterionId, id);
    WithoutId(criteria, CriterionId, id)
  }

  /** `handleDeleteLocation` once confirmed and accepted by the server. */
  function DeleteLocation(locations: seq<Location>, id: Id): (r: seq<Location>)
    ensures forall l :: l in r <==> l in locations && l.id != id
    ensures forall l :: multiset(r)[l] == if l.id == id then 0 else multiset(locations)[l]
    ensures IsSubsequence(r, locations)
  {
    WithoutIdKeepsOrder(locations, LocationId, id);
    WithoutId(locations, LocationId, id)
  }
}
