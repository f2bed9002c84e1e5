/** The records the wizard of the Home page keeps in its state. Ids are the
    opaque string keys the server assigns (`_id`); comparison values and
    scores are JavaScript numbers, modelled as exact reals. */
module Entities {

  type Id = string

  datatype Option<T> = None | Some(value: T)

  /** A decision criterion as returned by the server. */
  datatype Criterion = Criterion(id: Id, name: string, description: string)

  /** A candidate location; `scores` maps criterion ids to the 1..10 rating. */
  datatype Location = Location(id: Id, name: string, address: string, scores: map<Id, real>)

  /** One pairwise judgement: `criterionA` is `value` times as important as `criterionB`. */
  datatype Comparison = Comparison(criterionA: Id, criterionB: Id, value: real)

  /** The ids of a list of criteria, in list order (`criteria.map(c => c._id)`). */
  function Ids(criteria: seq<Criterion>): (ids: seq<Id>)
    ensures |ids| == |criteria|
    ensures forall k :: 0 <= k < |criteria| ==> ids[k] == criteria[k].id
  {
    seq(|criteria|, k requires 0 <= k < |criteria| => criteria[k].id)
  }

  /** No id occurs twice. */
  predicate Distinct(ids: seq<Id>)
  {
    forall p, q :: 0 <= p < q < |ids| ==> ids[p] != ids[q]
  }
}
