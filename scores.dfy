/** The score map of the Home wizard's "add location" form (`newLocation.scores`,
    criterion id -> rating) and the "scored criteria" count shown on each location. */
module Scores {
  import opened Entities

  /** The rating a criterion starts with in the form. */
  const DefaultScore: real := 5.0

  /** The ids carried by a list of criteria, as a set. */
  function IdSet(criteria: seq<Criterion>): set<Id>
  {
    set c | c in criteria :: c.id
  }

  /** The loop of the initial load: one entry per loaded criterion, each at the default. */
  method InitialScores(criteria: seq<Criterion>) returns (scores: map<Id, real>)
    ensures scores.Keys == IdSet(criteria)
    ensures forall id :: id in scores ==> scores[id] == DefaultScore
  {
    scores := map[];
    var i := 0;
    while i < |criteria|
      invariant 0 <= i <= |criteria|
      invariant scores.Keys == IdSet(criteria[..i])
      invariant forall id :: id in scores ==> scores[id] == DefaultScore
    {
      assert criteria[..i + 1] == criteria[..i] + [criteria[i]];
      IdSetAppend(criteria[..i], criteria[i]);
      scores := scores[criteria[i].id := DefaultScore];
      i := i + 1;
    }
    assert criteria[..|criteria|] == criteria;
  }

  lemma IdSetAppend(criteria: seq<Criterion>, c: Criterion)
    ensures IdSet(criteria + [c]) == IdSet(criteria) + {c.id}
  {
  }

  lemma IdSetOfSublist(sub: seq<Criterion>, criteria: seq<Criterion>)
    requires forall c :: c in sub ==> c in criteria
    ensures IdSet(sub) <= IdSet(criteria)
  {
  }

  /** `handleAddCriterion`: the new criterion's key enters the form at the default;
      every other key keeps its score. */
  function WithNewCriterion(scores: map<Id, real>, id: Id): (r: map<Id, real>)
    ensures r.Keys == scores.Keys + {id}
    ensures r[id] == DefaultScore
    ensures forall k :: k in scores && k != id ==> r[k] == scores[k]
  {
    scores[id := DefaultScore]
  }

  /** Adding a criterion keeps a form whose keys are the criteria ids in step with the list. */
  lemma WithNewCriterionFollowsCriteria(scores: map<Id, real>, criteria: seq<Criterion>, c: Criterion)
    requires scores.Keys == IdSet(criteria)
    ensures WithNewCriterion(scores, c.id).Keys == IdSet(criteria + [c])
  {
  }

  /** `handleAddLocation`: after a location is saved the form keeps its keys and each
      score goes back to the default. */
  function ResetScores(scores: map<Id, real>): (r: map<Id, real>)
    ensures r.Keys == scores.Keys
    ensures forall k :: k in r ==> r[k] == DefaultScore
  {
    map k | k in scores :: DefaultScore
  }

  /** `handleScoreChange`: one criterion's score is set; every other key keeps its score. */
  function WithScore(scores: map<Id, real>, id: Id, value: real): (r: map<Id, real>)
    ensures r.Keys == scores.Keys + {id}
    ensures r[id] == value
    ensures forall k :: k in scores && k != id ==> r[k] == scores[k]
  {
    scores[id := value]
  }

  /** An edit to an existing key is forgotten by the next reset. */
  lemma ResetForgetsEdit(scores: map<Id, real>, id: Id, value: real)
    requires id in scores
    ensures ResetScores(WithScore(scores, id, value)) == ResetScores(scores)
  {
  }

  /** The keys whose score is positive. */
  function Scored(scores: map<Id, real>): set<Id>
  {
    set k | k in scores && scores[k] > 0.0
  }

  /** The "Scores: n/... criteria" caption: how many scores are positive, never more than
      there are scores. */
  function ScoredCount(scores: map<Id, real>): (r: nat)
    ensures r <= |scores|
  {
    assert Scored(scores) <= scores.Keys;
    SubsetCard(Scored(scores), scores.Keys);
    |Scored(scores)|
  }

  lemma {:induction false} SubsetCard(a: set<Id>, b: set<Id>)
    requires a <= b
    ensures |a| <= |b|
    decreases |b|
  {
    if a != {} {
      var x :| x in a;
      SubsetCard(a - {x}, b - {x});
    }
  }

  /** Every score is counted exactly when every score is positive. */
  lemma ScoredCountAllPositive(scores: map<Id, real>)
    ensures ScoredCount(scores) == |scores| <==> forall k :: k in scores ==> scores[k] > 0.0
  {
    if forall k :: k in scores ==> scores[k] > 0.0 {
      assert Scored(scores) == scores.Keys;
    } else {
      var k :| k in scores && scores[k] <= 0.0;
      SubsetCard(Scored(scores), scores.Keys - {k});
    }
  }

  /** After a reset every key counts as scored. */
  lemma ScoredCountAfterReset(scores: map<Id, real>)
    ensures ScoredCount(ResetScores(scores)) == |scores|
  {
    ScoredCountAllPositive(ResetScores(scores));
  }

  /** Setting one existing key changes the count by at most one, as its sign dictates. */
  lemma ScoredCountAfterScore(scores: map<Id, real>, id: Id, value: real)
    requires id in scores
    ensures ScoredCount(WithScore(scores, id, value))
            == ScoredCount(scores) - (if scores[id] > 0.0 then 1 else 0) + (if value > 0.0 then 1 else 0)
  {
    var r := WithScore(scores, id, value);
    var others := Scored(scores) - {id};
    assert Scored(r) - {id} == others;
    assert Scored(scores) == if scores[id] > 0.0 then others + {id} else others;
    assert Scored(r) == if value > 0.0 then others + {id} else others;
  }
}
