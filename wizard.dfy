/** The state of the Home wizard and its handlers. Each React state variable is a
    field; each handler is a method that updates the fields as its setters do. Server
    calls are parameters: a handler receives what the server answered, or `None` /
    `false` when the request failed or the user backed out, in which case nothing changes. */
module Wizard {
  import opened Entities
  import opened Comparisons
  import opened Scores
  import Deletion

  /** `cs` lists the same (criterion_a, criterion_b) pairs as `ps`, in the same order;
      only the values may differ. */
  predicate SameShape(cs: seq<Comparison>, ps: seq<Comparison>)
  {
    && |cs| == |ps|
    && forall k :: 0 <= k < |cs| ==>
         cs[k].criterionA == ps[k].criterionA && cs[k].criterionB == ps[k].criterionB
  }

  /** A comparison list shaped after the current criteria only names current criteria. */
  lemma ShapedComparisonsNameCriteria(cs: seq<Comparison>, criteria: seq<Criterion>)
    requires SameShape(cs, Pairs(Ids(criteria)))
    ensures forall k :: 0 <= k < |cs| ==>
      cs[k].criterionA in Ids(criteria) && cs[k].criterionB in Ids(criteria)
  {
    var ps := Pairs(Ids(criteria));
    forall k | 0 <= k < |cs|
      ensures cs[k].criterionA in Ids(criteria) && cs[k].criterionB in Ids(criteria)
    {
      var i, j := PairsDecode(Ids(criteria), k);
    }
  }

  /** Deleting criteria never leaves the form without a score for a remaining criterion. */
  lemma DeletedCriteriaKeepScores(criteria: seq<Criterion>, id: Id, scores: map<Id, real>)
    requires IdSet(criteria) <= scores.Keys
    ensures IdSet(Deletion.DeleteCriterion(criteria, id)) <= scores.Keys
  {
    IdSetOfSublist(Deletion.DeleteCriterion(criteria, id), criteria);
  }

  class Home {
    var criteria: seq<Criterion>
    var locations: seq<Location>
    var comparisons: seq<Comparison>
    /** `newLocation.scores`, the ratings of the "add location" form. */
    var formScores: map<Id, real>

    /** The comparisons are the upper triangle over the current criteria (with whatever
        values the sliders set), and the form has a score for every current criterion. */
    ghost predicate Valid()
      reads this
    {
      && SameShape(comparisons, Pairs(Ids(criteria)))
      && IdSet(criteria) <= formScores.Keys
    }

    /** The initial `useState` values. */
    constructor ()
      ensures Valid()
      ensures criteria == [] && locations == [] && comparisons == [] && formScores == map[]
    {
      criteria, locations, comparisons, formScores := [], [], [], map[];
    }

    /** The criteria effect: regenerate the list from the current criteria. Unlike the
        code as written (`RefreshComparisonsAsWritten`), the list is rebuilt for fewer
        than two criteria too, where it becomes empty. */
    method CriteriaChanged()
      modifies this`comparisons
      ensures criteria == old(criteria) && locations == old(locations) && formScores == old(formScores)
      ensures comparisons == Pairs(Ids(criteria))
      ensures forall k :: 0 <= k < |comparisons| ==> comparisons[k].value == EqualImportance
      ensures |criteria| <= 1 ==> comparisons == []
    {
      comparisons := GenerateComparisons(criteria);
      PairsEntries(Ids(criteria));
      if |criteria| <= 1 {
        PairsOfShortList(Ids(criteria));
      }
    }

    /** The initial load: criteria and locations from the server, a default score per
        criterion in the form, then the criteria effect. */
    method Load(loaded: Option<(seq<Criterion>, seq<Location>)>)
      requires Valid()
      modifies this
      ensures Valid()
      ensures loaded.None? ==>
        criteria == old(criteria) && locations == old(locations)
        && comparisons == old(comparisons) && formScores == old(formScores)
      ensures loaded.Some? ==>
        && criteria == loaded.value.0 && locations == loaded.value.1
        && comparisons == Pairs(Ids(criteria))
        && formScores.Keys == IdSet(criteria)
        && forall id :: id in formScores ==> formScores[id] == DefaultScore
    {
      if loaded.Some? {
        criteria, locations := loaded.value.0, loaded.value.1;
        formScores := InitialScores(criteria);
        CriteriaChanged();
      }
    }

    /** `handleAddCriterion`: append the created criterion, give it the default score in
        the form, then the criteria effect. */
    method AddCriterion(created: Option<Criterion>)
      requires Valid()
      modifies this
      ensures Valid()
      ensures locations == old(locations)
      ensures created.None? ==>
        criteria == old(criteria) && comparisons == old(comparisons) && formScores == old(formScores)
      ensures created.Some? ==>
        && criteria == old(criteria) + [created.value]
        && formScores == WithNewCriterion(old(formScores), created.value.id)
        && comparisons == Pairs(Ids(criteria))
    {
      if created.Some? {
        IdSetAppend(criteria, created.value);
        criteria := criteria + [created.value];
        formScores := WithNewCriterion(formScores, created.value.id);
        CriteriaChanged();
      }
    }

    /** `handleDeleteCriterion`: when `deleted` (confirmed and accepted by the server), drop
        every criterion with that id, then the criteria effect. The form keeps its keys. */
    method DeleteCriterion(id: Id, deleted: bool)
      requires Valid()
      modifies this
      ensures Valid()
      ensures locations == old(locations)
      ensures formScores == old(formScores)
      ensures !deleted ==> criteria == old(criteria) && comparisons == old(comparisons)
      ensures deleted ==>
        criteria == Deletion.DeleteCriterion(old(criteria), id) && comparisons == Pairs(Ids(criteria))
    {
      if deleted {
        DeletedCriteriaKeepScores(criteria, id, formScores);
        criteria := Deletion.DeleteCriterion(criteria, id);
        CriteriaChanged();
      }
    }

    /** `handleAddLocation`: append the created location and reset the form's scores to the
        default, keeping its keys. */
    method AddLocation(created: Option<Location>)
      requires Valid()
      modifies this
      ensures Valid()
      ensures criteria == old(criteria) && comparisons == old(comparisons)
      ensures created.None? ==> locations == old(locations) && formScores == old(formScores)
      ensures created.Some? ==>
        locations == old(locations) + [created.value] && formScores == ResetScores(old(formScores))
    {
      if created.Some? {
        locations := locations + [created.value];
        formScores := ResetScores(formScores);
      }
    }

    /** `handleDeleteLocation`: when `deleted`, drop every location with that id. */
    method DeleteLocation(id: Id, deleted: bool)
      requires Valid()
      modifies this
      ensures Valid()
      ensures criteria == old(criteria) && comparisons == old(comparisons) && formScores == old(formScores)
      ensures locations == if deleted then Deletion.DeleteLocation(old(locations), id) else old(locations)
    {
      if deleted {
        locations := Deletion.DeleteLocation(locations, id);
      }
    }

    /** `handleComparisonChange`: set the value of the comparison at `index`; the pairs
        themselves stay as they are. */
    method ChangeComparison(index: nat, value: real)
      requires Valid() && index < |comparisons|
      modifies this
      ensures Valid()
      ensures criteria == old(criteria) && locations == old(locations) && formScores == old(formScores)
      ensures |comparisons| == |old(comparisons)|
      ensures comparisons[index] == old(comparisons[index]).(value := value)
      ensures forall k :: 0 <= k < |comparisons| && k != index ==> comparisons[k] == old(comparisons[k])
    {
      comparisons := Comparisons.ChangeComparison(comparisons, index, value);
    }

    /** `handleScoreChange`: set one criterion's score in the form. */
    method ScoreChange(id: Id, value: real)
      requires Valid()
      modifies this
      ensures Valid()
      ensures criteria == old(criteria) && locations == old(locations) && comparisons == old(comparisons)
      ensures formScores == WithScore(old(formScores), id, value)
    {
      formScores := WithScore(formScores, id, value);
    }
  }

  /** The criteria effect as written keeps a stale list: with criteria `a`, `b` the list is
      `[(a, b, 1)]`; after `b` is deleted only `a` is left, the effect does not rebuild, and
      the remaining comparison still names `b`. */
  method StaleComparisonAfterDelete() returns (criteria: seq<Criterion>, comparisons: seq<Comparison>)
    ensures |criteria| == 1
    ensures |comparisons| == 1 && comparisons[0].criterionB !in Ids(criteria)
  {
    var a := Criterion("a", "Rent", "");
    var b := Criterion("b", "Foot traffic", "");
    var first := RefreshComparisonsAsWritten([a, b], []);
    PairsLength(Ids([a, b]));
    PairsAt(Ids([a, b]), 0, 1);
    assert first == [Comparison("a", "b", EqualImportance)];
    criteria := Deletion.DeleteCriterion([a, b], "b");
    assert criteria == [a];
    comparisons := RefreshComparisonsAsWritten(criteria, first);
  }
}
