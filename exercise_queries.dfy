/**
 * The read side of the exercises of a plan: the lookup of one exercise through its plan's
 * club (`_get_exercise_in_plan` of app/repositories/exercise.py and
 * `_get_exercise_in_plan_and_club_or_raise` of app/crud/exercise.py) and the two listing
 * orders. Postgres sorts NULL last in an ascending order, so a row without a position comes
 * after every positioned row.
 */
module ExerciseQueries {
  import opened Wrappers
  import opened Models
  import opened Rows
  import opened PlanQueries

  /** Whether `e` is the exercise `exerciseId` of plan `planId`, and that plan belongs to the club. */
  predicate InPlanOfClub(e: Exercise, plans: seq<Plan>, clubId: int, planId: int, exerciseId: int) {
    e.id == exerciseId && e.planId == planId && PlanInClub(plans, clubId, planId).Some?
  }

  /** The index of the exercise the join `exercises JOIN plans` finds, if any. */
  function ExerciseIndex(es: seq<Exercise>, plans: seq<Plan>, clubId: int, planId: int, exerciseId: int): (r: Option<nat>)
    ensures r.Some? ==> r.value < |es| && InPlanOfClub(es[r.value], plans, clubId, planId, exerciseId)
    ensures r.None? <==> forall k :: 0 <= k < |es| ==> !InPlanOfClub(es[k], plans, clubId, planId, exerciseId)
  {
    if PlanInClub(plans, clubId, planId).None? then None
    else FindFirst(es, (e: Exercise) => e.id == exerciseId && e.planId == planId)
  }

  /** The exercise itself; a plan of another club hides its exercises. */
  function ExerciseInPlan(es: seq<Exercise>, plans: seq<Plan>, clubId: int, planId: int, exerciseId: int): (r: Option<Exercise>)
    ensures r.Some? ==> r.value in es && r.value.id == exerciseId && r.value.planId == planId
    ensures r.Some? ==> exists p :: p in plans && p.id == planId && p.clubId == clubId
    ensures r.None? <==> ((forall p :: p in plans ==> !(p.id == planId && p.clubId == clubId)) ||
                          (forall e :: e in es ==> !(e.id == exerciseId && e.planId == planId)))
  {
    var i := ExerciseIndex(es, plans, clubId, planId, exerciseId);
    if i.Some? then Some(es[i.value]) else None
  }

  /** `ORDER BY position ASC, id ASC`, with NULL positions last. */
  function PositionIdKey(e: Exercise): seq<int> {
    if e.position.Some? then [0, e.position.value, e.id] else [1, 0, e.id]
  }

  /** `ORDER BY position ASC`, with NULL positions last; rows with equal keys keep no promised order. */
  function PositionKey(e: Exercise): seq<int> {
    if e.position.Some? then [0, e.position.value] else [1, 0]
  }

  /** The rows of a plan. */
  function RowsOfPlan(es: seq<Exercise>, planId: int): (r: seq<Exercise>)
    ensures forall e :: e in r <==> e in es && e.planId == planId
    ensures forall e :: multiset(r)[e] == if e.planId == planId then multiset(es)[e] else 0
  {
    Filter(es, (e: Exercise) => e.planId == planId)
  }

  /**
   * `list_in_plan`: every exercise of the plan exactly once, positioned rows first by
   * position, ties and NULL positions by id.
   */
  function ListInPlan(es: seq<Exercise>, planId: int): (r: seq<Exercise>)
    ensures forall e :: e in r <==> e in es && e.planId == planId
    ensures multiset(r) == multiset(RowsOfPlan(es, planId))
    ensures SortedBy(r, PositionIdKey)
  {
    SortBy(RowsOfPlan(es, planId), PositionIdKey)
  }

  /** `list_exercises` of app/crud/exercise.py: the same rows, ordered by position only. */
  function ListByPosition(es: seq<Exercise>, planId: int): (r: seq<Exercise>)
    ensures forall e :: e in r <==> e in es && e.planId == planId
    ensures multiset(r) == multiset(RowsOfPlan(es, planId))
    ensures SortedBy(r, PositionKey)
  {
    SortBy(RowsOfPlan(es, planId), PositionKey)
  }

  /** Two keys in order: a positioned row never follows a row without one, and positions ascend. */
  lemma KeyOrder(a: Exercise, b: Exercise)
    requires LexLe(PositionIdKey(a), PositionIdKey(b)) && b.position.Some?
    ensures a.position.Some? && a.position.value <= b.position.value
  {
    var ka, kb := PositionIdKey(a), PositionIdKey(b);
    assert ka[0] <= kb[0];
    assert ka[0] == kb[0] ==> ka[1] <= kb[1] by {
      if ka[0] == kb[0] {
        assert LexLe(ka[1..], kb[1..]);
      }
    }
  }

  /** In the repository's listing, positioned rows come first and in ascending position. */
  lemma ListedPositionsAscend(es: seq<Exercise>, planId: int, i: nat, j: nat)
    requires i < j < |ListInPlan(es, planId)|
    ensures var r := ListInPlan(es, planId);
      r[j].position.Some? ==> r[i].position.Some? && r[i].position.value <= r[j].position.value
  {
    var r := ListInPlan(es, planId);
    assert SortedBy(r, PositionIdKey);
    if r[j].position.Some? {
      KeyOrder(r[i], r[j]);
    }
  }
}
