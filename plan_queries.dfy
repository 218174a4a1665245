/**
 * The plan lookup every plan-scoped operation starts with: the plan with that id, provided it
 * belongs to the club (`_get_plan_in_club` of the exercise and plan-assignment repositories,
 * `_get_plan_in_club_or_raise` of app/crud/exercise.py, `_get_plan_in_club_or_404` of
 * app/crud/plan.py). What a miss raises differs per caller; here a miss is `None`.
 */
module PlanQueries {
  import opened Wrappers
  import opened Models
  import opened Rows

  /** `SELECT plan WHERE id = plan_id AND club_id = club_id`, `scalar_one_or_none()`. */
  function PlanInClub(plans: seq<Plan>, clubId: int, planId: int): (r: Option<Plan>)
    ensures r.Some? ==> r.value in plans && r.value.id == planId && r.value.clubId == clubId
    ensures r.None? <==> forall p :: p in plans ==> !(p.id == planId && p.clubId == clubId)
  {
    var i := FindFirst(plans, (p: Plan) => p.id == planId && p.clubId == clubId);
    if i.Some? then Some(plans[i.value]) else None
  }
}
