/**
 * `PlanAssignmentService` (app/services/plan_assignment.py). Each operation runs its checks
 * in a fixed order and stops at the first that fails: the acting user's role in the club,
 * the plan's club, then (to add) the target user's membership or (to remove) the assignee's
 * plan. Only when every check passes does the repository write.
 */
module PlanAssignmentService {
  import opened Wrappers
  import opened Models
  import opened Errors
  import opened Rows
  import opened Database
  import opened RoleGuards
  import opened PlanQueries
  import opened PlanAssignmentRepository

  /**
   * The checks of `add_assignee`, in order: the actor is a coach or owner, the plan is in the
   * club, the target user is a member (any failure of that last check is `UserNotClubMember`).
   * `None` means every check passed.
   */
  function AddAssigneeChecks(ms: seq<Membership>, plans: seq<Plan>, clubId: int, planId: int, meId: int, userId: int)
    : (r: Option<Fault>)
    ensures r.None? <==>
      (RequireCoachOrOwnerOfClub(ms, meId, clubId).Ok? && PlanInClub(plans, clubId, planId).Some? &&
       exists m :: m in ms && m.userId == userId && m.clubId == clubId)
    ensures r.Some? ==> r.value in {Domain(NotClubMember), Domain(CoachOrOwnerRequired), Domain(PlanNotFound), Domain(UserNotClubMember)}
    ensures r == Some(Domain(UserNotClubMember)) <==>
      (RequireCoachOrOwnerOfClub(ms, meId, clubId).Ok? && PlanInClub(plans, clubId, planId).Some? &&
       forall m :: m in ms ==> !(m.userId == userId && m.clubId == clubId))
  {
    var actor := RequireCoachOrOwnerOfClub(ms, meId, clubId);
    if actor.Err? then Some(actor.error)
    else if PlanInClub(plans, clubId, planId).None? then Some(Domain(PlanNotFound))
    else if RequireMemberOfClub(ms, userId, clubId).Err? then Some(Domain(UserNotClubMember))
    else None
  }

  /**
   * A failed step decides the outcome whatever the later steps would say: a failing actor
   * check gives the same error for any plan and any target, and a missing plan the same
   * error for any target.
   */
  lemma AddAssigneeChecksInOrder(ms: seq<Membership>, plans: seq<Plan>, plans': seq<Plan>, clubId: int, planId: int,
                                 meId: int, userId: int, userId': int)
    ensures RequireCoachOrOwnerOfClub(ms, meId, clubId).Err? ==>
      AddAssigneeChecks(ms, plans, clubId, planId, meId, userId) == AddAssigneeChecks(ms, plans', clubId, planId, meId, userId') &&
      AddAssigneeChecks(ms, plans, clubId, planId, meId, userId) == Some(RequireCoachOrOwnerOfClub(ms, meId, clubId).error)
    ensures RequireCoachOrOwnerOfClub(ms, meId, clubId).Ok? && PlanInClub(plans, clubId, planId).None? ==>
      AddAssigneeChecks(ms, plans, clubId, planId, meId, userId) == AddAssigneeChecks(ms, plans, clubId, planId, meId, userId') &&
      AddAssigneeChecks(ms, plans, clubId, planId, meId, userId) == Some(Domain(PlanNotFound))
  {
  }

  /** The index of assignee `assigneeId` when it belongs to plan `planId` (`not obj or obj.plan_id != plan_id`). */
  function AssigneeInPlan(as_: seq<PlanAssignee>, planId: int, assigneeId: int): (r: Option<nat>)
    ensures r.Some? ==> r.value < |as_| && as_[r.value].id == assigneeId && as_[r.value].planId == planId
    ensures r.Some? ==> r == AssigneeIndex(as_, assigneeId)
  {
    var i := AssigneeIndex(as_, assigneeId);
    if i.Some? && as_[i.value].planId == planId then i else None
  }

  /** With distinct ids, the lookup misses exactly when no row of the plan has that id. */
  lemma AssigneeInPlanMisses(as_: seq<PlanAssignee>, planId: int, assigneeId: int)
    requires DistinctIds(as_, AssigneeId)
    ensures AssigneeInPlan(as_, planId, assigneeId).None? <==>
      forall k :: 0 <= k < |as_| && as_[k].id == assigneeId ==> as_[k].planId != planId
  {
    if k :| 0 <= k < |as_| && as_[k].id == assigneeId && as_[k].planId == planId {
      AssigneeIndexUnique(as_, assigneeId, k);
    }
  }

  class PlanAssignmentService {
    const repo: PlanAssignmentRepository

    constructor (repo: PlanAssignmentRepository)
      ensures this.repo == repo
    {
      this.repo := repo;
    }

    /** `list_assignees`: the member guard, then the plan, then the listing. */
    method ListAssignees(clubId: int, planId: int, meId: int) returns (r: Result<seq<PlanAssignee>, Fault>)
      ensures RequireMemberOfClub(repo.db.memberships, meId, clubId).Err? ==> r == Err(Domain(NotClubMember))
      ensures RequireMemberOfClub(repo.db.memberships, meId, clubId).Ok? ==>
        (r.Err? <==> PlanInClub(repo.db.plans, clubId, planId).None?) &&
        (r.Err? ==> r.error == Domain(PlanNotFound)) &&
        (r.Ok? ==> r.value == AssigneesOfPlan(repo.db.assignees, planId))
    {
      var guard := RequireMemberOfClub(repo.db.memberships, meId, clubId);
      if guard.Err? {
        return Err(guard.error);
      }
      var plan := repo.GetPlanInClub(clubId, planId);
      if plan.Err? {
        return Err(plan.error);
      }
      var rows := repo.ListForPlan(planId);
      r := Ok(rows);
    }

    /**
     * `add_assignee`: the three checks, then a user assignee recorded as assigned by the
     * acting user. A failed check adds nothing.
     */
    method AddAssignee(clubId: int, planId: int, meId: int, userId: int, role: PlanAssigneeRole, now: int)
      returns (r: Result<PlanAssignee, Fault>)
      requires AssigneesValid(repo.db.assignees)
      modifies repo.db`assignees
      ensures AssigneesValid(repo.db.assignees)
      ensures AddAssigneeChecks(repo.db.memberships, repo.db.plans, clubId, planId, meId, userId).Some? ==>
        r == Err(AddAssigneeChecks(repo.db.memberships, repo.db.plans, clubId, planId, meId, userId).value) &&
        repo.db.assignees == old(repo.db.assignees)
      ensures AddAssigneeChecks(repo.db.memberships, repo.db.plans, clubId, planId, meId, userId).None? ==>
        UserAssigneeCreated(old(repo.db.assignees), repo.db.assignees, repo.db.plans, repo.db.users,
                            planId, userId, role, meId, now, r)
    {
      var actor := RequireCoachOrOwnerOfClub(repo.db.memberships, meId, clubId);
      if actor.Err? {
        return Err(actor.error);
      }
      var plan := repo.GetPlanInClub(clubId, planId);
      if plan.Err? {
        return Err(plan.error);
      }
      var target := RequireMemberOfClub(repo.db.memberships, userId, clubId);
      if target.Err? {
        return Err(Domain(UserNotClubMember));
      }
      r := repo.CreateUserAssignee(planId, userId, role, meId, now);
    }

    /**
     * `remove_assignee`: the actor check, the plan, then the assignee must exist and belong
     * to that plan; an assignee of another plan is `PlanAssigneeNotFound` and stays.
     */
    method RemoveAssignee(clubId: int, planId: int, assigneeId: int, meId: int) returns (err: Option<Fault>)
      requires AssigneesValid(repo.db.assignees)
      modifies repo.db`assignees
      ensures AssigneesValid(repo.db.assignees)
      ensures RequireCoachOrOwnerOfClub(repo.db.memberships, meId, clubId).Err? ==>
        err == Some(RequireCoachOrOwnerOfClub(repo.db.memberships, meId, clubId).error) &&
        repo.db.assignees == old(repo.db.assignees)
      ensures RequireCoachOrOwnerOfClub(repo.db.memberships, meId, clubId).Ok? && PlanInClub(repo.db.plans, clubId, planId).None? ==>
        err == Some(Domain(PlanNotFound)) && repo.db.assignees == old(repo.db.assignees)
      ensures RequireCoachOrOwnerOfClub(repo.db.memberships, meId, clubId).Ok? && PlanInClub(repo.db.plans, clubId, planId).Some? ==>
        var found := AssigneeInPlan(old(repo.db.assignees), planId, assigneeId);
        (found.None? ==> err == Some(Domain(PlanAssigneeNotFound)) && repo.db.assignees == old(repo.db.assignees)) &&
        (found.Some? ==> err.None? && repo.db.assignees == RemoveAt(old(repo.db.assignees), found.value))
    {
      var actor := RequireCoachOrOwnerOfClub(repo.db.memberships, meId, clubId);
      if actor.Err? {
        return Some(actor.error);
      }
      var plan := repo.GetPlanInClub(clubId, planId);
      if plan.Err? {
        return Some(plan.error);
      }
      var obj := repo.Get(assigneeId);
      if obj.None? || obj.value.planId != planId {
        return Some(Domain(PlanAssigneeNotFound));
      }
      var k :| 0 <= k < |repo.db.assignees| && repo.db.assignees[k] == obj.value;
      AssigneeIndexUnique(repo.db.assignees, assigneeId, k);
      repo.Delete(obj.value);
      err := None;
    }
  }
}
