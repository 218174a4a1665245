/**
 * `list_assigned_plans` of app/crud/plan.py: the plans of a club that the caller is assigned
 * to, optionally narrowed to one assignee role. The role arrives either as a string, read
 * through a small alias table, or as a `PlanAssigneeRole` member, used as it is. The plan
 * lookup `_get_plan_in_club_or_404` of the same file is `PlanInClub`, which returns `None` on
 * a miss rather than raising.
 */
module PlanCrud {
  import opened Wrappers
  import opened Models
  import opened Rows
  import opened Text

  /** The `role` argument: absent (`None`), a string, or an enum member. */
  datatype RoleArg = NoRole | RoleText(text: string) | RoleMember(member: PlanAssigneeRole)

  /** `if role:`: `None` and the empty string are falsy; a non-empty string and an enum member are truthy. */
  predicate Truthy(role: RoleArg) {
    match role
    case NoRole => false
    case RoleText(s) => s != []
    case RoleMember(_) => true
  }

  /** `role_map.get(role, role)`: "member" is an alias of "athlete"; other strings pass through. */
  function RoleAlias(s: string): string {
    if s == "member" then "athlete"
    else if s == "athlete" then "athlete"
    else if s == "coach" then "coach"
    else s
  }

  /**
   * The role filter: `Ok(None)` applies none, `Ok(Some(x))` keeps assignments with role `x`,
   * `Err` is an unrecognised string, for which the function returns no rows.
   */
  function ResolveRole(role: RoleArg): (r: Result<Option<PlanAssigneeRole>, ()>)
    ensures !Truthy(role) ==> r == Ok(None)
    ensures role.RoleMember? ==> r == Ok(Some(role.member))
    ensures role.RoleText? && role.text != [] ==>
      (r == Ok(Some(Athlete)) <==> role.text in {"member", "athlete"}) &&
      (r == Ok(Some(AssigneeCoach)) <==> role.text == "coach") &&
      (r.Err? <==> role.text !in {"member", "athlete", "coach"})
  {
    if !Truthy(role) then Ok(None)
    else match role
      case RoleMember(x) => Ok(Some(x))
      case RoleText(s) =>
        var parsed := ParsePlanAssigneeRole(RoleAlias(s));
        if parsed.Some? then Ok(Some(parsed.value)) else Err(())
  }

  /** Whether `a` assigns plan `p` to the user under the role filter. */
  predicate AssignsTo(a: PlanAssignee, p: Plan, meId: int, filter: Option<PlanAssigneeRole>) {
    a.planId == p.id && a.userId == Some(meId) && (filter.None? || a.role == filter.value)
  }

  /** Whether the join `plans JOIN plan_assignees` yields plan `p`. */
  predicate AssignedPlan(assignees: seq<PlanAssignee>, p: Plan, clubId: int, meId: int, filter: Option<PlanAssigneeRole>) {
    p.clubId == clubId && exists a :: a in assignees && AssignsTo(a, p, meId, filter)
  }

  /** `ORDER BY name ASC`, by code point. */
  function NameKey(p: Plan): seq<int> {
    Codes(p.name)
  }

  /**
   * `list_assigned_plans`: the plans of club `clubId` with an assignment of the caller, under
   * the role filter, ordered by name; an unrecognised role string yields nothing.
   */
  function ListAssignedPlans(plans: seq<Plan>, assignees: seq<PlanAssignee>, clubId: int, meId: int, role: RoleArg)
    : (r: seq<Plan>)
    ensures ResolveRole(role).Err? ==> r == []
    ensures ResolveRole(role).Ok? ==>
      forall p :: p in r <==> p in plans && AssignedPlan(assignees, p, clubId, meId, ResolveRole(role).value)
    ensures forall p :: p in r ==> p.clubId == clubId && exists a :: a in assignees && a.planId == p.id && a.userId == Some(meId)
    ensures SortedBy(r, NameKey)
  {
    var filter := ResolveRole(role);
    if filter.Err? then []
    else
      var mine := Filter(plans, (p: Plan) => AssignedPlan(assignees, p, clubId, meId, filter.value));
      SortByKeepsRows(mine, NameKey);
      SortBy(mine, NameKey)
  }

  /** A role filter only narrows: every plan listed under a role is listed without one. */
  lemma RoleFilterNarrows(plans: seq<Plan>, assignees: seq<PlanAssignee>, clubId: int, meId: int, role: RoleArg)
    ensures forall p :: p in ListAssignedPlans(plans, assignees, clubId, meId, role) ==>
      p in ListAssignedPlans(plans, assignees, clubId, meId, NoRole)
  {
    forall p | p in ListAssignedPlans(plans, assignees, clubId, meId, role)
      ensures p in ListAssignedPlans(plans, assignees, clubId, meId, NoRole)
    {
      var a :| a in assignees && AssignsTo(a, p, meId, ResolveRole(role).value);
      assert AssignsTo(a, p, meId, None);
    }
  }

  /** The alias "member" and the enum member `athlete` list the same plans. */
  lemma MemberAliasIsAthlete(plans: seq<Plan>, assignees: seq<PlanAssignee>, clubId: int, meId: int)
    ensures ListAssignedPlans(plans, assignees, clubId, meId, RoleText("member")) ==
            ListAssignedPlans(plans, assignees, clubId, meId, RoleMember(Athlete))
  {
    assert ResolveRole(RoleText("member")) == Ok(Some(Athlete));
  }
}
