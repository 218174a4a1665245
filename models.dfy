/**
 * The entities of app/db/models.py as records, their enums, and the table-level constraints
 * (uniqueness, the plan-assignment target check) as predicates over a table.
 * Timestamps are integers; nullable columns are `Option`s.
 */
module Models {
  import opened Wrappers

  datatype MembershipRole = Member | Coach | Owner
  datatype PlanAssigneeRole = AssigneeCoach | Athlete
  datatype AttendanceStatus = Present | Excused | Absent | Late
  datatype DayLabel = Monday | Tuesday | Wednesday | Thursday | Friday | Saturday | Sunday
  datatype PlanType = ClubPlan | PersonalPlan

  /** The stored string of each `MembershipRole` member. */
  function MembershipRoleValue(r: MembershipRole): string {
    match r
    case Member => "member"
    case Coach => "coach"
    case Owner => "owner"
  }

  /** `MembershipRole(value)`: the member whose value is `s`, or `None` where Python raises ValueError. */
  function ParseMembershipRole(s: string): (r: Option<MembershipRole>)
    ensures r.Some? ==> MembershipRoleValue(r.value) == s
  {
    if s == "member" then Some(Member)
    else if s == "coach" then Some(Coach)
    else if s == "owner" then Some(Owner)
    else None
  }

  /** The stored string of each `PlanAssigneeRole` member. */
  function PlanAssigneeRoleValue(r: PlanAssigneeRole): string {
    match r
    case AssigneeCoach => "coach"
    case Athlete => "athlete"
  }

  /** `PlanAssigneeRole(value)`, `None` where Python raises ValueError. */
  function ParsePlanAssigneeRole(s: string): (r: Option<PlanAssigneeRole>)
    ensures r.Some? ==> PlanAssigneeRoleValue(r.value) == s
  {
    if s == "coach" then Some(AssigneeCoach)
    else if s == "athlete" then Some(Athlete)
    else None
  }

  /** `MembershipRole` has exactly the three values member, coach, owner, and parsing inverts them. */
  lemma MembershipRoleIsClosed(s: string)
    ensures ParseMembershipRole(s).Some? <==> s in {"member", "coach", "owner"}
    ensures forall r: MembershipRole :: ParseMembershipRole(MembershipRoleValue(r)) == Some(r)
  {
    forall r: MembershipRole ensures ParseMembershipRole(MembershipRoleValue(r)) == Some(r) {
      match r
      case Member =>
      case Coach =>
      case Owner =>
    }
  }

  /** `PlanAssigneeRole` has exactly the two values coach, athlete, and parsing inverts them. */
  lemma PlanAssigneeRoleIsClosed(s: string)
    ensures ParsePlanAssigneeRole(s).Some? <==> s in {"coach", "athlete"}
    ensures forall r: PlanAssigneeRole :: ParsePlanAssigneeRole(PlanAssigneeRoleValue(r)) == Some(r)
  {
    forall r: PlanAssigneeRole ensures ParsePlanAssigneeRole(PlanAssigneeRoleValue(r)) == Some(r) {
      match r
      case AssigneeCoach =>
      case Athlete =>
    }
  }

  datatype User = User(id: int, email: string)

  datatype Club = Club(
    id: int, name: string, description: Option<string>, country: Option<string>,
    city: Option<string>, sport: Option<string>, slug: string)

  datatype Membership = Membership(id: int, clubId: int, userId: int, role: MembershipRole)

  datatype Plan = Plan(
    id: int, clubId: int, name: string, planType: PlanType, description: Option<string>, createdById: int)

  datatype Exercise = Exercise(
    id: int, planId: int, name: string, description: Option<string>, sets: Option<int>,
    repetitions: Option<int>, position: Option<int>, dayLabel: Option<DayLabel>)

  datatype Session = Session(
    id: int, planId: int, name: string, description: Option<string>, startsAt: int, endsAt: int,
    location: string, note: Option<string>, createdBy: int)

  datatype PlanAssignee = PlanAssignee(
    id: int, planId: int, userId: Option<int>, groupId: Option<int>, role: PlanAssigneeRole,
    assignedById: int, createdAt: int)

  /** `status` is NOT NULL in the table; `None` is a value an update may try to write, which the commit refuses. */
  datatype Attendance = Attendance(
    id: int, sessionId: int, userId: int, status: Option<AttendanceStatus>, checkedInAt: Option<int>,
    checkedOutAt: Option<int>, recordedById: Option<int>, note: Option<string>,
    createdAt: int, updatedAt: int)

  datatype Group = Group(id: int, clubId: int, name: string, description: Option<string>, createdById: Option<int>)

  datatype GroupMembership = GroupMembership(groupId: int, userId: int, role: Option<string>)

  // ---- the declared constraints, as properties of a table ----

  /** `uq_membership_club_user`: at most one membership per (club_id, user_id). */
  ghost predicate UniqueMembershipPairs(ms: seq<Membership>) {
    forall i, j :: 0 <= i < |ms| && 0 <= j < |ms| && i != j ==>
      !(ms[i].clubId == ms[j].clubId && ms[i].userId == ms[j].userId)
  }

  /** `uq_exercises_plan_position`: at most one exercise per (plan_id, position); NULL positions never collide. */
  ghost predicate UniquePositions(es: seq<Exercise>) {
    forall i, j :: 0 <= i < |es| && 0 <= j < |es| && i != j && es[i].position.Some? ==>
      !(es[i].planId == es[j].planId && es[i].position == es[j].position)
  }

  /** `ck_plan_assignment_one_target`: exactly one of user_id, group_id is set. */
  predicate OneTarget(a: PlanAssignee) {
    a.userId.Some? != a.groupId.Some?
  }

  /** `uq_plan_assignees_plan_user` and `uq_plan_assignees_plan_group` (NULLs never collide). */
  ghost predicate UniqueAssignees(as_: seq<PlanAssignee>) {
    forall i, j :: 0 <= i < |as_| && 0 <= j < |as_| && i != j && as_[i].planId == as_[j].planId ==>
      (as_[i].userId.Some? ==> as_[i].userId != as_[j].userId) &&
      (as_[i].groupId.Some? ==> as_[i].groupId != as_[j].groupId)
  }

  /** `uq_attendance_session_user`. */
  ghost predicate UniqueAttendances(ats: seq<Attendance>) {
    forall i, j :: 0 <= i < |ats| && 0 <= j < |ats| && i != j ==>
      !(ats[i].sessionId == ats[j].sessionId && ats[i].userId == ats[j].userId)
  }

  /** `uq_group_name_per_club`. */
  ghost predicate UniqueGroupNames(gs: seq<Group>) {
    forall i, j :: 0 <= i < |gs| && 0 <= j < |gs| && i != j ==>
      !(gs[i].clubId == gs[j].clubId && gs[i].name == gs[j].name)
  }

  /** The composite primary key (group_id, user_id) of `group_memberships`. */
  ghost predicate UniqueGroupMemberships(gms: seq<GroupMembership>) {
    forall i, j :: 0 <= i < |gms| && 0 <= j < |gms| && i != j ==>
      !(gms[i].groupId == gms[j].groupId && gms[i].userId == gms[j].userId)
  }
}
