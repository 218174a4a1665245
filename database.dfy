/**
 * The database session shared by every repository, crud function and service: one object
 * holding each table of app/db/models.py as a sequence of rows. Commit and rollback are
 * modelled by the operations themselves: an operation that fails an integrity check leaves
 * its table as it was, which is what `db.rollback()` restores.
 */
module Database {
  import opened Wrappers
  import opened Models
  import opened Rows

  class Db {
    var users: seq<User>
    var clubs: seq<Club>
    var memberships: seq<Membership>
    var plans: seq<Plan>
    var exercises: seq<Exercise>
    var sessions: seq<Session>
    var assignees: seq<PlanAssignee>
    var attendances: seq<Attendance>
    var groups: seq<Group>
    var groupMemberships: seq<GroupMembership>

    /** An empty database. */
    constructor ()
      ensures users == [] && clubs == [] && memberships == [] && plans == []
      ensures exercises == [] && sessions == [] && assignees == [] && attendances == []
      ensures groups == [] && groupMemberships == []
    {
      users, clubs, memberships, plans := [], [], [], [];
      exercises, sessions, assignees, attendances := [], [], [], [];
      groups, groupMemberships := [], [];
    }
  }

  function MembershipId(m: Membership): int { m.id }
  function ExerciseId(e: Exercise): int { e.id }
  function AssigneeId(a: PlanAssignee): int { a.id }
  function AttendanceId(a: Attendance): int { a.id }
  function GroupId(g: Group): int { g.id }
  function ClubId(c: Club): int { c.id }
  function SessionId(s: Session): int { s.id }
  function PlanId(p: Plan): int { p.id }

  /** The `memberships` table: primary key and `uq_membership_club_user`. */
  ghost predicate MembershipsValid(ms: seq<Membership>) {
    DistinctIds(ms, MembershipId) && UniqueMembershipPairs(ms)
  }

  /** The `exercises` table: primary key and `uq_exercises_plan_position`. */
  ghost predicate ExercisesValid(es: seq<Exercise>) {
    DistinctIds(es, ExerciseId) && UniquePositions(es)
  }

  /** The `plan_assignees` table: primary key, the two unique constraints and the one-target check. */
  ghost predicate AssigneesValid(as_: seq<PlanAssignee>) {
    DistinctIds(as_, AssigneeId) && UniqueAssignees(as_) && forall i :: 0 <= i < |as_| ==> OneTarget(as_[i])
  }

  /** The `attendances` table: primary key, `uq_attendance_session_user` and the NOT NULL status. */
  ghost predicate AttendancesValid(ats: seq<Attendance>) {
    DistinctIds(ats, AttendanceId) && UniqueAttendances(ats) && forall i :: 0 <= i < |ats| ==> ats[i].status.Some?
  }

  /** The `groups` table: primary key and `uq_group_name_per_club`. */
  ghost predicate GroupsValid(gs: seq<Group>) {
    DistinctIds(gs, GroupId) && UniqueGroupNames(gs)
  }
}
