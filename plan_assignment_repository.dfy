/**
 * `PlanAssignmentRepository` (app/repositories/plan_assignment.py): the assignees of a plan.
 * The repository only ever creates user assignees (`group_id` NULL), so every row it adds
 * meets `ck_plan_assignment_one_target`; a commit that fails for any reason is rolled back
 * and reported as `PlanAssignmentExistsError`.
 */
module PlanAssignmentRepository {
  import opened Wrappers
  import opened Models
  import opened Errors
  import opened Rows
  import opened Database
  import opened PlanQueries

  /** Whether some row of the same plan already targets the same user. */
  predicate UserTaken(as_: seq<PlanAssignee>, row: PlanAssignee) {
    row.userId.Some? && exists a :: a in as_ && a.planId == row.planId && a.userId == row.userId
  }

  /** Whether some row of the same plan already targets the same group. */
  predicate GroupTaken(as_: seq<PlanAssignee>, row: PlanAssignee) {
    row.groupId.Some? && exists a :: a in as_ && a.planId == row.planId && a.groupId == row.groupId
  }

  /** Whether a foreign key of `row` (plan, target user, assigning user) points nowhere. */
  predicate DanglingKey(plans: seq<Plan>, users: seq<User>, row: PlanAssignee) {
    (forall p :: p in plans ==> p.id != row.planId) ||
    (row.userId.Some? && forall u :: u in users ==> u.id != row.userId.value) ||
    (forall u :: u in users ==> u.id != row.assignedById)
  }

  /**
   * The integrity error a commit of `row` would raise, if any: the check constraint, then the
   * two unique constraints, then the foreign keys. The referenced groups are not part of this
   * model; a group target is checked only against the other constraints.
   */
  function AssigneeInsertViolation(as_: seq<PlanAssignee>, plans: seq<Plan>, users: seq<User>, row: PlanAssignee)
    : (r: Option<Constraint>)
    ensures r == Some(CkPlanAssignmentOneTarget) <==> !OneTarget(row)
    ensures OneTarget(row) ==> (r == Some(UqPlanAssigneesPlanUser) <==> UserTaken(as_, row))
    ensures r.None? <==> OneTarget(row) && !UserTaken(as_, row) && !GroupTaken(as_, row) && !DanglingKey(plans, users, row)
    ensures r.Some? ==> r.value in {CkPlanAssignmentOneTarget, UqPlanAssigneesPlanUser, UqPlanAssigneesPlanGroup, ForeignKey}
  {
    if !OneTarget(row) then Some(CkPlanAssignmentOneTarget)
    else if UserTaken(as_, row) then Some(UqPlanAssigneesPlanUser)
    else if GroupTaken(as_, row) then Some(UqPlanAssigneesPlanGroup)
    else if DanglingKey(plans, users, row) then Some(ForeignKey)
    else None
  }

  /** A row that passes the commit, under a fresh id, keeps the table valid. */
  lemma AssigneeInsertKeepsValid(as_: seq<PlanAssignee>, plans: seq<Plan>, users: seq<User>, row: PlanAssignee)
    requires AssigneesValid(as_) && row.id == NextId(as_, AssigneeId)
    requires AssigneeInsertViolation(as_, plans, users, row).None?
    ensures AssigneesValid(as_ + [row])
  {
    AppendFreshId(as_, row, AssigneeId);
    var s := as_ + [row];
    forall i, j | 0 <= i < |s| && 0 <= j < |s| && i != j && s[i].planId == s[j].planId
      ensures (s[i].userId.Some? ==> s[i].userId != s[j].userId) && (s[i].groupId.Some? ==> s[i].groupId != s[j].groupId)
    {
      if i == |as_| {
        assert s[j] in as_;
      } else if j == |as_| {
        assert s[i] in as_;
      }
    }
  }

  /**
   * The row `create_user_assignee` adds: the next id, the plan, the target user with
   * `group_id` NULL, the role, the assigning user, and the clock's `now()` as `created_at`.
   */
  function NewUserAssignee(as_: seq<PlanAssignee>, planId: int, userId: int, role: PlanAssigneeRole,
                           assignedById: int, now: int): (r: PlanAssignee)
    ensures OneTarget(r) && r.userId == Some(userId) && r.groupId.None?
    ensures r.planId == planId && r.role == role && r.assignedById == assignedById && r.createdAt == now
    ensures forall a :: a in as_ ==> a.id < r.id
  {
    PlanAssignee(NextId(as_, AssigneeId), planId, Some(userId), None, role, assignedById, now)
  }

  /** A user assignee collides with a unique constraint exactly when the user is already assigned to the plan. */
  lemma UserAssigneeViolation(as_: seq<PlanAssignee>, plans: seq<Plan>, users: seq<User>, planId: int, userId: int,
                              role: PlanAssigneeRole, assignedById: int, now: int)
    ensures var v := AssigneeInsertViolation(as_, plans, users, NewUserAssignee(as_, planId, userId, role, assignedById, now));
      (v.Some? ==> v.value in {UqPlanAssigneesPlanUser, ForeignKey}) &&
      (v == Some(UqPlanAssigneesPlanUser) <==> exists a :: a in as_ && a.planId == planId && a.userId == Some(userId))
  {
  }

  /** `ORDER BY created_at ASC, id ASC`. */
  function CreatedIdKey(a: PlanAssignee): seq<int> {
    [a.createdAt, a.id]
  }

  /** `list_for_plan`: every row of the plan exactly once, by creation time, ties by id. */
  function AssigneesOfPlan(as_: seq<PlanAssignee>, planId: int): (r: seq<PlanAssignee>)
    ensures forall a :: a in r <==> a in as_ && a.planId == planId
    ensures forall a :: multiset(r)[a] == if a.planId == planId then multiset(as_)[a] else 0
    ensures SortedBy(r, CreatedIdKey)
  {
    var ofPlan := Filter(as_, (a: PlanAssignee) => a.planId == planId);
    SortByKeepsRows(ofPlan, CreatedIdKey);
    SortBy(ofPlan, CreatedIdKey)
  }

  /** In the listing, creation times never decrease, and equal times come in id order. */
  lemma ListedByCreation(as_: seq<PlanAssignee>, planId: int, i: nat, j: nat)
    requires i < j < |AssigneesOfPlan(as_, planId)|
    ensures var r := AssigneesOfPlan(as_, planId);
      r[i].createdAt <= r[j].createdAt && (r[i].createdAt == r[j].createdAt ==> r[i].id <= r[j].id)
  {
    var r := AssigneesOfPlan(as_, planId);
    var ka, kb := CreatedIdKey(r[i]), CreatedIdKey(r[j]);
    assert LexLe(ka, kb);
    if ka[0] == kb[0] {
      assert LexLe(ka[1..], kb[1..]);
    }
  }

  /** `db.get(PlanAssignee, assignee_id)`: the index of the row with that primary key. */
  function AssigneeIndex(as_: seq<PlanAssignee>, assigneeId: int): (r: Option<nat>)
    ensures r.Some? ==> r.value < |as_| && as_[r.value].id == assigneeId
    ensures r.None? <==> forall a :: a in as_ ==> a.id != assigneeId
  {
    FindFirst(as_, (a: PlanAssignee) => a.id == assigneeId)
  }

  /** With distinct ids the row found by id is the only one with that id. */
  lemma AssigneeIndexUnique(as_: seq<PlanAssignee>, assigneeId: int, k: nat)
    requires DistinctIds(as_, AssigneeId) && k < |as_| && as_[k].id == assigneeId
    ensures AssigneeIndex(as_, assigneeId) == Some(k)
  {
    var r := AssigneeIndex(as_, assigneeId);
    assert AssigneeId(as_[r.value]) == AssigneeId(as_[k]);
  }

  /** Deleting an assignee keeps the table valid. */
  lemma AssigneeRemoveKeepsValid(as_: seq<PlanAssignee>, i: nat)
    requires AssigneesValid(as_) && i < |as_|
    ensures AssigneesValid(RemoveAt(as_, i))
  {
    RemoveKeepsDistinct(as_, i, AssigneeId);
    var r := RemoveAt(as_, i);
    forall a, b | 0 <= a < |r| && 0 <= b < |r| && a != b && r[a].planId == r[b].planId
      ensures (r[a].userId.Some? ==> r[a].userId != r[b].userId) && (r[a].groupId.Some? ==> r[a].groupId != r[b].groupId)
    {
      var a' := if a < i then a else a + 1;
      var b' := if b < i then b else b + 1;
      assert r[a] == as_[a'] && r[b] == as_[b'];
    }
    forall k | 0 <= k < |r| ensures OneTarget(r[k]) {
      var k' := if k < i then k else k + 1;
      assert r[k] == as_[k'];
    }
  }

  /**
   * What `create_user_assignee` does: the new user assignee is committed, or the commit
   * fails, is rolled back, and `PlanAssignmentExistsError` is raised whatever the violation.
   */
  ghost predicate UserAssigneeCreated(before: seq<PlanAssignee>, after: seq<PlanAssignee>, plans: seq<Plan>, users: seq<User>,
                                      planId: int, userId: int, role: PlanAssigneeRole, assignedById: int, now: int,
                                      r: Result<PlanAssignee, Fault>) {
    var row := NewUserAssignee(before, planId, userId, role, assignedById, now);
    var v := AssigneeInsertViolation(before, plans, users, row);
    (v.None? ==> r == Ok(row) && after == before + [row]) &&
    (v.Some? ==> r == Err(Domain(PlanAssignmentExists)) && after == before)
  }

  class PlanAssignmentRepository {
    const db: Db

    constructor (db: Db)
      ensures this.db == db
    {
      this.db := db;
    }

    /** `get_plan_in_club`: the plan, or `PlanNotFoundError`. */
    method GetPlanInClub(clubId: int, planId: int) returns (r: Result<Plan, Fault>)
      ensures r.Ok? <==> exists p :: p in db.plans && p.id == planId && p.clubId == clubId
      ensures r.Ok? ==> r.value in db.plans && r.value.id == planId && r.value.clubId == clubId
      ensures r.Err? ==> r.error == Domain(PlanNotFound)
    {
      var p := PlanInClub(db.plans, clubId, planId);
      if p.None? {
        return Err(Domain(PlanNotFound));
      }
      r := Ok(p.value);
    }

    /** `list_for_plan`. */
    method ListForPlan(planId: int) returns (r: seq<PlanAssignee>)
      ensures forall a :: a in r <==> a in db.assignees && a.planId == planId
      ensures r == AssigneesOfPlan(db.assignees, planId)
    {
      r := AssigneesOfPlan(db.assignees, planId);
    }

    /** `create_user_assignee`: one insert attempt; `now` is the database clock's `now()`. */
    method CreateUserAssignee(planId: int, userId: int, role: PlanAssigneeRole, assignedById: int, now: int)
      returns (r: Result<PlanAssignee, Fault>)
      requires AssigneesValid(db.assignees)
      modifies db`assignees
      ensures AssigneesValid(db.assignees)
      ensures UserAssigneeCreated(old(db.assignees), db.assignees, db.plans, db.users, planId, userId, role, assignedById, now, r)
    {
      var row := NewUserAssignee(db.assignees, planId, userId, role, assignedById, now);
      var v := AssigneeInsertViolation(db.assignees, db.plans, db.users, row);
      if v.Some? {
        return Err(Domain(PlanAssignmentExists));
      }
      AssigneeInsertKeepsValid(db.assignees, db.plans, db.users, row);
      db.assignees := db.assignees + [row];
      r := Ok(row);
    }

    /** `get`: the row with that id, if any. */
    method Get(assigneeId: int) returns (r: Option<PlanAssignee>)
      ensures r.Some? ==> r.value in db.assignees && r.value.id == assigneeId
      ensures r.None? <==> forall a :: a in db.assignees ==> a.id != assigneeId
    {
      var i := AssigneeIndex(db.assignees, assigneeId);
      if i.None? {
        return None;
      }
      r := Some(db.assignees[i.value]);
    }

    /** `delete`: the given row, found by its primary key, leaves the table. */
    method Delete(obj: PlanAssignee)
      requires AssigneesValid(db.assignees) && obj in db.assignees
      modifies db`assignees
      ensures AssigneesValid(db.assignees)
      ensures AssigneeIndex(old(db.assignees), obj.id).Some?
      ensures db.assignees == RemoveAt(old(db.assignees), AssigneeIndex(old(db.assignees), obj.id).value)
      ensures multiset(db.assignees) == multiset(old(db.assignees)) - multiset{obj}
    {
      var k :| 0 <= k < |db.assignees| && db.assignees[k] == obj;
      AssigneeIndexUnique(db.assignees, obj.id, k);
      var i := AssigneeIndex(db.assignees, obj.id);
      RemoveAtMultiset(db.assignees, k);
      AssigneeRemoveKeepsValid(db.assignees, i.value);
      db.assignees := RemoveAt(db.assignees, i.value);
    }
  }
}
