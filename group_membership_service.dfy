/**
 * `GroupMembershipService` (app/services/group_membership.py): the club-level checks in
 * front of each group-membership change. Adding a member and setting a role first require
 * the actor to be a coach or owner of the club, then the target user to be a member of the
 * club, and only then touch the table; removing requires only the actor check; listing
 * requires the actor to be a club member. A failed check leaves the table untouched.
 *
 * The service's repository (`list_for_group`, `add`, `set_role`, `remove`) is not part of
 * this model: its calls are modelled by the group-membership table functions of the same
 * name, which take no club, so the club reaches only the checks.
 */
module GroupMembershipService {
  import opened Wrappers
  import opened Models
  import opened Errors
  import opened Database
  import opened RoleGuards
  import opened GroupMemberships

  /** The checks of `add_member` and `set_member_role`, in order: the actor leads the club, then the target belongs to it. */
  function MemberChangeGuard(ms: seq<Membership>, actorId: int, clubId: int, userId: int): (r: Option<Fault>)
    ensures r.None? <==> RequireCoachOrOwnerOfClub(ms, actorId, clubId).Ok? && RequireMemberOfClub(ms, userId, clubId).Ok?
    ensures r.Some? ==> r.value in {Domain(NotClubMember), Domain(CoachOrOwnerRequired)}
    ensures r == Some(Domain(CoachOrOwnerRequired)) ==> RequireMemberOfClub(ms, actorId, clubId).Ok?
  {
    var actor := RequireCoachOrOwnerOfClub(ms, actorId, clubId);
    if actor.Err? then Some(actor.error)
    else
      var target := RequireMemberOfClub(ms, userId, clubId);
      if target.Err? then Some(target.error) else None
  }

  /** The actor is checked first: a plain member is refused as such, whoever the target is. */
  lemma PlainMemberRefusedFirst(ms: seq<Membership>, k: nat, userId: int)
    requires UniqueMembershipPairs(ms) && k < |ms| && ms[k].role == Member
    ensures MemberChangeGuard(ms, ms[k].userId, ms[k].clubId, userId) == Some(Domain(CoachOrOwnerRequired))
  {
    GuardsByRole(ms, k);
  }

  /** A coach or owner passes both checks for any member of the club, and in particular for themself. */
  lemma LeaderMayChangeMembers(ms: seq<Membership>, k: nat, j: nat)
    requires UniqueMembershipPairs(ms) && k < |ms| && j < |ms| && ms[k].role != Member && ms[j].clubId == ms[k].clubId
    ensures MemberChangeGuard(ms, ms[k].userId, ms[k].clubId, ms[j].userId).None?
    ensures MemberChangeGuard(ms, ms[k].userId, ms[k].clubId, ms[k].userId).None?
  {
    GuardsByRole(ms, k);
    GuardsByRole(ms, j);
  }

  /** The table after `set_role`: the existing row takes the given role, or there is no such row. */
  function RoleSet(gms: seq<GroupMembership>, groupId: int, userId: int, role: Option<string>)
    : (r: Result<seq<GroupMembership>, Fault>)
    ensures r.Err? <==> GroupMembershipIndex(gms, groupId, userId).None?
    ensures r.Err? ==> r.error == Domain(GroupMembershipNotFound)
    ensures r.Ok? ==> |r.value| == |gms|
    ensures r.Ok? ==>
      var i := GroupMembershipIndex(gms, groupId, userId).value;
      r.value[i] == GroupMembership(groupId, userId, role) &&
      forall k :: 0 <= k < |gms| && k != i ==> r.value[k] == gms[k]
  {
    var i := GroupMembershipIndex(gms, groupId, userId);
    if i.None? then Err(Domain(GroupMembershipNotFound))
    else Ok(gms[i.value := gms[i.value].(role := role)])
  }

  /** Setting a role and then reading the pair back gives that role; setting it again changes nothing. */
  lemma RoleSetThenGet(gms: seq<GroupMembership>, groupId: int, userId: int, role: Option<string>)
    requires UniqueGroupMemberships(gms) && RoleSet(gms, groupId, userId, role).Ok?
    ensures var after := RoleSet(gms, groupId, userId, role).value;
      GetGroupMembership(after, groupId, userId) == Some(GroupMembership(groupId, userId, role)) &&
      RoleSet(after, groupId, userId, role) == Ok(after) &&
      UniqueGroupMemberships(after)
  {
    var i := GroupMembershipIndex(gms, groupId, userId).value;
    var after := RoleSet(gms, groupId, userId, role).value;
    assert UniqueGroupMemberships(after) by {
      forall a, b | 0 <= a < |after| && 0 <= b < |after| && a != b
        ensures !(after[a].groupId == after[b].groupId && after[a].userId == after[b].userId)
      {
        assert after[a].groupId == gms[a].groupId && after[a].userId == gms[a].userId;
        assert after[b].groupId == gms[b].groupId && after[b].userId == gms[b].userId;
      }
    }
    GroupMembershipIndexUnique(after, groupId, userId, i);
    assert after[i := after[i].(role := role)] == after;
  }

  class GroupMembershipService {
    const db: Db

    constructor (db: Db)
      ensures this.db == db
    {
      this.db := db;
    }

    /** `list_members`: the actor must be a club member; then the group's rows by user id. */
    method ListMembers(actorId: int, clubId: int, groupId: int) returns (r: Result<seq<GroupMembership>, Fault>)
      ensures r.Err? <==> RequireMemberOfClub(db.memberships, actorId, clubId).Err?
      ensures r.Err? ==> r.error == Domain(NotClubMember)
      ensures r.Ok? ==> r.value == ListGroupMemberships(db.groupMemberships, groupId)
      ensures r.Ok? ==> forall m :: m in r.value <==> m in db.groupMemberships && m.groupId == groupId
    {
      var actor := RequireMemberOfClub(db.memberships, actorId, clubId);
      if actor.Err? {
        return Err(actor.error);
      }
      r := Ok(ListGroupMemberships(db.groupMemberships, groupId));
    }

    /** `add_member`: the two checks in order, then the upsert. */
    method AddMember(actorId: int, clubId: int, groupId: int, userId: int, role: Option<string>)
      returns (r: Result<GroupMembership, Fault>)
      requires UniqueGroupMemberships(db.groupMemberships)
      modifies db`groupMemberships
      ensures UniqueGroupMemberships(db.groupMemberships)
      ensures var guard := MemberChangeGuard(db.memberships, actorId, clubId, userId);
        (guard.Some? ==> r == Err(guard.value) && db.groupMemberships == old(db.groupMemberships)) &&
        (guard.None? ==> r == AddOutcome(old(db.groupMemberships), db.groups, db.users, groupId, userId, role))
      ensures r.Ok? ==> db.groupMemberships == AddedGroupMember(old(db.groupMemberships), groupId, userId, role)
      ensures r.Err? ==> db.groupMemberships == old(db.groupMemberships)
    {
      var guard := MemberChangeGuard(db.memberships, actorId, clubId, userId);
      if guard.Some? {
        return Err(guard.value);
      }
      r := AddGroupMember(db, groupId, userId, role);
    }

    /** `set_member_role`: the two checks in order, then the role of the existing row is set. */
    method SetMemberRole(actorId: int, clubId: int, groupId: int, userId: int, role: Option<string>)
      returns (r: Result<GroupMembership, Fault>)
      requires UniqueGroupMemberships(db.groupMemberships)
      modifies db`groupMemberships
      ensures UniqueGroupMemberships(db.groupMemberships)
      ensures var guard := MemberChangeGuard(db.memberships, actorId, clubId, userId);
        (guard.Some? ==> r == Err(guard.value)) &&
        (guard.None? ==> (r.Err? <==> RoleSet(old(db.groupMemberships), groupId, userId, role).Err?))
      ensures r.Ok? ==> r.value == GroupMembership(groupId, userId, role)
      ensures r.Ok? ==> db.groupMemberships == RoleSet(old(db.groupMemberships), groupId, userId, role).value
      ensures r.Err? ==> db.groupMemberships == old(db.groupMemberships)
    {
      var guard := MemberChangeGuard(db.memberships, actorId, clubId, userId);
      if guard.Some? {
        return Err(guard.value);
      }
      var after := RoleSet(db.groupMemberships, groupId, userId, role);
      if after.Err? {
        return Err(after.error);
      }
      RoleSetThenGet(db.groupMemberships, groupId, userId, role);
      db.groupMemberships := after.value;
      r := Ok(GroupMembership(groupId, userId, role));
    }

    /** `remove_member`: only the actor check, then the delete (a no-op for an absent pair). */
    method RemoveMember(actorId: int, clubId: int, groupId: int, userId: int) returns (r: Result<(), Fault>)
      requires UniqueGroupMemberships(db.groupMemberships)
      modifies db`groupMemberships
      ensures UniqueGroupMemberships(db.groupMemberships)
      ensures r.Err? <==> RequireCoachOrOwnerOfClub(db.memberships, actorId, clubId).Err?
      ensures r.Err? ==> r.error == RequireCoachOrOwnerOfClub(db.memberships, actorId, clubId).error
      ensures r.Err? ==> db.groupMemberships == old(db.groupMemberships)
      ensures r.Ok? ==> db.groupMemberships == RemovedGroupMember(old(db.groupMemberships), groupId, userId)
    {
      var actor := RequireCoachOrOwnerOfClub(db.memberships, actorId, clubId);
      if actor.Err? {
        return Err(actor.error);
      }
      RemoveGroupMember(db, groupId, userId);
      r := Ok(());
    }
  }
}
