/**
 * The membership services of app/services/membership.py. Three helpers they call are not
 * defined anywhere in the repository; they are modelled by their evident meaning:
 * `membership_not_exists` is "no row for (club, user)", `get_membership_by_id` is the
 * primary-key lookup and `count_other_coaches` counts the club's `coach` rows of other users.
 *
 * Two of the services' checks are weaker than the rule they evidently mean to enforce; the
 * as-written decisions are kept beside the corrected ones, with the inputs that tell them
 * apart, and the service methods use the corrected ones.
 */
module MembershipService {
  import opened Wrappers
  import opened Models
  import opened Errors
  import opened Rows
  import opened Database
  import opened MembershipQueries
  import opened MembershipRepository
  import opened MembershipCrud

  const Leaders: set<MembershipRole> := {Coach, Owner}

  // ---- delete_membership_service ----

  /**
   * The checks of `delete_membership_service` as written: the row is looked up by id alone,
   * and a coach or owner may go only if `count_coach_owner(club_id, exclude=user)` is
   * positive, where `club_id` is the club of the request, not of the row.
   */
  function DeleteDecisionAsWritten(ms: seq<Membership>, clubId: int, membershipId: int): (r: Result<nat, Fault>)
    ensures r.Ok? ==> r.value < |ms| && ms[r.value].id == membershipId
    ensures r == Err(Plain(MembershipNotFound)) <==> IndexById(ms, membershipId).None?
    ensures r.Err? ==> r.error in {Plain(MembershipNotFound), Plain(LastCoachViolation)}
  {
    var i := IndexById(ms, membershipId);
    if i.None? then Err(Plain(MembershipNotFound))
    else if ms[i.value].role in Leaders && CountLeaders(ms, clubId, Leaders, Some(ms[i.value].userId)) == 0 then
      Err(Plain(LastCoachViolation))
    else Ok(i.value)
  }

  /** Even as written, the club named in the request keeps a leader. */
  lemma DeleteAsWrittenKeepsRequestClubLeader(ms: seq<Membership>, clubId: int, membershipId: int)
    requires DeleteDecisionAsWritten(ms, clubId, membershipId).Ok?
    requires CountLeaders(ms, clubId, Leaders, None) >= 1
    ensures CountLeaders(RemoveAt(ms, DeleteDecisionAsWritten(ms, clubId, membershipId).value), clubId, Leaders, None) >= 1
  {
    var i := DeleteDecisionAsWritten(ms, clubId, membershipId).value;
    if ms[i].clubId == clubId && ms[i].role in Leaders {
      LeadersAfterRemoval(ms, i, clubId, Leaders);
    } else {
      CountRemoveAt(ms, i, clubId, Leaders, None);
    }
  }

  /**
   * But the row may belong to another club: with club 1 led by owner 1 and club 2 led only
   * by coach 2, a request on club 1 deletes membership 2 and leaves club 2 without a leader.
   */
  lemma DeleteAsWrittenRemovesOtherClubsLastLeader()
    ensures var ms := [Membership(1, 1, 1, Owner), Membership(2, 2, 2, Coach)];
      DeleteDecisionAsWritten(ms, 1, 2) == Ok(1) &&
      CountLeaders(ms, 2, Leaders, None) == 1 &&
      CountLeaders(RemoveAt(ms, 1), 2, Leaders, None) == 0
  {
    var ms := [Membership(1, 1, 1, Owner), Membership(2, 2, 2, Coach)];
    assert IndexById(ms, 2) == Some(1);
    assert ms[1..][1..] == [];
    assert CountLeaders(ms, 1, Leaders, Some(2)) == 1;
    assert RemoveAt(ms, 1) == [Membership(1, 1, 1, Owner)];
  }

  /**
   * The checks `delete_membership_service` evidently means: the row must belong to the club
   * of the request (as `delete_membership` in the crud module checks), and a coach or owner
   * may go only while another coach or owner of that club remains.
   */
  function DeleteDecision(ms: seq<Membership>, clubId: int, membershipId: int): (r: Result<nat, Fault>)
    ensures r.Ok? ==> r.value < |ms| && ms[r.value].id == membershipId && ms[r.value].clubId == clubId
    ensures r == Err(Plain(MembershipNotFound)) <==> !InClub(ms, clubId, membershipId)
    ensures r == Err(Plain(LastCoachViolation)) <==> (InClub(ms, clubId, membershipId) &&
      Target(ms, membershipId).role in Leaders &&
      forall k :: 0 <= k < |ms| ==> !IsLeaderRow(ms[k], clubId, Leaders, Some(Target(ms, membershipId).userId)))
    ensures InClub(ms, clubId, membershipId) && Target(ms, membershipId).role == Member ==> r.Ok?
  {
    var i := IndexById(ms, membershipId);
    if i.None? || ms[i.value].clubId != clubId then Err(Plain(MembershipNotFound))
    else
      CountPositiveIff(ms, clubId, Leaders, Some(ms[i.value].userId));
      if ms[i.value].role in Leaders && CountLeaders(ms, clubId, Leaders, Some(ms[i.value].userId)) == 0 then
        Err(Plain(LastCoachViolation))
      else Ok(i.value)
  }

  /** Every club that has a coach or owner keeps one through any delete the corrected checks allow. */
  lemma DeleteKeepsEveryClubsLeader(ms: seq<Membership>, clubId: int, membershipId: int, c: int)
    requires DeleteDecision(ms, clubId, membershipId).Ok?
    requires CountLeaders(ms, c, Leaders, None) >= 1
    ensures CountLeaders(RemoveAt(ms, DeleteDecision(ms, clubId, membershipId).value), c, Leaders, None) >= 1
  {
    var i := DeleteDecision(ms, clubId, membershipId).value;
    if ms[i].clubId == c && ms[i].role in Leaders {
      LeadersAfterRemoval(ms, i, c, Leaders);
    } else {
      CountRemoveAt(ms, i, c, Leaders, None);
    }
  }

  /** `delete_membership_service` with the corrected checks: one delete, then commit. */
  method DeleteMembershipService(db: Db, clubId: int, membershipId: int) returns (err: Option<Fault>)
    requires MembershipsValid(db.memberships)
    modifies db`memberships
    ensures MembershipsValid(db.memberships)
    ensures err.Some? <==> DeleteDecision(old(db.memberships), clubId, membershipId).Err?
    ensures err.Some? ==> err.value == DeleteDecision(old(db.memberships), clubId, membershipId).error && db.memberships == old(db.memberships)
    ensures err.None? ==> db.memberships == RemoveAt(old(db.memberships), DeleteDecision(old(db.memberships), clubId, membershipId).value)
  {
    var repo := new MembershipRepository(db);
    var m := repo.Get(membershipId);
    if m.None? || m.value.clubId != clubId {
      return Some(Plain(MembershipNotFound));
    }
    if m.value.role == Coach || m.value.role == Owner {
      var remaining := repo.CountCoachOwner(clubId, Some(m.value.userId));
      if remaining == 0 {
        return Some(Plain(LastCoachViolation));
      }
    }
    repo.Delete(membershipId);
    err := None;
  }

  // ---- update_membership_role_service ----

  /**
   * The service's own check before it calls the crud update, as written: only a coach's
   * demotion is checked, against the other coaches; an owner's demotion is not checked.
   */
  function RoleCheckAsWritten(ms: seq<Membership>, clubId: int, membershipId: int, newRole: MembershipRole): (r: Option<Fault>)
    ensures r == Some(Plain(MembershipNotFound)) <==> IndexById(ms, membershipId).None?
    ensures IndexById(ms, membershipId).Some? && Target(ms, membershipId).role == Owner ==> r.None?
  {
    var i := IndexById(ms, membershipId);
    if i.None? then Some(Plain(MembershipNotFound))
    else if ms[i.value].role == Coach && newRole != Coach && CountLeaders(ms, clubId, {Coach}, Some(ms[i.value].userId)) == 0 then
      Some(Plain(LastCoachViolation))
    else None
  }

  /** The whole service as written: its own check, then `update_membership_role`. */
  function UpdateDecisionAsWritten(ms: seq<Membership>, clubId: int, membershipId: int, newRole: MembershipRole): (r: Result<nat, Fault>)
    ensures r.Ok? ==> UpdateRoleDecision(ms, clubId, membershipId, newRole) == r
  {
    var check := RoleCheckAsWritten(ms, clubId, membershipId, newRole);
    if check.Some? then Err(check.value) else UpdateRoleDecision(ms, clubId, membershipId, newRole)
  }

  /** A club's only owner, with no coach, can be demoted to member and the club is left without a leader. */
  lemma OwnerDemotionAsWrittenLeavesNoLeader()
    ensures var ms := [Membership(1, 1, 1, Owner)];
      UpdateDecisionAsWritten(ms, 1, 1, Member) == Ok(0) &&
      CountLeaders(ms, 1, Leaders, None) == 1 &&
      CountLeaders(ms[0 := ms[0].(role := Member)], 1, Leaders, None) == 0
  {
    var ms := [Membership(1, 1, 1, Owner)];
    assert IndexById(ms, 1) == Some(0);
  }

  /**
   * The check the service evidently means, consistent with `delete_membership_service`: a
   * coach or owner may leave the leader roles only while another coach or owner of the club remains.
   */
  function RoleCheck(ms: seq<Membership>, clubId: int, membershipId: int, newRole: MembershipRole): (r: Option<Fault>)
    ensures r == Some(Plain(MembershipNotFound)) <==> IndexById(ms, membershipId).None?
    ensures r == Some(Plain(LastCoachViolation)) <==> (IndexById(ms, membershipId).Some? &&
      Target(ms, membershipId).role in Leaders && newRole !in Leaders &&
      forall k :: 0 <= k < |ms| ==> !IsLeaderRow(ms[k], clubId, Leaders, Some(Target(ms, membershipId).userId)))
    ensures r.Some? ==> r.value in {Plain(MembershipNotFound), Plain(LastCoachViolation)}
  {
    var i := IndexById(ms, membershipId);
    if i.None? then Some(Plain(MembershipNotFound))
    else
      CountPositiveIff(ms, clubId, Leaders, Some(ms[i.value].userId));
      if ms[i.value].role in Leaders && newRole !in Leaders && CountLeaders(ms, clubId, Leaders, Some(ms[i.value].userId)) == 0 then
        Some(Plain(LastCoachViolation))
      else None
  }

  /** The corrected service: the corrected check, then `update_membership_role`. */
  function UpdateDecision(ms: seq<Membership>, clubId: int, membershipId: int, newRole: MembershipRole): (r: Result<nat, Fault>)
    ensures r.Ok? ==> UpdateRoleDecision(ms, clubId, membershipId, newRole) == r && RoleCheck(ms, clubId, membershipId, newRole).None?
    ensures RoleCheck(ms, clubId, membershipId, newRole).Some? ==> r == Err(RoleCheck(ms, clubId, membershipId, newRole).value)
  {
    var check := RoleCheck(ms, clubId, membershipId, newRole);
    if check.Some? then Err(check.value) else UpdateRoleDecision(ms, clubId, membershipId, newRole)
  }

  /** Every club that has a coach or owner keeps one through any role change the corrected service allows. */
  lemma UpdateKeepsEveryClubsLeader(ms: seq<Membership>, clubId: int, membershipId: int, newRole: MembershipRole, c: int)
    requires UpdateDecision(ms, clubId, membershipId, newRole).Ok?
    requires CountLeaders(ms, c, Leaders, None) >= 1
    ensures var i := UpdateDecision(ms, clubId, membershipId, newRole).value;
      CountLeaders(ms[i := ms[i].(role := newRole)], c, Leaders, None) >= 1
  {
    var i := UpdateDecision(ms, clubId, membershipId, newRole).value;
    assert IndexById(ms, membershipId) == Some(i);
    if ms[i].clubId == c && ms[i].role in Leaders && newRole !in Leaders {
      CountPositiveIff(ms, c, Leaders, Some(ms[i].userId));
      LeadersAfterRoleChange(ms, i, newRole, c, Leaders);
    } else {
      CountUpdateAt(ms, i, ms[i].(role := newRole), c, Leaders, None);
    }
  }

  /** `update_membership_role_service` with the corrected check. */
  method UpdateMembershipRoleService(db: Db, clubId: int, membershipId: int, newRole: MembershipRole) returns (r: Result<Membership, Fault>)
    requires MembershipsValid(db.memberships)
    modifies db`memberships
    ensures MembershipsValid(db.memberships)
    ensures r.Err? <==> UpdateDecision(old(db.memberships), clubId, membershipId, newRole).Err?
    ensures r.Err? ==> r.error == UpdateDecision(old(db.memberships), clubId, membershipId, newRole).error && db.memberships == old(db.memberships)
    ensures r.Ok? ==> var i := UpdateDecision(old(db.memberships), clubId, membershipId, newRole).value;
      r.value == old(db.memberships)[i].(role := newRole) && db.memberships == old(db.memberships)[i := r.value]
  {
    var repo := new MembershipRepository(db);
    var membership := repo.Get(membershipId);
    if membership.None? {
      return Err(Plain(MembershipNotFound));
    }
    if membership.value.role in Leaders && newRole !in Leaders {
      var remaining := repo.CountCoachOwner(clubId, Some(membership.value.userId));
      if remaining == 0 {
        return Err(Plain(LastCoachViolation));
      }
    }
    r := UpdateMembershipRole(db, clubId, membershipId, newRole);
  }

  // ---- create_membership_service ----

  /**
   * `create_membership_service`: user by normalised email, the existence check, then the
   * insert for that user (the source passes the user's id where `create_membership` expects
   * an email; the evident intent, an insert for the found user, is modelled).
   */
  method CreateMembershipService(db: Db, clubId: int, email: string, role: MembershipRole) returns (r: Result<Membership, Fault>)
    requires MembershipsValid(db.memberships)
    modifies db`memberships
    ensures MembershipsValid(db.memberships)
    ensures UserByEmail(db.users, email).None? ==> r == Err(Plain(UserNotFound))
    ensures UserByEmail(db.users, email).Some? &&
      FindByClubAndUser(old(db.memberships), clubId, UserByEmail(db.users, email).value.id).Some?
      ==> r == Err(Plain(MembershipExists))
    ensures r.Err? ==> db.memberships == old(db.memberships) && r.error in {Plain(UserNotFound), Plain(MembershipExists)}
    ensures r.Ok? ==> (UserByEmail(db.users, email).Some? &&
      r.value == Membership(NextId(old(db.memberships), MembershipId), clubId, UserByEmail(db.users, email).value.id, role) &&
      db.memberships == old(db.memberships) + [r.value])
    ensures r.Ok? <==> UserByEmail(db.users, email).Some? && InsertViolation(old(db.memberships), db.clubs, db.users,
      Membership(NextId(old(db.memberships), MembershipId), clubId, UserByEmail(db.users, email).value.id, role)).None?
    ensures UserByEmail(db.users, email).Some? && (exists c :: c in db.clubs && c.id == clubId) &&
      (forall m :: m in old(db.memberships) ==> !(m.clubId == clubId && m.userId == UserByEmail(db.users, email).value.id))
      ==> r.Ok?
  {
    var user := UserByEmail(db.users, email);
    if user.None? {
      return Err(Plain(UserNotFound));
    }
    var notExists := FindByClubAndUser(db.memberships, clubId, user.value.id).None?;
    if !notExists {
      return Err(Plain(MembershipExists));
    }
    var membership := Membership(NextId(db.memberships, MembershipId), clubId, user.value.id, role);
    var violation := InsertViolation(db.memberships, db.clubs, db.users, membership);
    if violation.Some? {
      r := Err(Plain(MembershipExists));
    } else {
      InsertKeepsValid(db.memberships, db.clubs, db.users, membership);
      db.memberships := db.memberships + [membership];
      r := Ok(membership);
    }
  }
}
