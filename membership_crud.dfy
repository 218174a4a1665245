/**
 * The function-style membership operations of app/crud/membership.py. They raise the
 * module's own plain exception classes, and their last-coach rules count only the `coach`
 * role.
 */
module MembershipCrud {
  import opened Wrappers
  import opened Models
  import opened Errors
  import opened Rows
  import opened Database
  import opened MembershipQueries
  import opened MembershipRepository
  import opened MembershipSchema

  /** `get_user_by_email` (app/crud/user.py): the user stored under the normalised address. */
  function UserByEmail(users: seq<User>, email: string): (r: Option<User>)
    ensures r.Some? ==> r.value in users && r.value.email == NormalizeEmail(email)
    ensures r.None? <==> forall u :: u in users ==> u.email != NormalizeEmail(email)
  {
    var norm := NormalizeEmail(email);
    var i := FindFirst(users, (u: User) => u.email == norm);
    if i.Some? then Some(users[i.value]) else None
  }

  /** `get_club` (app/crud/club.py): the club with that id, or None. */
  function ClubById(clubs: seq<Club>, clubId: int): (r: Option<Club>)
    ensures r.Some? ==> r.value in clubs && r.value.id == clubId
    ensures r.None? <==> forall c :: c in clubs ==> c.id != clubId
  {
    var i := FindFirst(clubs, (c: Club) => c.id == clubId);
    if i.Some? then Some(clubs[i.value]) else None
  }

  /** `db.get` found the row and it belongs to the club. */
  predicate InClub(ms: seq<Membership>, clubId: int, membershipId: int) {
    IndexById(ms, membershipId).Some? && ms[IndexById(ms, membershipId).value].clubId == clubId
  }

  /** The row `db.get` returns for the id. */
  function Target(ms: seq<Membership>, membershipId: int): Membership
    requires IndexById(ms, membershipId).Some?
  {
    ms[IndexById(ms, membershipId).value]
  }

  /** No user of the club other than `userId` holds `coach`. */
  predicate NoOtherCoach(ms: seq<Membership>, clubId: int, userId: int) {
    forall k :: 0 <= k < |ms| ==> !(ms[k].clubId == clubId && ms[k].role == Coach && ms[k].userId != userId)
  }

  /**
   * The checks of `delete_membership`: the index of the row to delete, or the error. A coach
   * may go only while another user of the club holds `coach`; members and owners always may.
   */
  function DeleteDecision(ms: seq<Membership>, clubId: int, membershipId: int): (r: Result<nat, Fault>)
    ensures r.Ok? ==> r.value < |ms| && ms[r.value].id == membershipId && ms[r.value].clubId == clubId
    ensures r == Err(Plain(MembershipNotFound)) <==> !InClub(ms, clubId, membershipId)
    ensures r == Err(Plain(LastCoachViolation)) <==> (InClub(ms, clubId, membershipId) &&
      Target(ms, membershipId).role == Coach && NoOtherCoach(ms, clubId, Target(ms, membershipId).userId))
    ensures r.Err? ==> r.error in {Plain(MembershipNotFound), Plain(LastCoachViolation)}
  {
    var i := IndexById(ms, membershipId);
    if i.None? || ms[i.value].clubId != clubId then Err(Plain(MembershipNotFound))
    else
      var membership := ms[i.value];
      CountPositiveIff(ms, clubId, {Coach}, Some(membership.userId));
      if membership.role == Coach && CountLeaders(ms, clubId, {Coach}, Some(membership.userId)) == 0 then
        Err(Plain(LastCoachViolation))
      else Ok(i.value)
  }

  /** A club that has a coach keeps one through any delete `delete_membership` allows, and so does every other club. */
  lemma DeleteKeepsACoach(ms: seq<Membership>, clubId: int, membershipId: int, c: int)
    requires DeleteDecision(ms, clubId, membershipId).Ok?
    requires CountLeaders(ms, c, {Coach}, None) >= 1
    ensures CountLeaders(RemoveAt(ms, DeleteDecision(ms, clubId, membershipId).value), c, {Coach}, None) >= 1
  {
    var i := DeleteDecision(ms, clubId, membershipId).value;
    if ms[i].clubId == c && ms[i].role == Coach {
      CountPositiveIff(ms, c, {Coach}, Some(ms[i].userId));
      LeadersAfterRemoval(ms, i, c, {Coach});
    } else {
      CountRemoveAt(ms, i, c, {Coach}, None);
    }
  }

  /**
   * The checks of `update_membership_role`: the index of the row, or the error. Only the
   * demotion of a coach is guarded; a request for the current role is allowed and changes nothing.
   */
  function UpdateRoleDecision(ms: seq<Membership>, clubId: int, membershipId: int, newRole: MembershipRole): (r: Result<nat, Fault>)
    ensures r.Ok? ==> r.value < |ms| && ms[r.value].id == membershipId && ms[r.value].clubId == clubId
    ensures r == Err(Plain(MembershipNotFound)) <==> !InClub(ms, clubId, membershipId)
    ensures r == Err(Plain(LastCoachViolation)) <==> (InClub(ms, clubId, membershipId) &&
      Target(ms, membershipId).role == Coach && newRole != Coach && NoOtherCoach(ms, clubId, Target(ms, membershipId).userId))
    ensures InClub(ms, clubId, membershipId) && Target(ms, membershipId).role == newRole ==> r.Ok?
    ensures r.Err? ==> r.error in {Plain(MembershipNotFound), Plain(LastCoachViolation)}
  {
    var i := IndexById(ms, membershipId);
    if i.None? || ms[i.value].clubId != clubId then Err(Plain(MembershipNotFound))
    else
      var membership := ms[i.value];
      CountPositiveIff(ms, clubId, {Coach}, Some(membership.userId));
      if membership.role == Coach && newRole != Coach && CountLeaders(ms, clubId, {Coach}, Some(membership.userId)) == 0 then
        Err(Plain(LastCoachViolation))
      else Ok(i.value)
  }

  /** Every club that has a coach keeps one through any role change `update_membership_role` allows. */
  lemma UpdateRoleKeepsACoach(ms: seq<Membership>, clubId: int, membershipId: int, newRole: MembershipRole, c: int)
    requires UpdateRoleDecision(ms, clubId, membershipId, newRole).Ok?
    requires CountLeaders(ms, c, {Coach}, None) >= 1
    ensures var i := UpdateRoleDecision(ms, clubId, membershipId, newRole).value;
      CountLeaders(ms[i := ms[i].(role := newRole)], c, {Coach}, None) >= 1
  {
    var i := UpdateRoleDecision(ms, clubId, membershipId, newRole).value;
    var x := ms[i].(role := newRole);
    if ms[i].clubId == c && ms[i].role == Coach && newRole != Coach {
      CountPositiveIff(ms, c, {Coach}, Some(ms[i].userId));
      LeadersAfterRoleChange(ms, i, newRole, c, {Coach});
    } else {
      CountUpdateAt(ms, i, x, c, {Coach}, None);
    }
  }

  /** `create_membership`: look the user up by normalised email, insert, and map any integrity error. */
  method CreateMembership(db: Db, clubId: int, email: string, role: MembershipRole) returns (r: Result<Membership, Fault>)
    requires MembershipsValid(db.memberships)
    modifies db`memberships
    ensures MembershipsValid(db.memberships)
    ensures UserByEmail(db.users, email).None? ==> r == Err(Plain(UserNotFound))
    ensures r.Ok? ==> (UserByEmail(db.users, email).Some? &&
      r.value == Membership(NextId(old(db.memberships), MembershipId), clubId, UserByEmail(db.users, email).value.id, role) &&
      db.memberships == old(db.memberships) + [r.value])
    ensures r.Err? ==> db.memberships == old(db.memberships) && r.error in {Plain(UserNotFound), Plain(MembershipExists)}
    ensures UserByEmail(db.users, email).Some? &&
      (exists m :: m in old(db.memberships) && m.clubId == clubId && m.userId == UserByEmail(db.users, email).value.id)
      ==> r == Err(Plain(MembershipExists))
    ensures r.Ok? <==> UserByEmail(db.users, email).Some? && InsertViolation(old(db.memberships), db.clubs, db.users,
      Membership(NextId(old(db.memberships), MembershipId), clubId, UserByEmail(db.users, email).value.id, role)).None?
    ensures UserByEmail(db.users, email).Some? && (exists c :: c in db.clubs && c.id == clubId) &&
      (forall m :: m in old(db.memberships) ==> !(m.clubId == clubId && m.userId == UserByEmail(db.users, email).value.id))
      ==> r.Ok?
  {
    var user := UserByEmail(db.users, email);
    if user.None? {
      return Err(Plain(UserNotFound));
    }
    var membership := Membership(NextId(db.memberships, MembershipId), clubId, user.value.id, role);
    var violation := InsertViolation(db.memberships, db.clubs, db.users, membership);
    if violation.Some? {
      r := Err(Plain(MembershipExists));
    } else {
      InsertKeepsValid(db.memberships, db.clubs, db.users, membership);
      db.memberships := db.memberships + [membership];
      r := Ok(membership);
    }
  }

  /** `get_memberships_club`: the club's memberships, or `ClubNotFoundError` for an unknown club. */
  method GetMembershipsClub(db: Db, clubId: int) returns (r: Result<seq<Membership>, Fault>)
    ensures r.Err? <==> forall c :: c in db.clubs ==> c.id != clubId
    ensures r.Err? ==> r.error == Plain(ClubNotFound)
    ensures r.Ok? ==> forall m :: m in r.value <==> m in db.memberships && m.clubId == clubId
  {
    var club := ClubById(db.clubs, clubId);
    if club.None? {
      return Err(Plain(ClubNotFound));
    }
    r := Ok(ListForClub(db.memberships, club.value.id));
  }

  /** `delete_membership`: the checks of `DeleteDecision`, then the delete and commit. */
  method DeleteMembership(db: Db, clubId: int, membershipId: int) returns (err: Option<Fault>)
    requires MembershipsValid(db.memberships)
    modifies db`memberships
    ensures MembershipsValid(db.memberships)
    ensures err.Some? <==> DeleteDecision(old(db.memberships), clubId, membershipId).Err?
    ensures err.Some? ==> err.value == DeleteDecision(old(db.memberships), clubId, membershipId).error && db.memberships == old(db.memberships)
    ensures err.None? ==> db.memberships == RemoveAt(old(db.memberships), DeleteDecision(old(db.memberships), clubId, membershipId).value)
  {
    var i := IndexById(db.memberships, membershipId);
    if i.None? || db.memberships[i.value].clubId != clubId {
      return Some(Plain(MembershipNotFound));
    }
    var membership := db.memberships[i.value];
    if membership.role == Coach {
      var remaining := CountLeaders(db.memberships, clubId, {Coach}, Some(membership.userId));
      if remaining == 0 {
        return Some(Plain(LastCoachViolation));
      }
    }
    RemoveKeepsValid(db.memberships, i.value);
    db.memberships := RemoveAt(db.memberships, i.value);
    err := None;
  }

  /** `update_membership_role`: the checks of `UpdateRoleDecision`; the current role is returned without a write. */
  method UpdateMembershipRole(db: Db, clubId: int, membershipId: int, newRole: MembershipRole) returns (r: Result<Membership, Fault>)
    requires MembershipsValid(db.memberships)
    modifies db`memberships
    ensures MembershipsValid(db.memberships)
    ensures r.Err? <==> UpdateRoleDecision(old(db.memberships), clubId, membershipId, newRole).Err?
    ensures r.Err? ==> r.error == UpdateRoleDecision(old(db.memberships), clubId, membershipId, newRole).error && db.memberships == old(db.memberships)
    ensures r.Ok? ==> var i := UpdateRoleDecision(old(db.memberships), clubId, membershipId, newRole).value;
      r.value == old(db.memberships)[i].(role := newRole) && db.memberships == old(db.memberships)[i := r.value]
    ensures r.Ok? && old(db.memberships)[UpdateRoleDecision(old(db.memberships), clubId, membershipId, newRole).value].role == newRole
      ==> db.memberships == old(db.memberships)
  {
    var i := IndexById(db.memberships, membershipId);
    if i.None? || db.memberships[i.value].clubId != clubId {
      return Err(Plain(MembershipNotFound));
    }
    var membership := db.memberships[i.value];
    if membership.role == Coach && newRole != Coach {
      var remaining := CountLeaders(db.memberships, clubId, {Coach}, Some(membership.userId));
      if remaining == 0 {
        return Err(Plain(LastCoachViolation));
      }
    }
    if membership.role == newRole {
      assert db.memberships[i.value := membership] == db.memberships;
      return Ok(membership);
    }
    var updated := membership.(role := newRole);
    RoleChangeKeepsValid(db.memberships, i.value, newRole);
    db.memberships := db.memberships[i.value := updated];
    r := Ok(updated);
  }
}
