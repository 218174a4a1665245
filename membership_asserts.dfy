/**
 * The User-taking variants of the membership checks (app/auth/membership_asserts.py). They
 * return nothing and raise a 403 HTTPException; like their siblings they only read.
 */
module MembershipAsserts {
  import opened Wrappers
  import opened Models
  import opened Errors
  import opened MembershipQueries

  /** `assert_is_member_of_club(db, user, club_id)`: `None` means it returned. */
  function AssertIsMemberOfClub(ms: seq<Membership>, user: User, clubId: int): (r: Option<Fault>)
    ensures r.None? <==> exists m :: m in ms && m.userId == user.id && m.clubId == clubId
    ensures r.Some? ==> r.value == Http(403, "Not a member of this club")
  {
    var m := FindByClubAndUser(ms, clubId, user.id);
    if m.None? then Some(Http(403, "Not a member of this club")) else None
  }

  /** `assert_is_coach_of_club(db, user, club_id)`: refuses a missing row and every role but coach. */
  function AssertIsCoachOfClub(ms: seq<Membership>, user: User, clubId: int): (r: Option<Fault>)
    ensures r.None? ==> exists m :: m in ms && m.userId == user.id && m.clubId == clubId && m.role == Coach
    ensures (forall m :: m in ms ==> !(m.userId == user.id && m.clubId == clubId && m.role == Coach)) ==> r.Some?
    ensures r.Some? ==> r.value == Http(403, "Coach role required for this club")
  {
    var m := FindByClubAndUser(ms, clubId, user.id);
    if m.None? || m.value.role != Coach then Some(Http(403, "Coach role required for this club")) else None
  }

  /** Whoever passes the coach check passes the member check. */
  lemma CoachPassesMemberCheck(ms: seq<Membership>, user: User, clubId: int)
    requires AssertIsCoachOfClub(ms, user, clubId).None?
    ensures AssertIsMemberOfClub(ms, user, clubId).None?
  {
  }

  /** With the (club, user) pair unique the coach check lets a coach through: a coach's row passes it. */
  lemma CoachPasses(ms: seq<Membership>, user: User, k: nat)
    requires UniqueMembershipPairs(ms) && k < |ms| && ms[k].userId == user.id && ms[k].role == Coach
    ensures AssertIsCoachOfClub(ms, user, ms[k].clubId).None?
  {
    FindByClubAndUserUnique(ms, k);
  }

  /** An owner, whose row exists, passes the member check and fails the coach check. */
  lemma OwnerIsNotCoach(ms: seq<Membership>, user: User, k: nat)
    requires UniqueMembershipPairs(ms) && k < |ms| && ms[k].userId == user.id && ms[k].role == Owner
    ensures AssertIsMemberOfClub(ms, user, ms[k].clubId).None?
    ensures AssertIsCoachOfClub(ms, user, ms[k].clubId).Some?
  {
    FindByClubAndUserUnique(ms, k);
  }
}
