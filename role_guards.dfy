/**
 * The role guards the services call before acting (`require_member_of_club`,
 * `require_coach_of_club`, `require_coach_or_owner_of_club` of the membership service). The
 * class that defines them is not part of this model; their behaviour is the one
 * tests/unit/services/test_memberships_services.py fixes: a missing membership is
 * `NotClubMember`, a membership with too small a role is `CoachRequiredError` or
 * `CoachOrOwnerRequiredError`, and a passing guard returns the membership.
 */
module RoleGuards {
  import opened Wrappers
  import opened Models
  import opened Errors
  import opened MembershipQueries

  /** Any role passes; a missing row is `NotClubMember`. */
  function RequireMemberOfClub(ms: seq<Membership>, userId: int, clubId: int): (r: Result<Membership, Fault>)
    ensures r.Ok? <==> exists m :: m in ms && m.userId == userId && m.clubId == clubId
    ensures r.Ok? ==> r.value in ms && r.value.userId == userId && r.value.clubId == clubId
    ensures r.Err? ==> r.error == Domain(NotClubMember)
  {
    var m := FindByClubAndUser(ms, clubId, userId);
    if m.None? then Err(Domain(NotClubMember)) else Ok(m.value)
  }

  /** Only coach passes; a missing row is `NotClubMember`, any other role `CoachRequiredError`. */
  function RequireCoachOfClub(ms: seq<Membership>, userId: int, clubId: int): (r: Result<Membership, Fault>)
    ensures r.Ok? ==> r.value in ms && r.value.userId == userId && r.value.clubId == clubId && r.value.role == Coach
    ensures r.Err? ==> r.error in {Domain(NotClubMember), Domain(CoachRequired)}
    ensures r == Err(Domain(NotClubMember)) <==> RequireMemberOfClub(ms, userId, clubId).Err?
  {
    var m := FindByClubAndUser(ms, clubId, userId);
    if m.None? then Err(Domain(NotClubMember))
    else if m.value.role != Coach then Err(Domain(CoachRequired))
    else Ok(m.value)
  }

  /** Coach and owner pass; a missing row is `NotClubMember`, a plain member `CoachOrOwnerRequiredError`. */
  function RequireCoachOrOwnerOfClub(ms: seq<Membership>, userId: int, clubId: int): (r: Result<Membership, Fault>)
    ensures r.Ok? ==> r.value in ms && r.value.userId == userId && r.value.clubId == clubId && r.value.role in {Coach, Owner}
    ensures r.Err? ==> r.error in {Domain(NotClubMember), Domain(CoachOrOwnerRequired)}
    ensures r == Err(Domain(NotClubMember)) <==> RequireMemberOfClub(ms, userId, clubId).Err?
  {
    var m := FindByClubAndUser(ms, clubId, userId);
    if m.None? then Err(Domain(NotClubMember))
    else if m.value.role in {Coach, Owner} then Ok(m.value)
    else Err(Domain(CoachOrOwnerRequired))
  }

  /** With one row per (club, user) each guard's verdict is decided by that row's role alone. */
  lemma GuardsByRole(ms: seq<Membership>, k: nat)
    requires UniqueMembershipPairs(ms) && k < |ms|
    ensures RequireMemberOfClub(ms, ms[k].userId, ms[k].clubId) == Ok(ms[k])
    ensures RequireCoachOfClub(ms, ms[k].userId, ms[k].clubId) ==
      (if ms[k].role == Coach then Ok(ms[k]) else Err(Domain(CoachRequired)))
    ensures RequireCoachOrOwnerOfClub(ms, ms[k].userId, ms[k].clubId) ==
      (if ms[k].role == Member then Err(Domain(CoachOrOwnerRequired)) else Ok(ms[k]))
  {
    FindByClubAndUserUnique(ms, k);
  }

  /** The guards are nested: coach implies coach-or-owner implies member. */
  lemma GuardsAreNested(ms: seq<Membership>, userId: int, clubId: int)
    ensures RequireCoachOfClub(ms, userId, clubId).Ok? ==> RequireCoachOrOwnerOfClub(ms, userId, clubId).Ok?
    ensures RequireCoachOrOwnerOfClub(ms, userId, clubId).Ok? ==> RequireMemberOfClub(ms, userId, clubId).Ok?
  {
  }
}
