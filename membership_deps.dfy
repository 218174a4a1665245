/**
 * The FastAPI-side membership checks of app/auth/membership_deps.py. Each one reads the
 * memberships table and either returns or raises an HTTPException; none changes anything,
 * which the model shows by making them functions of the table.
 */
module MembershipDeps {
  import opened Wrappers
  import opened Models
  import opened Errors
  import opened Rows
  import opened MembershipQueries

  const NotAllowedToManage: string := "Not allowed to manage this club"
  const NotAMember: string := "Not a member of this club"
  const CoachRoleRequired: string := "Coach role required for this club"
  const LastCoachDetail: string := "Cannot remove the last coach of the club"

  /** `assert_can_manage_club`: only an owner may manage a club. */
  function AssertCanManageClub(role: MembershipRole): (r: Option<Fault>)
    ensures r.None? <==> role == Owner
    ensures r.Some? ==> r.value == Http(403, NotAllowedToManage)
  {
    if role !in {Owner} then Some(Http(403, NotAllowedToManage)) else None
  }

  /** `assert_is_member_of_club`: the caller's membership, whatever its role, or 403. */
  function AssertIsMemberOfClub(ms: seq<Membership>, userId: int, clubId: int): (r: Result<Membership, Fault>)
    ensures r.Ok? <==> exists m :: m in ms && m.userId == userId && m.clubId == clubId
    ensures r.Ok? ==> r.value in ms && r.value.userId == userId && r.value.clubId == clubId
    ensures r.Err? ==> r.error == Http(403, NotAMember)
  {
    var member := FindByClubAndUser(ms, clubId, userId);
    if member.None? then Err(Http(403, NotAMember)) else Ok(member.value)
  }

  /** `assert_is_coach_of_club`: the caller's membership if its role is exactly coach, or 403. */
  function AssertIsCoachOfClub(ms: seq<Membership>, userId: int, clubId: int): (r: Result<Membership, Fault>)
    ensures r.Ok? ==> r.value in ms && r.value.userId == userId && r.value.clubId == clubId && r.value.role == Coach
    ensures (forall m :: m in ms ==> !(m.userId == userId && m.clubId == clubId)) ==> r.Err?
    ensures r.Err? ==> r.error == Http(403, CoachRoleRequired)
  {
    var member := FindByClubAndUser(ms, clubId, userId);
    if member.None? || member.value.role != Coach then Err(Http(403, CoachRoleRequired)) else Ok(member.value)
  }

  /**
   * With one row per (club, user), the coach check passes exactly when the caller's row has
   * role coach: a member and an owner are both refused.
   */
  lemma CoachCheckIsRoleCheck(ms: seq<Membership>, k: nat)
    requires UniqueMembershipPairs(ms) && k < |ms|
    ensures AssertIsCoachOfClub(ms, ms[k].userId, ms[k].clubId).Ok? <==> ms[k].role == Coach
    ensures AssertIsMemberOfClub(ms, ms[k].userId, ms[k].clubId) == Ok(ms[k])
  {
    FindByClubAndUserUnique(ms, k);
  }

  /** `assert_not_last_coach`: refuses when the club has at most one coach, zero included. */
  function AssertNotLastCoach(ms: seq<Membership>, clubId: int): (r: Option<Fault>)
    ensures r.None? <==> exists i, j :: 0 <= i < j < |ms| && IsLeaderRow(ms[i], clubId, {Coach}, None) && IsLeaderRow(ms[j], clubId, {Coach}, None)
    ensures r.Some? ==> r.value == Http(400, LastCoachDetail)
  {
    TwoLeadersIff(ms, clubId, {Coach});
    var count := CountLeaders(ms, clubId, {Coach}, None);
    if count <= 1 then Some(Http(400, LastCoachDetail)) else None
  }

  /** A count above one means two distinct counted rows. */
  lemma {:induction false} TwoLeadersIff(ms: seq<Membership>, clubId: int, leaders: set<MembershipRole>)
    ensures CountLeaders(ms, clubId, leaders, None) > 1 <==>
      exists i, j :: 0 <= i < j < |ms| && IsLeaderRow(ms[i], clubId, leaders, None) && IsLeaderRow(ms[j], clubId, leaders, None)
  {
    if ms != [] {
      var tail := ms[1..];
      TwoLeadersIff(tail, clubId, leaders);
      CountPositiveIff(tail, clubId, leaders, None);
      if exists i, j :: 0 <= i < j < |ms| && IsLeaderRow(ms[i], clubId, leaders, None) && IsLeaderRow(ms[j], clubId, leaders, None) {
        var i, j :| 0 <= i < j < |ms| && IsLeaderRow(ms[i], clubId, leaders, None) && IsLeaderRow(ms[j], clubId, leaders, None);
        assert tail[j - 1] == ms[j];
        if i > 0 { assert tail[i - 1] == ms[i]; }
      }
      if CountLeaders(ms, clubId, leaders, None) > 1 {
        if IsLeaderRow(ms[0], clubId, leaders, None) {
          var k :| 0 <= k < |tail| && IsLeaderRow(tail[k], clubId, leaders, None);
          assert ms[k + 1] == tail[k];
        } else {
          var i, j :| 0 <= i < j < |tail| && IsLeaderRow(tail[i], clubId, leaders, None) && IsLeaderRow(tail[j], clubId, leaders, None);
          assert ms[i + 1] == tail[i] && ms[j + 1] == tail[j];
        }
      }
    }
  }

  /**
   * `assert_not_last_coach_excluding`: refuses exactly when no coach row of the club belongs
   * to a user other than `excludingUserId`.
   */
  function AssertNotLastCoachExcluding(ms: seq<Membership>, clubId: int, excludingUserId: int): (r: Option<Fault>)
    ensures r.None? <==> exists k :: 0 <= k < |ms| && ms[k].clubId == clubId && ms[k].role == Coach && ms[k].userId != excludingUserId
    ensures r.Some? ==> r.value == Http(400, LastCoachDetail)
  {
    CountPositiveIff(ms, clubId, {Coach}, Some(excludingUserId));
    var remaining := CountLeaders(ms, clubId, {Coach}, Some(excludingUserId));
    if remaining == 0 then Some(Http(400, LastCoachDetail)) else None
  }

  /** When the excluding check passes, removing the excluded user's row leaves a coach behind. */
  lemma ExcludingCheckKeepsACoach(ms: seq<Membership>, i: nat)
    requires i < |ms| && AssertNotLastCoachExcluding(ms, ms[i].clubId, ms[i].userId).None?
    ensures CountLeaders(RemoveAt(ms, i), ms[i].clubId, {Coach}, None) >= 1
  {
    CountPositiveIff(ms, ms[i].clubId, {Coach}, Some(ms[i].userId));
    LeadersAfterRemoval(ms, i, ms[i].clubId, {Coach});
  }
}
