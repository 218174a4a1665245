/**
 * `MembershipRepository` (app/repositories/membership.py): persistence of memberships over
 * the shared session, with the `uq_membership_club_user` violation mapped to
 * `MembershipExistsError` and every other integrity error re-raised.
 */
module MembershipRepository {
  import opened Wrappers
  import opened Models
  import opened Errors
  import opened Rows
  import opened Database
  import opened MembershipQueries

  /**
   * The integrity error a commit of `row` would raise, if any: the unique pair is checked
   * first, then the foreign keys to `clubs` and `users`.
   */
  function InsertViolation(ms: seq<Membership>, clubs: seq<Club>, users: seq<User>, row: Membership): (r: Option<Constraint>)
    ensures r == Some(UqMembershipClubUser) <==> exists m :: m in ms && m.clubId == row.clubId && m.userId == row.userId
    ensures r == Some(ForeignKey) ==>
      (forall c :: c in clubs ==> c.id != row.clubId) || (forall u :: u in users ==> u.id != row.userId)
    ensures r.Some? ==> r.value in {UqMembershipClubUser, ForeignKey}
  {
    if FindByClubAndUser(ms, row.clubId, row.userId).Some? then Some(UqMembershipClubUser)
    else if (forall c :: c in clubs ==> c.id != row.clubId) || (forall u :: u in users ==> u.id != row.userId) then Some(ForeignKey)
    else None
  }

  /** A row that passes the commit keeps the table valid. */
  lemma InsertKeepsValid(ms: seq<Membership>, clubs: seq<Club>, users: seq<User>, row: Membership)
    requires MembershipsValid(ms) && InsertViolation(ms, clubs, users, row).None? && row.id == NextId(ms, MembershipId)
    ensures MembershipsValid(ms + [row])
  {
    AppendFreshId(ms, row, MembershipId);
    var ms' := ms + [row];
    forall i, j | 0 <= i < |ms'| && 0 <= j < |ms'| && i != j
      ensures !(ms'[i].clubId == ms'[j].clubId && ms'[i].userId == ms'[j].userId)
    {
      if i < |ms| && j < |ms| {
      } else if i < |ms| {
        assert ms'[i] in ms;
      } else {
        assert ms'[j] in ms;
      }
    }
  }

  /** `_commit_with_membership_guard`: how an integrity error leaves the repository. */
  function CommitGuard(violation: Constraint): (f: Fault)
    ensures f == Domain(MembershipExists) <==> violation == UqMembershipClubUser
    ensures violation != UqMembershipClubUser ==> f == Integrity(violation)
  {
    if violation == UqMembershipClubUser then Domain(MembershipExists) else Integrity(violation)
  }

  class MembershipRepository {
    const db: Db

    constructor (db: Db)
      ensures this.db == db
    {
      this.db := db;
    }

    /** `get`: the membership with that id, or None. */
    method Get(membershipId: int) returns (m: Option<Membership>)
      ensures m.Some? ==> m.value in db.memberships && m.value.id == membershipId
      ensures m.None? <==> forall x :: x in db.memberships ==> x.id != membershipId
    {
      m := FindById(db.memberships, membershipId);
    }

    /** `get_by_club_and_user`: the unique row for the pair, or None. */
    method GetByClubAndUser(clubId: int, userId: int) returns (m: Option<Membership>)
      ensures m == FindByClubAndUser(db.memberships, clubId, userId)
      ensures m.None? <==> forall x :: x in db.memberships ==> !(x.clubId == clubId && x.userId == userId)
    {
      m := FindByClubAndUser(db.memberships, clubId, userId);
    }

    /** `list_for_user`. */
    method ListForUser(userId: int) returns (ms: seq<Membership>)
      ensures forall m :: m in ms <==> m in db.memberships && m.userId == userId
    {
      ms := MembershipQueries.ListForUser(db.memberships, userId);
    }

    /** `list_for_club`. */
    method ListForClub(clubId: int) returns (ms: seq<Membership>)
      ensures forall m :: m in ms <==> m in db.memberships && m.clubId == clubId
    {
      ms := MembershipQueries.ListForClub(db.memberships, clubId);
    }

    /** `create`: add, commit through the guard; a failed commit rolls back and leaves the table as it was. */
    method Create(clubId: int, userId: int, role: MembershipRole) returns (r: Result<Membership, Fault>)
      requires MembershipsValid(db.memberships)
      modifies db`memberships
      ensures MembershipsValid(db.memberships)
      ensures r.Ok? <==> InsertViolation(old(db.memberships), db.clubs, db.users, Membership(NextId(old(db.memberships), MembershipId), clubId, userId, role)).None?
      ensures r.Ok? ==> r.value == Membership(NextId(old(db.memberships), MembershipId), clubId, userId, role)
      ensures r.Ok? ==> db.memberships == old(db.memberships) + [r.value]
      ensures r.Err? ==> db.memberships == old(db.memberships)
      ensures r == Err(Domain(MembershipExists)) <==>
        exists m :: m in old(db.memberships) && m.clubId == clubId && m.userId == userId
      ensures r.Err? && r.error != Domain(MembershipExists) ==> r.error == Integrity(ForeignKey)
    {
      var membership := Membership(NextId(db.memberships, MembershipId), clubId, userId, role);
      var violation := InsertViolation(db.memberships, db.clubs, db.users, membership);
      if violation.Some? {
        r := Err(CommitGuard(violation.value));
      } else {
        InsertKeepsValid(db.memberships, db.clubs, db.users, membership);
        db.memberships := db.memberships + [membership];
        r := Ok(membership);
      }
    }

    /** `update_role`: only the role of the given row changes; its club and user stay. */
    method UpdateRole(membershipId: int, newRole: MembershipRole) returns (m: Membership)
      requires MembershipsValid(db.memberships) && IndexById(db.memberships, membershipId).Some?
      modifies db`memberships
      ensures MembershipsValid(db.memberships)
      ensures var i := IndexById(old(db.memberships), membershipId).value;
        m == old(db.memberships)[i].(role := newRole) && db.memberships == old(db.memberships)[i := m]
    {
      var i := IndexById(db.memberships, membershipId).value;
      m := db.memberships[i].(role := newRole);
      RoleChangeKeepsValid(db.memberships, i, newRole);
      db.memberships := db.memberships[i := m];
    }

    /** `delete`: the given row leaves the table. */
    method Delete(membershipId: int)
      requires MembershipsValid(db.memberships) && IndexById(db.memberships, membershipId).Some?
      modifies db`memberships
      ensures MembershipsValid(db.memberships)
      ensures db.memberships == RemoveAt(old(db.memberships), IndexById(old(db.memberships), membershipId).value)
    {
      var i := IndexById(db.memberships, membershipId).value;
      RemoveKeepsValid(db.memberships, i);
      db.memberships := RemoveAt(db.memberships, i);
    }

    /** `count_coach_owner`: the club's coach and owner rows, less the excluded user's. */
    method CountCoachOwner(clubId: int, excludeUserId: Option<int>) returns (n: int)
      ensures n == CountLeaders(db.memberships, clubId, {Coach, Owner}, excludeUserId)
      ensures n > 0 <==> exists k :: 0 <= k < |db.memberships| && IsLeaderRow(db.memberships[k], clubId, {Coach, Owner}, excludeUserId)
    {
      CountPositiveIff(db.memberships, clubId, {Coach, Owner}, excludeUserId);
      n := CountLeaders(db.memberships, clubId, {Coach, Owner}, excludeUserId);
    }
  }

  /** A role change keeps ids and pairs, so the table stays valid. */
  lemma RoleChangeKeepsValid(ms: seq<Membership>, i: nat, role: MembershipRole)
    requires MembershipsValid(ms) && i < |ms|
    ensures MembershipsValid(ms[i := ms[i].(role := role)])
  {
    var ms' := ms[i := ms[i].(role := role)];
    assert forall k :: 0 <= k < |ms| ==> ms'[k].id == ms[k].id && ms'[k].clubId == ms[k].clubId && ms'[k].userId == ms[k].userId;
  }

  /** Deleting a row keeps the table valid. */
  lemma RemoveKeepsValid(ms: seq<Membership>, i: nat)
    requires MembershipsValid(ms) && i < |ms|
    ensures MembershipsValid(RemoveAt(ms, i))
  {
    RemoveKeepsDistinct(ms, i, MembershipId);
    var r := RemoveAt(ms, i);
    forall a, b | 0 <= a < |r| && 0 <= b < |r| && a != b
      ensures !(r[a].clubId == r[b].clubId && r[a].userId == r[b].userId)
    {
      var a' := if a < i then a else a + 1;
      var b' := if b < i then b else b + 1;
      assert r[a] == ms[a'] && r[b] == ms[b'];
    }
  }
}
