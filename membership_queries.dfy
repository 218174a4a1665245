/**
 * The read side of membership governance: the row lookups of app/repositories/membership.py
 * and app/crud/membership.py, and the leader count that every "last coach" rule is built
 * on. The count takes the set of roles that make a leader as a parameter, because the
 * source counts `{coach}` in app/crud/membership.py and app/auth/membership_deps.py but
 * `{coach, owner}` in `count_coach_owner`.
 */
module MembershipQueries {
  import opened Wrappers
  import opened Models
  import opened Rows
  import opened Database

  /** The index of the row with primary key `id`. */
  function IndexById(ms: seq<Membership>, id: int): (r: Option<nat>)
    ensures r.Some? ==> r.value < |ms| && ms[r.value].id == id
    ensures r.None? <==> forall k :: 0 <= k < |ms| ==> ms[k].id != id
  {
    FindFirst(ms, (m: Membership) => m.id == id)
  }

  /** `db.get(Membership, id)`: the row with that primary key, or None. */
  function FindById(ms: seq<Membership>, id: int): (r: Option<Membership>)
    ensures r.Some? ==> r.value in ms && r.value.id == id
    ensures r.None? <==> forall m :: m in ms ==> m.id != id
  {
    var i := IndexById(ms, id);
    if i.Some? then Some(ms[i.value]) else None
  }

  /** The row for `(club_id, user_id)`, as `scalar_one_or_none()` finds it. */
  function FindByClubAndUser(ms: seq<Membership>, clubId: int, userId: int): (r: Option<Membership>)
    ensures r.Some? ==> r.value in ms && r.value.clubId == clubId && r.value.userId == userId
    ensures r.None? <==> forall m :: m in ms ==> !(m.clubId == clubId && m.userId == userId)
  {
    var i := FindFirst(ms, (m: Membership) => m.clubId == clubId && m.userId == userId);
    if i.Some? then Some(ms[i.value]) else None
  }

  /** Under `uq_membership_club_user` the lookup returns the one matching row. */
  lemma FindByClubAndUserUnique(ms: seq<Membership>, k: nat)
    requires UniqueMembershipPairs(ms) && k < |ms|
    ensures FindByClubAndUser(ms, ms[k].clubId, ms[k].userId) == Some(ms[k])
  {
    var i := FindFirst(ms, (m: Membership) => m.clubId == ms[k].clubId && m.userId == ms[k].userId);
    assert i.Some? && ms[i.value].clubId == ms[k].clubId && ms[i.value].userId == ms[k].userId;
  }

  /** `list_for_user`: every membership of one user. */
  function ListForUser(ms: seq<Membership>, userId: int): (r: seq<Membership>)
    ensures forall m :: m in r <==> m in ms && m.userId == userId
  {
    Filter(ms, (m: Membership) => m.userId == userId)
  }

  /** `list_for_club`: every membership of one club. */
  function ListForClub(ms: seq<Membership>, clubId: int): (r: seq<Membership>)
    ensures forall m :: m in r <==> m in ms && m.clubId == clubId
  {
    Filter(ms, (m: Membership) => m.clubId == clubId)
  }

  /** The `WHERE` clause of a leader count: this club, a leader role, not the excluded user. */
  predicate IsLeaderRow(m: Membership, clubId: int, leaders: set<MembershipRole>, exclude: Option<int>) {
    m.clubId == clubId && m.role in leaders && (exclude.None? || m.userId != exclude.value)
  }

  /** `SELECT count(*)` over the rows `IsLeaderRow` admits (`int(count or 0)`: never null). */
  function CountLeaders(ms: seq<Membership>, clubId: int, leaders: set<MembershipRole>, exclude: Option<int>): (n: nat)
    ensures n <= |ms|
  {
    if ms == [] then 0
    else (if IsLeaderRow(ms[0], clubId, leaders, exclude) then 1 else 0) + CountLeaders(ms[1..], clubId, leaders, exclude)
  }

  /** The count is positive exactly when some row is a leader row. */
  lemma {:induction false} CountPositiveIff(ms: seq<Membership>, clubId: int, leaders: set<MembershipRole>, exclude: Option<int>)
    ensures CountLeaders(ms, clubId, leaders, exclude) > 0 <==>
      exists k :: 0 <= k < |ms| && IsLeaderRow(ms[k], clubId, leaders, exclude)
  {
    if ms != [] {
      CountPositiveIff(ms[1..], clubId, leaders, exclude);
      if exists k :: 0 <= k < |ms| && IsLeaderRow(ms[k], clubId, leaders, exclude) {
        var k :| 0 <= k < |ms| && IsLeaderRow(ms[k], clubId, leaders, exclude);
        if k > 0 { assert ms[1..][k - 1] == ms[k]; }
      }
      if exists k :: 0 <= k < |ms[1..]| && IsLeaderRow(ms[1..][k], clubId, leaders, exclude) {
        var k :| 0 <= k < |ms[1..]| && IsLeaderRow(ms[1..][k], clubId, leaders, exclude);
        assert ms[k + 1] == ms[1..][k];
      }
    }
  }

  /** Counting over the concatenation of two tables adds their counts. */
  lemma {:induction false} CountAppend(a: seq<Membership>, b: seq<Membership>, clubId: int, leaders: set<MembershipRole>, exclude: Option<int>)
    ensures CountLeaders(a + b, clubId, leaders, exclude) ==
      CountLeaders(a, clubId, leaders, exclude) + CountLeaders(b, clubId, leaders, exclude)
  {
    if a != [] {
      assert (a + b)[1..] == a[1..] + b;
      CountAppend(a[1..], b, clubId, leaders, exclude);
    } else {
      assert a + b == b;
    }
  }

  /** Excluding a user never raises the count. */
  lemma {:induction false} ExcludingNeverRaises(ms: seq<Membership>, clubId: int, leaders: set<MembershipRole>, userId: int)
    ensures CountLeaders(ms, clubId, leaders, Some(userId)) <= CountLeaders(ms, clubId, leaders, None)
  {
    if ms != [] {
      ExcludingNeverRaises(ms[1..], clubId, leaders, userId);
    }
  }

  /** A table with no row of `(club, user)` counts the same with or without excluding that user. */
  lemma {:induction false} ExcludingAbsentUser(ms: seq<Membership>, clubId: int, leaders: set<MembershipRole>, userId: int)
    requires forall k :: 0 <= k < |ms| ==> !(ms[k].clubId == clubId && ms[k].userId == userId)
    ensures CountLeaders(ms, clubId, leaders, Some(userId)) == CountLeaders(ms, clubId, leaders, None)
  {
    if ms != [] {
      assert forall k :: 0 <= k < |ms[1..]| ==> ms[1..][k] == ms[k + 1];
      ExcludingAbsentUser(ms[1..], clubId, leaders, userId);
    }
  }

  /**
   * Under `uq_membership_club_user` the user has at most one row in the club, so excluding
   * that user lowers the count by at most one.
   */
  lemma {:induction false} ExcludingRemovesAtMostOne(ms: seq<Membership>, clubId: int, leaders: set<MembershipRole>, userId: int)
    requires UniqueMembershipPairs(ms)
    ensures CountLeaders(ms, clubId, leaders, None) <= CountLeaders(ms, clubId, leaders, Some(userId)) + 1
  {
    if ms != [] {
      var tail := ms[1..];
      assert forall k :: 0 <= k < |tail| ==> tail[k] == ms[k + 1];
      assert UniqueMembershipPairs(tail);
      if ms[0].clubId == clubId && ms[0].userId == userId {
        forall k | 0 <= k < |tail| ensures !(tail[k].clubId == clubId && tail[k].userId == userId) {
          assert ms[k + 1] == tail[k];
        }
        ExcludingAbsentUser(tail, clubId, leaders, userId);
      } else {
        ExcludingRemovesAtMostOne(tail, clubId, leaders, userId);
      }
    }
  }

  /** Counting `{coach}` never exceeds counting `{coach, owner}`: a larger leader set counts more. */
  lemma {:induction false} LargerLeaderSetCountsMore(ms: seq<Membership>, clubId: int, small: set<MembershipRole>, large: set<MembershipRole>, exclude: Option<int>)
    requires small <= large
    ensures CountLeaders(ms, clubId, small, exclude) <= CountLeaders(ms, clubId, large, exclude)
  {
    if ms != [] {
      LargerLeaderSetCountsMore(ms[1..], clubId, small, large, exclude);
    }
  }

  /** Removing the row at `i` lowers the count by one if that row was counted, else not at all. */
  lemma CountRemoveAt(ms: seq<Membership>, i: nat, clubId: int, leaders: set<MembershipRole>, exclude: Option<int>)
    requires i < |ms|
    ensures CountLeaders(RemoveAt(ms, i), clubId, leaders, exclude) +
      (if IsLeaderRow(ms[i], clubId, leaders, exclude) then 1 else 0) == CountLeaders(ms, clubId, leaders, exclude)
  {
    assert ms == ms[..i] + ([ms[i]] + ms[i + 1..]);
    CountAppend(ms[..i], [ms[i]] + ms[i + 1..], clubId, leaders, exclude);
    CountAppend([ms[i]], ms[i + 1..], clubId, leaders, exclude);
    CountAppend(ms[..i], ms[i + 1..], clubId, leaders, exclude);
  }

  /** Replacing the row at `i` swaps its contribution for that of the new row. */
  lemma CountUpdateAt(ms: seq<Membership>, i: nat, x: Membership, clubId: int, leaders: set<MembershipRole>, exclude: Option<int>)
    requires i < |ms|
    ensures CountLeaders(ms[i := x], clubId, leaders, exclude) + (if IsLeaderRow(ms[i], clubId, leaders, exclude) then 1 else 0)
      == CountLeaders(ms, clubId, leaders, exclude) + (if IsLeaderRow(x, clubId, leaders, exclude) then 1 else 0)
  {
    assert ms == ms[..i] + ([ms[i]] + ms[i + 1..]);
    assert ms[i := x] == ms[..i] + ([x] + ms[i + 1..]);
    CountAppend(ms[..i], [ms[i]] + ms[i + 1..], clubId, leaders, exclude);
    CountAppend([ms[i]], ms[i + 1..], clubId, leaders, exclude);
    CountAppend(ms[..i], [x] + ms[i + 1..], clubId, leaders, exclude);
    CountAppend([x], ms[i + 1..], clubId, leaders, exclude);
  }

  /**
   * The heart of every last-leader rule: the leaders left after removing a row are at least
   * the leaders counted with that row's user excluded.
   */
  lemma LeadersAfterRemoval(ms: seq<Membership>, i: nat, clubId: int, leaders: set<MembershipRole>)
    requires i < |ms|
    ensures CountLeaders(RemoveAt(ms, i), clubId, leaders, None) >= CountLeaders(ms, clubId, leaders, Some(ms[i].userId))
  {
    CountRemoveAt(ms, i, clubId, leaders, Some(ms[i].userId));
    ExcludingNeverRaises(RemoveAt(ms, i), clubId, leaders, ms[i].userId);
  }

  /** The same for a role change of the row at `i`. */
  lemma LeadersAfterRoleChange(ms: seq<Membership>, i: nat, role: MembershipRole, clubId: int, leaders: set<MembershipRole>)
    requires i < |ms|
    ensures CountLeaders(ms[i := ms[i].(role := role)], clubId, leaders, None) >= CountLeaders(ms, clubId, leaders, Some(ms[i].userId))
  {
    CountUpdateAt(ms, i, ms[i].(role := role), clubId, leaders, Some(ms[i].userId));
    ExcludingNeverRaises(ms[i := ms[i].(role := role)], clubId, leaders, ms[i].userId);
  }

  /** A change to a row of another club leaves this club's count as it was. */
  lemma OtherClubUntouched(ms: seq<Membership>, i: nat, x: Membership, clubId: int, leaders: set<MembershipRole>)
    requires i < |ms| && ms[i].clubId != clubId && x.clubId != clubId
    ensures CountLeaders(ms[i := x], clubId, leaders, None) == CountLeaders(ms, clubId, leaders, None)
    ensures CountLeaders(RemoveAt(ms, i), clubId, leaders, None) == CountLeaders(ms, clubId, leaders, None)
  {
    CountUpdateAt(ms, i, x, clubId, leaders, None);
    CountRemoveAt(ms, i, clubId, leaders, None);
  }
}
