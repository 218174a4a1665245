/**
 * The group-membership table functions. app/repositories/group_membership.py and
 * app/crud/group_membership.py define the same four functions line for line, so one
 * definition models both: a list of one group's rows by user id, a lookup by the key
 * `(group_id, user_id)`, an idempotent upsert, and a delete that is a no-op for an absent pair.
 */
module GroupMemberships {
  import opened Wrappers
  import opened Models
  import opened Errors
  import opened Rows
  import opened Database

  /** Whether row `m` has the key `(groupId, userId)`. */
  predicate HasKey(m: GroupMembership, groupId: int, userId: int) {
    m.groupId == groupId && m.userId == userId
  }

  /** The index of the row with key `(groupId, userId)`, if any. */
  function GroupMembershipIndex(gms: seq<GroupMembership>, groupId: int, userId: int): (r: Option<nat>)
    ensures r.Some? ==> r.value < |gms| && HasKey(gms[r.value], groupId, userId)
    ensures r.None? <==> forall m :: m in gms ==> !HasKey(m, groupId, userId)
  {
    var r := FindFirst(gms, (m: GroupMembership) => HasKey(m, groupId, userId));
    assert r.None? ==> forall m :: m in gms ==> !HasKey(m, groupId, userId) by {
      if r.None? {
        forall m | m in gms ensures !HasKey(m, groupId, userId) {
          var k :| 0 <= k < |gms| && gms[k] == m;
        }
      }
    }
    r
  }

  /** In a table keyed by `(group_id, user_id)` the row found is the only one with that key. */
  lemma GroupMembershipIndexUnique(gms: seq<GroupMembership>, groupId: int, userId: int, k: nat)
    requires UniqueGroupMemberships(gms) && k < |gms| && HasKey(gms[k], groupId, userId)
    ensures GroupMembershipIndex(gms, groupId, userId) == Some(k)
  {
  }

  /** `get_group_membership`: the row with that key, or `None`. */
  function GetGroupMembership(gms: seq<GroupMembership>, groupId: int, userId: int): (r: Option<GroupMembership>)
    ensures r.Some? ==> r.value in gms && HasKey(r.value, groupId, userId)
    ensures r.None? <==> forall m :: m in gms ==> !HasKey(m, groupId, userId)
  {
    var i := GroupMembershipIndex(gms, groupId, userId);
    if i.Some? then Some(gms[i.value]) else None
  }

  /** The sort key of `ORDER BY user_id ASC`. */
  function UserIdKey(m: GroupMembership): seq<int> {
    [m.userId]
  }

  /** `list_group_memberships`: exactly the group's rows, ordered by user id. */
  function ListGroupMemberships(gms: seq<GroupMembership>, groupId: int): (r: seq<GroupMembership>)
    ensures forall m :: m in r <==> m in gms && m.groupId == groupId
    ensures multiset(r) == multiset(Filter(gms, (m: GroupMembership) => m.groupId == groupId))
    ensures SortedBy(r, UserIdKey)
  {
    var rows := Filter(gms, (m: GroupMembership) => m.groupId == groupId);
    var sorted := SortBy(rows, UserIdKey);
    assert forall m :: m in sorted <==> m in multiset(rows);
    sorted
  }

  /** In a table keyed by `(group_id, user_id)` the list is strictly increasing in user id. */
  lemma ListStrictlyByUser(gms: seq<GroupMembership>, groupId: int)
    requires UniqueGroupMemberships(gms)
    ensures var r := ListGroupMemberships(gms, groupId);
      forall i, j :: 0 <= i < j < |r| ==> r[i].userId < r[j].userId
  {
    var rows := Filter(gms, (m: GroupMembership) => m.groupId == groupId);
    var r := ListGroupMemberships(gms, groupId);
    GroupMembershipFilterApart(gms, (m: GroupMembership) => m.groupId == groupId);
    PermutationKeyed(rows, r);
    forall i, j | 0 <= i < j < |r| ensures r[i].userId < r[j].userId {
      assert LexLe(UserIdKey(r[i]), UserIdKey(r[j]));
      assert r[i] in r && r[j] in r;
    }
  }

  /** Two equal rows at two positions count twice. */
  lemma TwiceCounted(r: seq<GroupMembership>, i: nat, j: nat)
    requires i < j < |r| && r[i] == r[j]
    ensures multiset(r)[r[i]] >= 2
  {
    assert r == r[..i] + [r[i]] + r[i + 1..j] + [r[j]] + r[j + 1..];
  }

  /** A reordering of a table keyed by `(group_id, user_id)` is still keyed by it. */
  lemma PermutationKeyed(rows: seq<GroupMembership>, r: seq<GroupMembership>)
    requires UniqueGroupMemberships(rows) && multiset(r) == multiset(rows)
    ensures UniqueGroupMemberships(r)
  {
    forall i, j | 0 <= i < |r| && 0 <= j < |r| && i != j
      ensures !(r[i].groupId == r[j].groupId && r[i].userId == r[j].userId)
    {
      assert r[i] in multiset(rows) && r[j] in multiset(rows);
      var a :| 0 <= a < |rows| && rows[a] == r[i];
      var b :| 0 <= b < |rows| && rows[b] == r[j];
      if a == b {
        if i < j {
          TwiceCounted(r, i, j);
        } else {
          TwiceCounted(r, j, i);
        }
        OnceInApart(rows, r[i]);
        assert false;
      }
    }
  }

  /** The table filtered is still keyed by `(group_id, user_id)`. */
  lemma GroupMembershipFilterApart(gms: seq<GroupMembership>, keep: GroupMembership -> bool)
    requires UniqueGroupMemberships(gms)
    ensures UniqueGroupMemberships(Filter(gms, keep))
  {
    var samePair := (a: GroupMembership, b: GroupMembership) => HasKey(b, a.groupId, a.userId);
    assert PairwiseApart(gms, samePair);
    FilterKeepsApart(gms, keep, samePair);
    var r := Filter(gms, keep);
    assert forall i, j :: 0 <= i < |r| && 0 <= j < |r| && i != j ==> !samePair(r[i], r[j]);
  }

  /** A row of a table keyed by `(group_id, user_id)` occurs in it at most once. */
  lemma {:induction false} OnceInApart(gms: seq<GroupMembership>, m: GroupMembership)
    requires UniqueGroupMemberships(gms)
    ensures multiset(gms)[m] <= 1
  {
    if gms != [] {
      var tail := gms[1..];
      assert UniqueGroupMemberships(tail) by {
        forall i, j | 0 <= i < |tail| && 0 <= j < |tail| && i != j
          ensures !(tail[i].groupId == tail[j].groupId && tail[i].userId == tail[j].userId)
        {
          assert tail[i] == gms[i + 1] && tail[j] == gms[j + 1];
        }
      }
      OnceInApart(tail, m);
      assert gms == [gms[0]] + tail;
      if gms[0] == m {
        forall k | 0 <= k < |tail| ensures tail[k] != m {
          assert tail[k] == gms[k + 1];
        }
      }
    }
  }

  /**
   * The table after `add_group_member(group, user, role)`: an existing row keeps its place and
   * takes the new role only when the role is not `None`; a missing pair is appended once.
   */
  function AddedGroupMember(gms: seq<GroupMembership>, groupId: int, userId: int, role: Option<string>)
    : (r: seq<GroupMembership>)
  {
    var i := GroupMembershipIndex(gms, groupId, userId);
    if i.None? then gms + [GroupMembership(groupId, userId, role)]
    else if role.Some? then gms[i.value := gms[i.value].(role := role)]
    else gms
  }

  /** Whether the row a new pair would insert has a foreign key pointing nowhere. */
  predicate MemberDangling(groups: seq<Group>, users: seq<User>, groupId: int, userId: int) {
    (forall g :: g in groups ==> g.id != groupId) || (forall u :: u in users ==> u.id != userId)
  }

  /** What `add_group_member` returns: the stored row, or the re-raised foreign-key error of a new row. */
  function AddOutcome(gms: seq<GroupMembership>, groups: seq<Group>, users: seq<User>,
                      groupId: int, userId: int, role: Option<string>): (r: Result<GroupMembership, Fault>)
    ensures r.Err? <==> GroupMembershipIndex(gms, groupId, userId).None? && MemberDangling(groups, users, groupId, userId)
    ensures r.Err? ==> r.error == Integrity(ForeignKey)
    ensures r.Ok? ==> HasKey(r.value, groupId, userId) && r.value in AddedGroupMember(gms, groupId, userId, role)
    ensures r.Ok? && role.Some? ==> r.value.role == role
    ensures r.Ok? && role.None? && GroupMembershipIndex(gms, groupId, userId).Some? ==>
      r.value == gms[GroupMembershipIndex(gms, groupId, userId).value]
  {
    var i := GroupMembershipIndex(gms, groupId, userId);
    if i.None? then
      if MemberDangling(groups, users, groupId, userId) then Err(Integrity(ForeignKey))
      else Ok(GroupMembership(groupId, userId, role))
    else
      var updated := if role.Some? then gms[i.value].(role := role) else gms[i.value];
      assert AddedGroupMember(gms, groupId, userId, role)[i.value] == updated;
      Ok(updated)
  }

  /** After an add, the pair is present exactly once and every other row is as it was. */
  lemma {:induction false} AddKeepsKeyed(gms: seq<GroupMembership>, groupId: int, userId: int, role: Option<string>)
    requires UniqueGroupMemberships(gms)
    ensures var r := AddedGroupMember(gms, groupId, userId, role);
      UniqueGroupMemberships(r) && GroupMembershipIndex(r, groupId, userId).Some? &&
      forall m :: m in gms && !HasKey(m, groupId, userId) ==> m in r
  {
    var r := AddedGroupMember(gms, groupId, userId, role);
    var i := GroupMembershipIndex(gms, groupId, userId);
    if i.None? {
      forall a, b | 0 <= a < |r| && 0 <= b < |r| && a != b ensures !(r[a].groupId == r[b].groupId && r[a].userId == r[b].userId) {
        if a == |gms| {
          assert r[b] in gms;
        } else if b == |gms| {
          assert r[a] in gms;
        }
      }
      assert HasKey(r[|gms|], groupId, userId);
    } else {
      assert HasKey(r[i.value], groupId, userId);
      forall m | m in gms && !HasKey(m, groupId, userId) ensures m in r {
        var k :| 0 <= k < |gms| && gms[k] == m;
        assert r[k] == m;
      }
    }
  }

  /** Adding the same `(group, user, role)` a second time changes nothing further. */
  lemma AddIdempotent(gms: seq<GroupMembership>, groupId: int, userId: int, role: Option<string>)
    requires UniqueGroupMemberships(gms)
    ensures var once := AddedGroupMember(gms, groupId, userId, role);
      AddedGroupMember(once, groupId, userId, role) == once
  {
    var once := AddedGroupMember(gms, groupId, userId, role);
    AddKeepsKeyed(gms, groupId, userId, role);
    var j := GroupMembershipIndex(once, groupId, userId).value;
    var i := GroupMembershipIndex(gms, groupId, userId);
    if i.None? {
      GroupMembershipIndexUnique(once, groupId, userId, |gms|);
    } else {
      GroupMembershipIndexUnique(once, groupId, userId, i.value);
    }
    if role.Some? {
      assert once[j].role == role;
      assert once[j := once[j].(role := role)] == once;
    }
  }

  /** An existing pair added again with no role keeps its stored role: the table is unchanged. */
  lemma AddExistingWithoutRoleKeeps(gms: seq<GroupMembership>, groupId: int, userId: int)
    requires GroupMembershipIndex(gms, groupId, userId).Some?
    ensures AddedGroupMember(gms, groupId, userId, None) == gms
  {
  }

  /** The table after `remove_group_member`: every row with that key deleted. */
  function RemovedGroupMember(gms: seq<GroupMembership>, groupId: int, userId: int): (r: seq<GroupMembership>)
    ensures forall m :: m in r <==> m in gms && !HasKey(m, groupId, userId)
  {
    Filter(gms, (m: GroupMembership) => !HasKey(m, groupId, userId))
  }

  /** Removing a pair that is not there changes nothing. */
  lemma RemoveAbsentIsNoOp(gms: seq<GroupMembership>, groupId: int, userId: int)
    requires GroupMembershipIndex(gms, groupId, userId).None?
    ensures RemovedGroupMember(gms, groupId, userId) == gms
  {
    FilterKeepsAll(gms, (m: GroupMembership) => !HasKey(m, groupId, userId));
  }

  /** Removing a pair that an add has just inserted restores the table: remove undoes a fresh add. */
  lemma RemoveUndoesFreshAdd(gms: seq<GroupMembership>, groupId: int, userId: int, role: Option<string>)
    requires GroupMembershipIndex(gms, groupId, userId).None?
    ensures RemovedGroupMember(AddedGroupMember(gms, groupId, userId, role), groupId, userId) == gms
  {
    var p := (m: GroupMembership) => !HasKey(m, groupId, userId);
    FilterSnoc(gms, GroupMembership(groupId, userId, role), p);
    RemoveAbsentIsNoOp(gms, groupId, userId);
  }

  /** `add_group_member`: the lookup, then a role update or one insert, then one commit. */
  method AddGroupMember(db: Db, groupId: int, userId: int, role: Option<string>) returns (r: Result<GroupMembership, Fault>)
    requires UniqueGroupMemberships(db.groupMemberships)
    modifies db`groupMemberships
    ensures UniqueGroupMemberships(db.groupMemberships)
    ensures r == AddOutcome(old(db.groupMemberships), db.groups, db.users, groupId, userId, role)
    ensures r.Ok? ==> db.groupMemberships == AddedGroupMember(old(db.groupMemberships), groupId, userId, role)
    ensures r.Err? ==> db.groupMemberships == old(db.groupMemberships)
  {
    AddKeepsKeyed(db.groupMemberships, groupId, userId, role);
    var i := GroupMembershipIndex(db.groupMemberships, groupId, userId);
    if i.Some? {
      var existing := db.groupMemberships[i.value];
      if role.Some? {
        existing := existing.(role := role);
        db.groupMemberships := db.groupMemberships[i.value := existing];
      }
      return Ok(existing);
    }
    if MemberDangling(db.groups, db.users, groupId, userId) {
      return Err(Integrity(ForeignKey));
    }
    var gm := GroupMembership(groupId, userId, role);
    db.groupMemberships := db.groupMemberships + [gm];
    r := Ok(gm);
  }

  /** `remove_group_member`: one delete by key, then a commit; an absent pair is not an error. */
  method RemoveGroupMember(db: Db, groupId: int, userId: int)
    requires UniqueGroupMemberships(db.groupMemberships)
    modifies db`groupMemberships
    ensures UniqueGroupMemberships(db.groupMemberships)
    ensures db.groupMemberships == RemovedGroupMember(old(db.groupMemberships), groupId, userId)
    ensures GroupMembershipIndex(db.groupMemberships, groupId, userId).None?
  {
    GroupMembershipFilterApart(db.groupMemberships, (m: GroupMembership) => !HasKey(m, groupId, userId));
    db.groupMemberships := RemovedGroupMember(db.groupMemberships, groupId, userId);
  }
}
