/**
 * `ClubService` (app/services/club.py) together with the `ClubRepository` calls it makes
 * (app/repositories/club.py): paging and search of the club list, creation of a club with
 * its first membership, the slug recomputed on update, and lookup and delete of one club.
 * The service builds a club with a slug, `generate_club_slug` of its name, country, city and
 * sport, and the repository turns a clash on that slug into `DuplicateSlugError`. The ORM
 * `Club` (app/db/models.py) has no slug column and app/schemas/club.py only a name; the
 * slug column, its uniqueness and the four create fields are modelled as the service and
 * its repository use them.
 */
module ClubService {
  import opened Wrappers
  import opened Models
  import opened Errors
  import opened Rows
  import opened Text
  import opened Slug
  import opened Database
  import opened MembershipRepository

  /** The `clubs` table: primary key and one club per slug. */
  ghost predicate ClubsValid(cs: seq<Club>) {
    DistinctIds(cs, ClubId) &&
    forall i, j :: 0 <= i < |cs| && 0 <= j < |cs| && i != j ==> cs[i].slug != cs[j].slug
  }

  // ---- list_clubs_service ----

  const MaxLimit := 200

  /** `max(0, skip)`. */
  function ClampSkip(skip: int): (r: nat)
    ensures r >= skip && (skip >= 0 ==> r == skip) && (skip < 0 ==> r == 0)
  {
    if skip < 0 then 0 else skip
  }

  /** `max(1, min(limit, 200))`. */
  function ClampLimit(limit: int): (r: nat)
    ensures 1 <= r <= MaxLimit
    ensures 1 <= limit <= MaxLimit ==> r == limit
    ensures limit < 1 ==> r == 1
    ensures limit > MaxLimit ==> r == MaxLimit
  {
    if limit < 1 then 1 else if limit > MaxLimit then MaxLimit else limit
  }

  /** `q.strip()`, with a blank result becoming `None`. */
  function NormalizeQuery(q: Option<string>): (r: Option<string>)
    ensures q.None? ==> r.None?
    ensures q.Some? ==> (r.None? <==> Strip(q.value) == [])
    ensures r.Some? ==> r.value == Strip(q.value) && r.value != [] && IsStripped(r.value)
  {
    if q.None? then None
    else
      var s := Strip(q.value);
      if s == [] then None else Some(s)
  }

  /** Clamping is idempotent: clamped values pass the clamps unchanged. */
  lemma ClampIdempotent(skip: int, limit: int, q: Option<string>)
    ensures ClampSkip(ClampSkip(skip)) == ClampSkip(skip)
    ensures ClampLimit(ClampLimit(limit)) == ClampLimit(limit)
    ensures NormalizeQuery(NormalizeQuery(q)) == NormalizeQuery(q)
  {
    if NormalizeQuery(q).Some? {
      StripStripped(NormalizeQuery(q).value);
    }
  }

  function ClubNameKey(c: Club): seq<int> {
    Codes(c.name)
  }

  /** The `WHERE` of `list_clubs`: a non-empty `q` must occur in the name; otherwise every club matches. */
  predicate MatchesQuery(c: Club, q: Option<string>) {
    q.None? || q.value == [] || Contains(c.name, q.value)
  }

  /** The clubs `list_clubs` selects before ordering, each as often as in the table. */
  function MatchingClubs(cs: seq<Club>, q: Option<string>): (r: seq<Club>)
    ensures |r| <= |cs|
    ensures forall c :: c in r <==> c in cs && MatchesQuery(c, q)
    ensures forall c {:trigger multiset(r)[c]} :: multiset(r)[c] == if MatchesQuery(c, q) then multiset(cs)[c] else 0
  {
    Filter(cs, (c: Club) => MatchesQuery(c, q))
  }

  /**
   * `list_clubs`: the matching clubs by name, one page. From offset 0 with a limit that
   * spans the table, the page holds every matching club.
   */
  function ClubsPage(cs: seq<Club>, skip: nat, limit: nat, q: Option<string>): (r: seq<Club>)
    ensures |r| <= limit
    ensures forall c :: c in r ==> c in cs && (q.Some? && q.value != [] ==> Contains(c.name, q.value))
    ensures SortedBy(r, ClubNameKey)
    ensures skip == 0 && limit >= |cs| ==> multiset(r) == multiset(MatchingClubs(cs, q))
  {
    var matching := MatchingClubs(cs, q);
    PageOfSorted(matching, skip, limit, ClubNameKey);
    Page(SortBy(matching, ClubNameKey), skip, limit)
  }

  /** Two consecutive pages are the page that spans both, so paging lists no club twice and skips none. */
  lemma ClubPagesCover(cs: seq<Club>, q: Option<string>, skip: nat, n: nat, m: nat)
    ensures ClubsPage(cs, skip, n, q) + ClubsPage(cs, skip + n, m, q) == ClubsPage(cs, skip, n + m, q)
  {
    PagesConcatenate(SortBy(MatchingClubs(cs, q), ClubNameKey), skip, n, m);
  }

  /**
   * `list_clubs_service`: the paging arguments clamped and the query normalised before the
   * repository lists; at most 200 clubs come back, and every one matches a non-blank query.
   */
  function ListClubsService(cs: seq<Club>, skip: int, limit: int, q: Option<string>): (r: seq<Club>)
    ensures |r| <= ClampLimit(limit)
    ensures |r| <= MaxLimit
    ensures forall c :: c in r ==> c in cs
    ensures q.Some? && Strip(q.value) != [] ==> forall c :: c in r ==> Contains(c.name, Strip(q.value))
    ensures skip <= 0 && |cs| <= ClampLimit(limit) ==> multiset(r) == multiset(MatchingClubs(cs, NormalizeQuery(q)))
  {
    ClubsPage(cs, ClampSkip(skip), ClampLimit(limit), NormalizeQuery(q))
  }

  /** A blank query lists the same page as no query at all. */
  lemma BlankQueryIsNoQuery(cs: seq<Club>, skip: int, limit: int, q: string)
    requires Strip(q) == []
    ensures ListClubsService(cs, skip, limit, Some(q)) == ListClubsService(cs, skip, limit, None)
  {
  }

  // ---- create_club_and_owner ----

  /** The fields of a club body the service reads (`model_dump(exclude_unset=True)`; unset is `None`). */
  datatype ClubCreate = ClubCreate(
    name: string, description: Option<string>, country: Option<string>, city: Option<string>, sport: Option<string>)

  /** A nullable text field as an element of the slug's parts list. */
  function Part(v: Option<string>): PartValue {
    if v.Some? then Str(v.value) else NoneValue
  }

  /** `generate_club_slug([name, country, city, sport])`. */
  function SlugOf(name: string, country: Option<string>, city: Option<string>, sport: Option<string>): (r: string)
    ensures IsSlug(r)
  {
    ClubSlug([Str(name), Part(country), Part(city), Part(sport)])
  }

  /** The index of the club with that id, if any (`db.get(Club, club_id)`). */
  function ClubIndex(cs: seq<Club>, clubId: int): (r: Option<nat>)
    ensures r.Some? ==> r.value < |cs| && cs[r.value].id == clubId
    ensures r.None? <==> forall c :: c in cs ==> c.id != clubId
  {
    FindFirst(cs, (c: Club) => c.id == clubId)
  }

  /** Whether a club other than the one at `except` already holds the slug. */
  predicate SlugTaken(cs: seq<Club>, slug: string, except: Option<nat>) {
    exists k :: 0 <= k < |cs| && Some(k) != except && cs[k].slug == slug
  }

  /** The club `create_club` adds: the next id, the body's fields and the slug. */
  function NewClub(cs: seq<Club>, data: ClubCreate): (c: Club)
    ensures c.name == data.name && c.description == data.description
    ensures c.country == data.country && c.city == data.city && c.sport == data.sport
    ensures c.slug == SlugOf(data.name, data.country, data.city, data.sport) && IsSlug(c.slug)
    ensures forall k :: 0 <= k < |cs| ==> cs[k].id < c.id
  {
    Club(NextId(cs, ClubId), data.name, data.description, data.country, data.city, data.sport,
         SlugOf(data.name, data.country, data.city, data.sport))
  }

  /** A club whose slug is free, under a fresh id, keeps the clubs table valid. */
  lemma NewClubKeepsValid(cs: seq<Club>, data: ClubCreate)
    requires ClubsValid(cs) && !SlugTaken(cs, NewClub(cs, data).slug, None)
    ensures ClubsValid(cs + [NewClub(cs, data)])
  {
    AppendFreshId(cs, NewClub(cs, data), ClubId);
  }

  /**
   * What `create_club_and_owner` does: a taken slug is `DuplicateSlugError` and nothing is
   * added; otherwise the club is flushed and the membership of `userId` with `role` added.
   * A failing membership insert rolls back the flushed club as well and is
   * `MembershipExistsError`; success commits both rows.
   */
  ghost predicate ClubCreated(before: seq<Club>, after: seq<Club>, msBefore: seq<Membership>, msAfter: seq<Membership>,
                              users: seq<User>, data: ClubCreate, userId: int, role: MembershipRole,
                              r: Result<(Club, Membership), Fault>) {
    var club := NewClub(before, data);
    var m := Membership(NextId(msBefore, MembershipId), club.id, userId, role);
    (SlugTaken(before, club.slug, None) ==>
       r == Err(Domain(DuplicateSlug)) && after == before && msAfter == msBefore) &&
    (!SlugTaken(before, club.slug, None) && InsertViolation(msBefore, before + [club], users, m).Some? ==>
       r == Err(Domain(MembershipExists)) && after == before && msAfter == msBefore) &&
    (!SlugTaken(before, club.slug, None) && InsertViolation(msBefore, before + [club], users, m).None? ==>
       r == Ok((club, m)) && after == before + [club] && msAfter == msBefore + [m])
  }

  // ---- update_club_service ----

  /**
   * A `ClubUpdate` after `model_dump(exclude_unset=True)`: for each key, `None` when the
   * client did not set it, `Some(v)` when it did (`v` may itself be NULL).
   */
  datatype ClubUpdate = ClubUpdate(
    name: Option<string>, description: Option<Option<string>>, country: Option<Option<string>>,
    city: Option<Option<string>>, sport: Option<Option<string>>)

  /** `{**current, **update}` for one key. */
  function Merge<T>(current: T, update: Option<T>): (r: T)
    ensures update.None? ==> r == current
    ensures update.Some? ==> r == update.value
  {
    if update.Some? then update.value else current
  }

  /** The slug recomputed from the stored fields overlaid with the supplied ones. */
  function MergedSlug(c: Club, u: ClubUpdate): (r: string)
    ensures IsSlug(r)
  {
    SlugOf(Merge(c.name, u.name), Merge(c.country, u.country), Merge(c.city, u.city), Merge(c.sport, u.sport))
  }

  /** The `setattr` loop over the supplied fields and the new slug. */
  function ApplyClubUpdate(c: Club, u: ClubUpdate): (r: Club)
    ensures r.id == c.id
    ensures r.name == Merge(c.name, u.name) && r.description == Merge(c.description, u.description)
    ensures r.country == Merge(c.country, u.country) && r.city == Merge(c.city, u.city) && r.sport == Merge(c.sport, u.sport)
    ensures r.slug == SlugOf(r.name, r.country, r.city, r.sport)
  {
    c.(name := Merge(c.name, u.name), description := Merge(c.description, u.description),
       country := Merge(c.country, u.country), city := Merge(c.city, u.city), sport := Merge(c.sport, u.sport),
       slug := MergedSlug(c, u))
  }

  /** An update that sets nothing still recomputes the slug, from the stored fields alone. */
  lemma EmptyUpdateKeepsFields(c: Club)
    ensures var r := ApplyClubUpdate(c, ClubUpdate(None, None, None, None, None));
      r == c.(slug := SlugOf(c.name, c.country, c.city, c.sport))
  {
  }

  /** Applying the same update twice is applying it once: the second pass sets the same fields and the same slug. */
  lemma UpdateIsIdempotent(c: Club, u: ClubUpdate)
    ensures ApplyClubUpdate(ApplyClubUpdate(c, u), u) == ApplyClubUpdate(c, u)
  {
  }

  /** Replacing a club by one with the same id and a slug no other club holds keeps the table valid. */
  lemma ReplaceClubKeepsValid(cs: seq<Club>, i: nat, c: Club)
    requires ClubsValid(cs) && i < |cs| && c.id == cs[i].id && !SlugTaken(cs, c.slug, Some(i))
    ensures ClubsValid(cs[i := c])
  {
    var r := cs[i := c];
    forall a, b | 0 <= a < |r| && 0 <= b < |r| && a != b ensures ClubId(r[a]) != ClubId(r[b]) {
      assert ClubId(r[a]) == ClubId(cs[a]) && ClubId(r[b]) == ClubId(cs[b]);
    }
  }

  /** Removing a club keeps the table valid. */
  lemma RemoveClubKeepsValid(cs: seq<Club>, i: nat)
    requires ClubsValid(cs) && i < |cs|
    ensures ClubsValid(RemoveAt(cs, i))
  {
    RemoveKeepsDistinct(cs, i, ClubId);
    var r := RemoveAt(cs, i);
    forall a, b | 0 <= a < |r| && 0 <= b < |r| && a != b ensures r[a].slug != r[b].slug {
      var a' := if a < i then a else a + 1;
      var b' := if b < i then b else b + 1;
      assert r[a] == cs[a'] && r[b] == cs[b'];
    }
  }

  class ClubService {
    const db: Db

    constructor (db: Db)
      ensures this.db == db
    {
      this.db := db;
    }

    /** `get_club_service`: the club, or `ClubNotFoundError`. */
    method GetClub(clubId: int) returns (r: Result<Club, Fault>)
      ensures r.Ok? <==> exists c :: c in db.clubs && c.id == clubId
      ensures r.Ok? ==> r.value in db.clubs && r.value.id == clubId
      ensures r.Err? ==> r.error == Domain(ClubNotFound)
    {
      var i := ClubIndex(db.clubs, clubId);
      if i.None? {
        return Err(Domain(ClubNotFound));
      }
      r := Ok(db.clubs[i.value]);
    }

    /** `list_clubs_service`. */
    method ListClubs(skip: int, limit: int, q: Option<string>) returns (r: seq<Club>)
      ensures r == ListClubsService(db.clubs, skip, limit, q)
      ensures |r| <= MaxLimit
    {
      var s := ClampSkip(skip);
      var l := ClampLimit(limit);
      var query := NormalizeQuery(q);
      r := ClubsPage(db.clubs, s, l, query);
    }

    /** `create_club_and_owner`: the slug, the club, then the first membership. */
    method CreateClubAndOwner(data: ClubCreate, userId: int, role: MembershipRole)
      returns (r: Result<(Club, Membership), Fault>)
      requires ClubsValid(db.clubs) && MembershipsValid(db.memberships)
      modifies db`clubs, db`memberships
      ensures ClubsValid(db.clubs) && MembershipsValid(db.memberships)
      ensures ClubCreated(old(db.clubs), db.clubs, old(db.memberships), db.memberships, db.users, data, userId, role, r)
    {
      var club := NewClub(db.clubs, data);
      if SlugTaken(db.clubs, club.slug, None) {
        return Err(Domain(DuplicateSlug));
      }
      var m := Membership(NextId(db.memberships, MembershipId), club.id, userId, role);
      if InsertViolation(db.memberships, db.clubs + [club], db.users, m).Some? {
        return Err(Domain(MembershipExists));
      }
      NewClubKeepsValid(db.clubs, data);
      InsertKeepsValid(db.memberships, db.clubs + [club], db.users, m);
      db.clubs := db.clubs + [club];
      db.memberships := db.memberships + [m];
      r := Ok((club, m));
    }

    /**
     * `update_club_service`: an unknown id is `ClubNotFoundError`; otherwise the supplied
     * fields and the recomputed slug replace the stored ones, unless another club holds that
     * slug, which is `DuplicateSlugError` and changes nothing.
     */
    method UpdateClub(clubId: int, u: ClubUpdate) returns (r: Result<Club, Fault>)
      requires ClubsValid(db.clubs)
      modifies db`clubs
      ensures ClubsValid(db.clubs)
      ensures ClubIndex(old(db.clubs), clubId).None? ==> r == Err(Domain(ClubNotFound)) && db.clubs == old(db.clubs)
      ensures ClubIndex(old(db.clubs), clubId).Some? ==>
        var i := ClubIndex(old(db.clubs), clubId).value;
        var updated := ApplyClubUpdate(old(db.clubs)[i], u);
        (SlugTaken(old(db.clubs), updated.slug, Some(i)) ==> r == Err(Domain(DuplicateSlug)) && db.clubs == old(db.clubs)) &&
        (!SlugTaken(old(db.clubs), updated.slug, Some(i)) ==> r == Ok(updated) && db.clubs == old(db.clubs)[i := updated])
    {
      var found := ClubIndex(db.clubs, clubId);
      if found.None? {
        return Err(Domain(ClubNotFound));
      }
      var i := found.value;
      var updated := ApplyClubUpdate(db.clubs[i], u);
      if SlugTaken(db.clubs, updated.slug, Some(i)) {
        return Err(Domain(DuplicateSlug));
      }
      ReplaceClubKeepsValid(db.clubs, i, updated);
      db.clubs := db.clubs[i := updated];
      r := Ok(updated);
    }

    /** `delete_club_service`: an unknown id is `ClubNotFoundError`; otherwise the club leaves the table. */
    method DeleteClub(clubId: int) returns (err: Option<Fault>)
      requires ClubsValid(db.clubs)
      modifies db`clubs
      ensures ClubsValid(db.clubs)
      ensures ClubIndex(old(db.clubs), clubId).None? ==> err == Some(Domain(ClubNotFound)) && db.clubs == old(db.clubs)
      ensures ClubIndex(old(db.clubs), clubId).Some? ==>
        err.None? && db.clubs == RemoveAt(old(db.clubs), ClubIndex(old(db.clubs), clubId).value)
    {
      var found := ClubIndex(db.clubs, clubId);
      if found.None? {
        return Some(Domain(ClubNotFound));
      }
      RemoveClubKeepsValid(db.clubs, found.value);
      db.clubs := RemoveAt(db.clubs, found.value);
      err := None;
    }
  }
}
