/**
 * The validators of `SessionCreate` and `SessionUpdate` (app/schemas/session.py): the
 * location is stripped and bounded, the note stripped, bounded and blank-to-`None`, and the
 * start must come strictly before the end. Times are integers (instants); whether each time
 * carries a time zone is a boolean beside it, and a naive time is refused.
 */
module SessionSchema {
  import opened Wrappers
  import opened Errors
  import opened Text

  const MaxLocation := 100
  const MaxNote := 1000

  /** `_trim_location`: stripped, then rejected when empty or longer than 100 characters. */
  function ValidateLocation(v: string): (r: Result<string, Fault>)
    ensures r.Ok? <==> 1 <= |Strip(v)| <= MaxLocation
    ensures r.Ok? ==> r.value == Strip(v) && IsStripped(r.value)
    ensures r.Err? ==> r.error.Value?
  {
    var s := Strip(v);
    if s == [] then Err(Value("location must not be empty"))
    else if |s| > MaxLocation then Err(Value("location exceeds max length (100)"))
    else Ok(s)
  }

  /** A validated location passes validation again unchanged. */
  lemma ValidateLocationIdempotent(v: string)
    requires ValidateLocation(v).Ok?
    ensures ValidateLocation(ValidateLocation(v).value) == ValidateLocation(v)
  {
    StripStripped(Strip(v));
  }

  /** `_trim_note`: `None` passes; otherwise stripped, at most 1000 characters, and a blank note becomes `None`. */
  function ValidateNote(v: Option<string>): (r: Result<Option<string>, Fault>)
    ensures r.Ok? <==> v.None? || |Strip(v.value)| <= MaxNote
    ensures r == Ok(None) <==> v.None? || Strip(v.value) == []
    ensures r.Ok? && r.value.Some? ==> r.value.value == Strip(v.value) && r.value.value != [] && IsStripped(r.value.value)
    ensures r.Err? ==> r.error.Value?
  {
    if v.None? then Ok(None)
    else
      var s := Strip(v.value);
      if |s| > MaxNote then Err(Value("note exceeds max length (1000)"))
      else if s == [] then Ok(None)
      else Ok(Some(s))
  }

  /** A validated note passes validation again unchanged. */
  lemma ValidateNoteIdempotent(v: Option<string>)
    requires ValidateNote(v).Ok?
    ensures ValidateNote(ValidateNote(v).value) == ValidateNote(v)
  {
    if v.Some? {
      StripStripped(Strip(v.value));
    }
  }

  /** A validated `SessionCreate`. */
  datatype SessionCreate = SessionCreate(startsAt: int, endsAt: int, location: string, note: Option<string>)

  /**
   * `SessionCreate`: the field validators, then both times must carry a time zone
   * (`startsAware`, `endsAware`), then the time order (`starts_at >= ends_at` fails).
   */
  function ValidateSessionCreate(startsAt: int, startsAware: bool, endsAt: int, endsAware: bool,
                                 location: string, note: Option<string>)
    : (r: Result<SessionCreate, Fault>)
    ensures r.Ok? <==>
      ValidateLocation(location).Ok? && ValidateNote(note).Ok? && startsAware && endsAware && startsAt < endsAt
    ensures r.Ok? ==> r.value == SessionCreate(startsAt, endsAt, Strip(location), ValidateNote(note).value)
    ensures r.Err? ==> r.error.Value?
  {
    var loc := ValidateLocation(location);
    if loc.Err? then Err(loc.error)
    else
      var n := ValidateNote(note);
      if n.Err? then Err(n.error)
      else if !startsAware || !endsAware then Err(Value("starts_at and ends_at must be timezone-aware"))
      else if startsAt >= endsAt then Err(Value("starts_at must be before ends_at"))
      else Ok(SessionCreate(startsAt, endsAt, loc.value, n.value))
  }

  /** A field of a partial update: left unset, or set to a value (which may be `None`). */
  datatype Patch<T> = Unset | Put(value: T)

  /** `data.<field>` of a partial update: the value set, or the declared default `None`. */
  function Given<T>(p: Patch<Option<T>>): Option<T> {
    if p.Put? then p.value else None
  }

  /** A `SessionUpdate` body; `model_dump(exclude_unset=True)` keeps exactly the `Put` fields. */
  datatype SessionUpdate = SessionUpdate(
    startsAt: Patch<Option<int>>, endsAt: Patch<Option<int>>, location: Patch<Option<string>>, note: Patch<Option<string>>)

  /** The location of an update: an explicit `None` passes through, a string is validated. */
  function ValidateLocationPatch(p: Patch<Option<string>>): (r: Result<Patch<Option<string>>, Fault>)
    ensures r.Ok? <==> !(p.Put? && p.value.Some?) || ValidateLocation(p.value.value).Ok?
    ensures r.Ok? ==> r.value.Put? == p.Put? && (p.Put? ==> r.value.value.Some? == p.value.Some?)
    ensures r.Ok? && p.Put? && p.value.Some? ==> r.value.value.value == Strip(p.value.value)
  {
    if p.Put? && p.value.Some? then
      var loc := ValidateLocation(p.value.value);
      if loc.Err? then Err(loc.error) else Ok(Put(Some(loc.value)))
    else Ok(p)
  }

  /** The note of an update, validated when set. */
  function ValidateNotePatch(p: Patch<Option<string>>): (r: Result<Patch<Option<string>>, Fault>)
    ensures r.Ok? <==> p.Unset? || ValidateNote(p.value).Ok?
    ensures r.Ok? ==> r.value.Put? == p.Put? && (p.Put? ==> r.value.value == ValidateNote(p.value).value)
  {
    if p.Put? then
      var n := ValidateNote(p.value);
      if n.Err? then Err(n.error) else Ok(Put(n.value))
    else Ok(p)
  }

  /**
   * `SessionUpdate`: the field validators, then each given time must carry a time zone
   * (`startsAware`, `endsAware` say whether it does), then the time order only when both
   * times are given.
   */
  function ValidateSessionUpdate(u: SessionUpdate, startsAware: bool, endsAware: bool): (r: Result<SessionUpdate, Fault>)
    ensures r.Ok? <==>
      ValidateLocationPatch(u.location).Ok? && ValidateNotePatch(u.note).Ok? &&
      (Given(u.startsAt).Some? ==> startsAware) && (Given(u.endsAt).Some? ==> endsAware) &&
      !(Given(u.startsAt).Some? && Given(u.endsAt).Some? && Given(u.startsAt).value >= Given(u.endsAt).value)
    ensures r.Ok? ==> r.value.startsAt == u.startsAt && r.value.endsAt == u.endsAt
    ensures r.Ok? ==> r.value.location == ValidateLocationPatch(u.location).value && r.value.note == ValidateNotePatch(u.note).value
    ensures r.Err? ==> r.error.Value?
  {
    var loc := ValidateLocationPatch(u.location);
    if loc.Err? then Err(loc.error)
    else
      var n := ValidateNotePatch(u.note);
      if n.Err? then Err(n.error)
      else if Given(u.startsAt).Some? && !startsAware then Err(Value("starts_at must be timezone-aware"))
      else if Given(u.endsAt).Some? && !endsAware then Err(Value("ends_at must be timezone-aware"))
      else if Given(u.startsAt).Some? && Given(u.endsAt).Some? && Given(u.startsAt).value >= Given(u.endsAt).value then
        Err(Value("starts_at must be before ends_at"))
      else Ok(u.(location := loc.value, note := n.value))
  }

  /** Validating a validated update again changes nothing. */
  lemma ValidateSessionUpdateIdempotent(u: SessionUpdate, startsAware: bool, endsAware: bool)
    requires ValidateSessionUpdate(u, startsAware, endsAware).Ok?
    ensures var v := ValidateSessionUpdate(u, startsAware, endsAware).value;
      ValidateSessionUpdate(v, startsAware, endsAware) == Ok(v)
  {
    if u.location.Put? && u.location.value.Some? {
      ValidateLocationIdempotent(u.location.value.value);
    }
    if u.note.Put? {
      ValidateNoteIdempotent(u.note.value);
    }
  }
}
