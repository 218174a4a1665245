/**
 * The request bodies of app/schemas/exercise.py. A body is validated field by field: the name
 * is stripped and bounded, the description bounded but kept as sent, the counts and the
 * position non-negative; unknown keys are refused (`extra="forbid"`). A `None` position means
 * "append after the last exercise". `ExerciseUpdate` is the same body with every field
 * optional; it is carried as the list of the fields the client set, each key once, which is
 * what `model_dump(exclude_unset=True)` hands on, in the schema's declaration order.
 */
module ExerciseSchema {
  import opened Wrappers
  import opened Models
  import opened Errors
  import opened Text
  import opened Rows

  const MaxName := 100
  const MaxDescription := 1000

  /** The field names of an exercise body. */
  const ExerciseKeys: set<string> := {"name", "description", "sets", "repetitions", "position", "day_label"}

  /** `_name`: stripped, then rejected when empty or longer than 100 characters. */
  function ValidateName(v: string): (r: Result<string, Fault>)
    ensures r.Ok? <==> 1 <= |Strip(v)| <= MaxName
    ensures r.Ok? ==> r.value == Strip(v) && IsStripped(r.value) && 1 <= |r.value| <= MaxName
    ensures r.Err? ==> r.error.Value?
  {
    var s := Strip(v);
    if s == [] then Err(Value("name cannot be empty"))
    else if |s| > MaxName then Err(Value("name cannot be longer than 100 characters"))
    else Ok(s)
  }

  /** A validated name passes validation again unchanged. */
  lemma ValidateNameIdempotent(v: string)
    requires ValidateName(v).Ok?
    ensures ValidateName(ValidateName(v).value) == ValidateName(v)
  {
    StripStripped(Strip(v));
  }

  /** `_description`: `None` passes; otherwise at most 1000 characters, returned unstripped. */
  function ValidateDescription(v: Option<string>): (r: Result<Option<string>, Fault>)
    ensures r.Ok? <==> v.None? || |v.value| <= MaxDescription
    ensures r.Ok? ==> r.value == v
    ensures r.Err? ==> r.error.Value?
  {
    if v.None? then Ok(v)
    else if |v.value| > MaxDescription then Err(Value("description cannot be longer than 1000 characters"))
    else Ok(v)
  }

  /** `_not_negative` on `sets`, `repetitions` and `position`: `None` and 0 pass, negatives fail. */
  function ValidateNotNegative(v: Option<int>): (r: Result<Option<int>, Fault>)
    ensures r.Ok? <==> v.None? || v.value >= 0
    ensures r.Ok? ==> r.value == v
    ensures r.Err? ==> r.error.Value?
  {
    if v.Some? && v.value < 0 then Err(Value("Value must be positive")) else Ok(v)
  }

  /** A validated `ExerciseCreate`; `position == None` asks for auto-append. */
  datatype ExerciseCreate = ExerciseCreate(
    name: string, description: Option<string>, sets: Option<int>, repetitions: Option<int>,
    position: Option<int>, dayLabel: Option<DayLabel>)

  /** Every field of a valid body, and no key outside the schema. */
  predicate CreateIsValid(keys: set<string>, name: string, description: Option<string>, sets: Option<int>,
                          repetitions: Option<int>, position: Option<int>) {
    keys <= ExerciseKeys && 1 <= |Strip(name)| <= MaxName &&
    (description.None? || |description.value| <= MaxDescription) &&
    (sets.None? || sets.value >= 0) && (repetitions.None? || repetitions.value >= 0) &&
    (position.None? || position.value >= 0)
  }

  /**
   * Validating an `ExerciseCreate` body whose keys are `keys`: accepted exactly when every
   * validator accepts and no key is unknown; the name comes back stripped and everything
   * else as sent, so an absent position stays `None` (auto-append).
   */
  function ValidateExerciseCreate(keys: set<string>, name: string, description: Option<string>, sets: Option<int>,
                                  repetitions: Option<int>, position: Option<int>, dayLabel: Option<DayLabel>)
    : (r: Result<ExerciseCreate, Fault>)
    ensures r.Ok? <==> CreateIsValid(keys, name, description, sets, repetitions, position)
    ensures r.Ok? ==> r.value == ExerciseCreate(Strip(name), description, sets, repetitions, position, dayLabel)
    ensures r.Err? ==> r.error.Value?
  {
    if !(keys <= ExerciseKeys) then Err(Value("extra fields not permitted"))
    else
      var n := ValidateName(name);
      var d := ValidateDescription(description);
      var s := ValidateNotNegative(sets);
      var p := ValidateNotNegative(repetitions);
      var q := ValidateNotNegative(position);
      if n.Err? then Err(n.error)
      else if d.Err? then Err(d.error)
      else if s.Err? then Err(s.error)
      else if p.Err? then Err(p.error)
      else if q.Err? then Err(q.error)
      else Ok(ExerciseCreate(n.value, description, sets, repetitions, position, dayLabel))
  }

  /** One field an `ExerciseUpdate` body sets, with its value; `setattr` applies it to a row. */
  datatype ExerciseField =
    | NameField(name: string)
    | DescriptionField(description: Option<string>)
    | SetsField(sets: Option<int>)
    | RepetitionsField(repetitions: Option<int>)
    | PositionField(position: Option<int>)
    | DayLabelField(dayLabel: Option<DayLabel>)

  /** The validator of one set field, as `ExerciseUpdate` inherits it from `ExerciseCreate`. */
  function ValidateField(f: ExerciseField): (r: Result<ExerciseField, Fault>)
    ensures r.Ok? ==> r.value == (if f.NameField? then NameField(Strip(f.name)) else f)
    ensures r.Ok? <==> match f
      case NameField(n) => 1 <= |Strip(n)| <= MaxName
      case DescriptionField(d) => d.None? || |d.value| <= MaxDescription
      case SetsField(v) => v.None? || v.value >= 0
      case RepetitionsField(v) => v.None? || v.value >= 0
      case PositionField(v) => v.None? || v.value >= 0
      case DayLabelField(_) => true
    ensures r.Err? ==> r.error.Value?
  {
    match f
    case NameField(n) => (var v := ValidateName(n); if v.Ok? then Ok(NameField(v.value)) else Err(v.error))
    case DescriptionField(d) => (var v := ValidateDescription(d); if v.Ok? then Ok(f) else Err(v.error))
    case SetsField(s) => (var v := ValidateNotNegative(s); if v.Ok? then Ok(f) else Err(v.error))
    case RepetitionsField(s) => (var v := ValidateNotNegative(s); if v.Ok? then Ok(f) else Err(v.error))
    case PositionField(s) => (var v := ValidateNotNegative(s); if v.Ok? then Ok(f) else Err(v.error))
    case DayLabelField(_) => Ok(f)
  }

  /** The schema key of a field. */
  function FieldKey(f: ExerciseField): string {
    match f
    case NameField(_) => "name"
    case DescriptionField(_) => "description"
    case SetsField(_) => "sets"
    case RepetitionsField(_) => "repetitions"
    case PositionField(_) => "position"
    case DayLabelField(_) => "day_label"
  }

  /**
   * Validating an `ExerciseUpdate` body: unknown keys are refused, then each set field runs
   * its validator. The result lists the same fields in the same order, each normalised.
   */
  function ValidateExerciseUpdate(keys: set<string>, fields: seq<ExerciseField>): (r: Result<seq<ExerciseField>, Fault>)
    ensures r.Ok? <==> keys <= ExerciseKeys && forall i :: 0 <= i < |fields| ==> ValidateField(fields[i]).Ok?
    ensures r.Ok? ==> |r.value| == |fields|
    ensures r.Ok? ==> forall i :: 0 <= i < |fields| ==>
      r.value[i] == ValidateField(fields[i]).value && FieldKey(r.value[i]) == FieldKey(fields[i])
    ensures r.Err? ==> r.error.Value?
  {
    if !(keys <= ExerciseKeys) then Err(Value("extra fields not permitted"))
    else ValidateFields(fields)
  }

  /** The field validators over a list of set fields; the first failure is reported. */
  function ValidateFields(fields: seq<ExerciseField>): (r: Result<seq<ExerciseField>, Fault>)
    ensures r.Ok? <==> forall i :: 0 <= i < |fields| ==> ValidateField(fields[i]).Ok?
    ensures r.Ok? ==> |r.value| == |fields| && forall i :: 0 <= i < |fields| ==> r.value[i] == ValidateField(fields[i]).value
    ensures r.Err? ==> r.error.Value?
  {
    var bad := FindFirst(fields, (f: ExerciseField) => ValidateField(f).Err?);
    if bad.Some? then Err(ValidateField(fields[bad.value]).error)
    else Ok(seq(|fields|, i requires 0 <= i < |fields| => ValidateField(fields[i]).value))
  }
}
