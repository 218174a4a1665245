/**
 * The validators of `PlanCreate` (app/schemas/plan.py): the name is stripped and bounded, the
 * description bounded only when it is a non-empty string and kept as sent. `PlanUpdate`
 * declares no validator at all.
 */
module PlanSchema {
  import opened Wrappers
  import opened Errors
  import opened Text

  const MaxPlanName := 100
  const MaxPlanDescription := 2000

  /** `_name`: stripped, then 1..100 characters. */
  function ValidatePlanName(v: string): (r: Result<string, Fault>)
    ensures r.Ok? <==> 1 <= |Strip(v)| <= MaxPlanName
    ensures r.Ok? ==> r.value == Strip(v) && IsStripped(r.value)
    ensures r.Err? ==> r.error.Value?
  {
    var s := Strip(v);
    if !(1 <= |s| <= MaxPlanName) then Err(Value("name length 1..120")) else Ok(s)
  }

  /** A validated plan name passes validation again unchanged. */
  lemma ValidatePlanNameIdempotent(v: string)
    requires ValidatePlanName(v).Ok?
    ensures ValidatePlanName(ValidatePlanName(v).value) == ValidatePlanName(v)
  {
    StripStripped(Strip(v));
  }

  /**
   * `_desc`: `if v and len(v) > 2000` raises, so `None` and the empty string pass, as does
   * any string up to 2000 characters; the value is returned as sent.
   */
  function ValidatePlanDescription(v: Option<string>): (r: Result<Option<string>, Fault>)
    ensures r.Ok? <==> v.None? || |v.value| <= MaxPlanDescription
    ensures r.Ok? ==> r.value == v
    ensures r.Err? ==> r.error.Value?
  {
    if v.Some? && v.value != [] && |v.value| > MaxPlanDescription then Err(Value("description max 2000"))
    else Ok(v)
  }
}
