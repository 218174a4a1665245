/**
 * The request bodies of app/schemas/membership.py. `EmailStr` syntax checking is a library
 * matter and is not modelled; the hand-written validator normalises the address.
 */
module MembershipSchema {
  import opened Wrappers
  import opened Models
  import opened Errors
  import opened Text

  /** `_norm_email`: `v.strip().lower()`. The result has no surrounding space and no capitals. */
  function NormalizeEmail(v: string): (r: string)
    ensures IsStripped(r) && IsLowered(r)
    ensures |r| <= |v|
  {
    LowerLowered(Lower(Strip(v)));
    LowerKeepsStripped(Strip(v));
    Lower(Strip(v))
  }

  /** Normalising an already normalised address changes nothing. */
  lemma NormalizeEmailIdempotent(v: string)
    ensures NormalizeEmail(NormalizeEmail(v)) == NormalizeEmail(v)
  {
    var n := NormalizeEmail(v);
    StripStripped(n);
    LowerLowered(n);
  }

  datatype MembershipCreate = MembershipCreate(email: string, role: MembershipRole)
  datatype MembershipUpdate = MembershipUpdate(role: MembershipRole)

  /**
   * Validating a `MembershipCreate` body: the role string must name a `MembershipRole`,
   * otherwise pydantic raises a validation error (a ValueError).
   */
  function ValidateMembershipCreate(email: string, role: string): (r: Result<MembershipCreate, Fault>)
    ensures r.Ok? <==> role in {"member", "coach", "owner"}
    ensures r.Ok? ==> r.value.email == NormalizeEmail(email) && MembershipRoleValue(r.value.role) == role
  {
    MembershipRoleIsClosed(role);
    match ParseMembershipRole(role)
    case None => Err(Value("role: not a valid MembershipRole"))
    case Some(parsed) => Ok(MembershipCreate(NormalizeEmail(email), parsed))
  }

  /** `MembershipUpdate` carries only the role. */
  function ValidateMembershipUpdate(role: string): (r: Result<MembershipUpdate, Fault>)
    ensures r.Ok? <==> role in {"member", "coach", "owner"}
    ensures r.Ok? ==> MembershipRoleValue(r.value.role) == role
  {
    MembershipRoleIsClosed(role);
    match ParseMembershipRole(role)
    case None => Err(Value("role: not a valid MembershipRole"))
    case Some(parsed) => Ok(MembershipUpdate(parsed))
  }
}
