/** The role gate placed in front of every route group. */
module Roles {
  import opened Wrappers

  /** What the gate does with a request. */
  datatype Decision = Deny(status: int, message: string) | Proceed

  /** The request carries a role; a missing or empty role counts as none. */
  predicate HasRole(role: Option<string>)
  {
    role.Some? && role.value != ""
  }

  /**
   * 401 "No role" without a role, 403 "Forbidden" for a role outside
   * `allowed`, and on to the handler otherwise.
   */
  function RequireRole(allowed: seq<string>, role: Option<string>): (d: Decision)
    ensures d == Deny(401, "No role") <==> !HasRole(role)
    ensures d == Deny(403, "Forbidden") <==> HasRole(role) && role.value !in allowed
    ensures d == Proceed <==> HasRole(role) && role.value in allowed
  {
    if !HasRole(role) then Deny(401, "No role")
    else if role.value !in allowed then Deny(403, "Forbidden")
    else Proceed
  }

  /** Allowing more roles never turns away a request that was let through. */
  lemma RequireRoleWidening(allowed: seq<string>, wider: seq<string>, role: Option<string>)
    requires forall r :: r in allowed ==> r in wider
    requires RequireRole(allowed, role) == Proceed
    ensures RequireRole(wider, role) == Proceed
  {
  }
}
