/**
 * Role-based gating of routes: the `require_role` and `admin_required`
 * decorators, as decisions over the requesting principal.
 */
module Auth {
  import opened Tables

  /** The values the `role` column holds; new users get `RegularUser`. */
  datatype Role = RegularUser | ClubManager | Admin

  /** Who is making the request: nobody logged in, or a known user. */
  datatype Principal = Anonymous | Authenticated(id: UserId, role: Role)

  /**
   * What a gate does with a request: let it through to the route, send it
   * to the login page, or turn it away to the dashboard with an error.
   */
  datatype Access = Granted | SentToLogin | Refused

  /** `require_role(required)`: the role itself or an administrator may pass. */
  function RequireRole(p: Principal, required: Role): (a: Access)
    ensures a == Granted <==> p.Authenticated? && (p.role == required || p.role == Admin)
    ensures a == SentToLogin <==> p.Anonymous?
  {
    if !p.Authenticated? then SentToLogin
    else if p.role != required && p.role != Admin then Refused
    else Granted
  }

  /** `admin_required`: only administrators pass; everyone else goes to the dashboard. */
  function AdminRequired(p: Principal): (a: Access)
    ensures a == Granted <==> p.Authenticated? && p.role == Admin
    ensures a != SentToLogin
  {
    if !p.Authenticated? || p.role != Admin then Refused
    else Granted
  }

  /** An administrator passes every role gate. */
  lemma AdminPassesEveryGate(p: Principal, required: Role)
    requires AdminRequired(p) == Granted
    ensures RequireRole(p, required) == Granted
  {
  }

  /**
   * Requiring the administrator role lets through exactly whom the admin gate
   * lets through; the two differ only in where an anonymous request is sent.
   */
  lemma RequireAdminMatchesAdminGate(p: Principal)
    ensures RequireRole(p, Admin) == Granted <==> AdminRequired(p) == Granted
    ensures p.Anonymous? ==> RequireRole(p, Admin) == SentToLogin && AdminRequired(p) == Refused
  {
  }
}
