/**
 * The route middleware guarding the admin page. On the server it does
 * nothing; on the client it reads the stored user id, asks the user-lookup
 * endpoint for the user's role and lets navigation through only for the role
 * "Admin". A non-Admin role is a fatal 403 that is re-raised; every other
 * failure becomes a redirect to the login page.
 *
 * `localStorage` and the lookup request are inputs: what reading the id
 * produced and what the lookup produced.
 */
module AdminGuard {
  import opened Wrappers

  /** What `localStorage.getItem('userId')` produced: it threw, or it returned
      the stored value (`None` for null). */
  datatype IdRead = ReadThrew | Stored(value: Option<string>)

  /** The `user` object of a lookup reply; `role` is `None` when undefined. */
  datatype Profile = Profile(role: Option<string>)

  /** What the lookup request produced: it threw (with the status code the
      error carries, if any), or it replied with `success` and maybe a `user`. */
  datatype Lookup = LookupThrew(statusCode: Option<int>) | Replied(success: bool, user: Option<Profile>)

  /** The middleware's effect on the navigation. `Forbidden403(fatal)` is a
      re-raised error with status 403; `fatal` holds for the one the role
      check creates. */
  datatype Decision = NoAction | RedirectLogin | Forbidden403(fatal: bool) | Allow

  /** The router lets the navigation through: the middleware returned nothing,
      either by the server-side early return or by the check passing. */
  predicate Proceeds(d: Decision) {
    d == NoAction || d == Allow
  }

  /** A value thrown inside the middleware's `try` block. */
  datatype Thrown = Thrown(statusCode: Option<int>, fatal: bool)

  /** The `try` block ends by returning (a decision) or by throwing. */
  datatype Step = Done(decision: Decision) | Raised(thrown: Thrown)

  const AdminRole := "Admin"

  /** The stored id is truthy: present and not the empty string. */
  predicate HasUserId(id: IdRead) {
    id.Stored? && id.value.Some? && id.value.value != ""
  }

  /** The body of the `try` block. Reading the profile's fields when the reply
      has no `user` throws a status-less error. */
  function TryBlock(id: IdRead, lookup: Lookup): (step: Step) {
    if id.ReadThrew? then Raised(Thrown(None, false))
    else if !HasUserId(id) then Done(RedirectLogin)
    else match lookup
      case LookupThrew(code) => Raised(Thrown(code, false))
      case Replied(success, user) =>
        if !success then Done(RedirectLogin)
        else if user.None? then Raised(Thrown(None, false))
        else if user.value.role != Some(AdminRole) then Raised(Thrown(Some(403), true))
        // falling off the end of the block lets navigation proceed
        else Done(Allow)
  }

  /** The `catch` block: a 403 is re-raised, anything else redirects to `/login`. */
  function CatchBlock(t: Thrown): (d: Decision)
    ensures d == RedirectLogin || (d.Forbidden403? && t.statusCode == Some(403))
  {
    if t.statusCode == Some(403) then Forbidden403(t.fatal) else RedirectLogin
  }

  /** The middleware. `isServer` is `process.server`. */
  function Guard(isServer: bool, id: IdRead, lookup: Lookup): (d: Decision)
    ensures isServer <==> d == NoAction
  {
    if isServer then NoAction
    else match TryBlock(id, lookup)
      case Done(d) => d
      case Raised(t) => CatchBlock(t)
  }
}
