/** Properties of the admin route guard, one per branch, and its safety property. */
module AdminGuardProperties {
  import opened Wrappers
  import opened AdminGuard

  /** Without a truthy stored id (null or empty), the guard redirects to `/login`. */
  lemma MissingUserIdRedirects(id: IdRead, lookup: Lookup)
    requires id.Stored? && !HasUserId(id)
    ensures Guard(false, id, lookup) == RedirectLogin
  {
  }

  /** A lookup reply with `success` false redirects to `/login`. */
  lemma FailedLookupRedirects(id: IdRead, user: Option<Profile>)
    requires HasUserId(id)
    ensures Guard(false, id, Replied(false, user)) == RedirectLogin
  {
  }

  /** A successful lookup whose role is anything but exactly "Admin" (another
      string or none) yields the fatal 403, re-raised rather than redirected. */
  lemma NonAdminForbidden(id: IdRead, role: Option<string>)
    requires HasUserId(id) && role != Some("Admin")
    ensures Guard(false, id, Replied(true, Some(Profile(role)))) == Forbidden403(true)
  {
  }

  /** A successful lookup with role "Admin" lets navigation proceed. */
  lemma AdminAllowed(id: IdRead)
    requires HasUserId(id)
    ensures Guard(false, id, Replied(true, Some(Profile(Some("Admin"))))) == Allow
  {
  }

  /** Every failure other than a 403 becomes a redirect: reading the id
      throwing, the lookup throwing, or a successful reply without a user.
      A lookup error that itself carries status 403 is re-raised, not fatal. */
  lemma OtherErrorsRedirect(id: IdRead, lookup: Lookup)
    ensures Guard(false, ReadThrew, lookup) == RedirectLogin
    ensures HasUserId(id) ==>
              forall code: Option<int> :: code != Some(403) ==>
                Guard(false, id, LookupThrew(code)) == RedirectLogin
    ensures HasUserId(id) ==> Guard(false, id, LookupThrew(Some(403))) == Forbidden403(false)
    ensures HasUserId(id) ==> Guard(false, id, Replied(true, None)) == RedirectLogin
  {
  }

  /** The guard returns the `Allow` outcome (the admin check passed) exactly
      when it runs on the client, the stored id is present, the lookup
      succeeded and the role is exactly "Admin". */
  lemma AllowOnlyForAdmin(isServer: bool, id: IdRead, lookup: Lookup)
    ensures Guard(isServer, id, lookup) == Allow <==>
              !isServer && HasUserId(id) && lookup == Replied(true, Some(Profile(Some(AdminRole))))
  {
  }

  /** Navigation proceeds exactly when the guard runs on the server, whoever
      the visitor is, or when the client-side check finds an Admin: the
      server-side early return redirects nobody. */
  lemma ProceedsExactly(isServer: bool, id: IdRead, lookup: Lookup)
    ensures Proceeds(Guard(isServer, id, lookup)) <==>
              isServer || (HasUserId(id) && lookup == Replied(true, Some(Profile(Some(AdminRole)))))
  {
  }

  /** On the client the guard always decides: it redirects, raises a 403 or
      allows; a raised error is a 403 and never anything else, and a fatal
      one comes only from the role check. */
  lemma ClientOutcomes(id: IdRead, lookup: Lookup)
    ensures var d := Guard(false, id, lookup);
            && d != NoAction
            && (d.Forbidden403? && d.fatal ==>
                  HasUserId(id) && lookup.Replied? && lookup.success && lookup.user.Some?
                  && lookup.user.value.role != Some(AdminRole))
            && (d.Forbidden403? && !d.fatal ==> lookup == LookupThrew(Some(403)))
  {
  }
}
