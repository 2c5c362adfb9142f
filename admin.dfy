/**
 * The admin page's gate: on entry it looks up the current session and, if
 * there is one, the caller's "admin" role row; it then either admits the
 * caller to the dashboard or names a route to leave for. The render shows
 * a loading placeholder until the check is over and the dashboard only to
 * an admitted caller.
 */
module Admin {
  import opened Wrappers
  import opened Backend

  datatype Session = Session(userId: string)

  /** The session lookup: it resolves to an optional session, or the awaited call throws. */
  datatype SessionLookup = Resolved(session: Option<Session>) | Rejected

  /** A role-table lookup: the row for this user id and this role, if any. */
  datatype RoleQuery = RoleQuery(userId: string, role: string)

  datatype RoleRow = RoleRow(role: string)

  const AdminRole: string := "admin"
  const AuthRoute: string := "/auth"
  const LandingRoute: string := "/"
  const PrivilegeToast: string := "You need admin privileges to access this page"
  const AuthErrorToast: string := "Authentication error"

  datatype AdminView = LoadingPlaceholder | Nothing | Dashboard

  /** The render gate over the page's two flags. */
  function RenderGate(loading: bool, isAdmin: bool): (view: AdminView)
    ensures view == LoadingPlaceholder <==> loading
    ensures view == Dashboard <==> !loading && isAdmin
  {
    if loading then LoadingPlaceholder
    else if !isAdmin then Nothing
    else Dashboard
  }

  /** True when the lookups admit the caller: a session, and an admin row found without error. */
  ghost predicate Admits(lookup: SessionLookup, roles: RoleQuery -> Response<RoleRow>)
  {
    && lookup.Resolved?
    && lookup.session.Some?
    && roles(RoleQuery(lookup.session.value.userId, AdminRole)).error.None?
    && roles(RoleQuery(lookup.session.value.userId, AdminRole)).data.Some?
  }

  class AdminPage {
    var loading: bool
    var isAdmin: bool

    /** The state hooks' initial values: loading, not admitted. */
    constructor ()
      ensures loading && !isAdmin
    {
      loading := true;
      isAdmin := false;
    }

    /**
     * The entry check. `roles` stands for the role table; the query issued
     * (if any) is returned in `issued`. Every path clears `loading`.
     */
    method CheckAuth(lookup: SessionLookup, roles: RoleQuery -> Response<RoleRow>)
      returns (issued: Option<RoleQuery>, redirect: Option<string>, toast: Option<string>)
      requires loading && !isAdmin
      modifies this
      ensures !loading
      // no session: off to sign in, the role table is never asked
      ensures lookup == Resolved(None) ==>
                issued == None && redirect == Some(AuthRoute) && toast == None && !isAdmin
      // the session lookup itself throws: reported as an authentication error
      ensures lookup.Rejected? ==>
                issued == None && redirect == Some(AuthRoute) && toast == Some(AuthErrorToast) && !isAdmin
      // a session: the role table is asked for this user's admin row, and only that
      ensures lookup.Resolved? && lookup.session.Some? ==>
                issued == Some(RoleQuery(lookup.session.value.userId, AdminRole))
      ensures issued.Some? && roles(issued.value).error.Some? ==>
                redirect == Some(AuthRoute) && toast == Some(AuthErrorToast) && !isAdmin
      ensures issued.Some? && roles(issued.value).error.None? && roles(issued.value).data.None? ==>
                redirect == Some(LandingRoute) && toast == Some(PrivilegeToast) && !isAdmin
      ensures issued.Some? && roles(issued.value).error.None? && roles(issued.value).data.Some? ==>
                redirect == None && toast == None && isAdmin
      // admitted and redirected exclude each other
      ensures isAdmin <==> redirect == None
      ensures isAdmin <==> Admits(lookup, roles)
    {
      issued, redirect, toast := None, None, None;
      var thrown := false;
      // try
      if lookup.Rejected? {
        thrown := true;
      } else if lookup.session.None? {
        redirect := Some(AuthRoute);
      } else {
        var query := RoleQuery(lookup.session.value.userId, AdminRole);
        issued := Some(query);
        var res := roles(query);
        if res.error.Some? {
          thrown := true;
        } else if res.data.None? {
          toast := Some(PrivilegeToast);
          redirect := Some(LandingRoute);
        } else {
          isAdmin := true;
        }
      }
      // catch
      if thrown {
        toast := Some(AuthErrorToast);
        redirect := Some(AuthRoute);
      }
      // finally
      loading := false;
    }
  }

  /**
   * The page's lifetime: created, rendered (placeholder), checked, rendered
   * again. The dashboard shows exactly when the lookups admit the caller,
   * and then no redirect is made.
   */
  method MountAdmin(lookup: SessionLookup, roles: RoleQuery -> Response<RoleRow>)
    returns (first: AdminView, issued: Option<RoleQuery>, redirect: Option<string>,
             toast: Option<string>, settled: AdminView)
    ensures first == LoadingPlaceholder
    ensures settled != LoadingPlaceholder
    ensures settled == Dashboard <==> Admits(lookup, roles)
    ensures settled == Dashboard <==> redirect == None
    ensures lookup.Resolved? && lookup.session.None? ==>
              issued == None && redirect == Some(AuthRoute) && toast == None
    ensures lookup.Rejected? ==>
              issued == None && redirect == Some(AuthRoute) && toast == Some(AuthErrorToast)
    ensures lookup.Resolved? && lookup.session.Some? ==>
              issued == Some(RoleQuery(lookup.session.value.userId, AdminRole))
    ensures issued.Some? && roles(issued.value).error.Some? ==>
              redirect == Some(AuthRoute) && toast == Some(AuthErrorToast) && settled == Nothing
    ensures issued.Some? && roles(issued.value).error.None? && roles(issued.value).data.None? ==>
              redirect == Some(LandingRoute) && toast == Some(PrivilegeToast) && settled == Nothing
    ensures issued.Some? && roles(issued.value).error.None? && roles(issued.value).data.Some? ==>
              redirect == None && toast == None && settled == Dashboard
  {
    var page := new AdminPage();
    first := RenderGate(page.loading, page.isAdmin);
    issued, redirect, toast := page.CheckAuth(lookup, roles);
    settled := RenderGate(page.loading, page.isAdmin);
  }
}
