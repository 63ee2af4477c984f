/** The route guard (src/components/ProtectedRoute.tsx): from the session state
    and a route's allowed roles, whether to show a spinner, redirect, or render
    the protected page. */
module ProtectedRoute {
  import opened Wrappers
  import opened Session

  datatype Outcome = Spinner | Redirect(to: string) | Children

  /** Each role's own dashboard. */
  function Dashboard(role: Role): string {
    match role
    case StudentRole => "/student/dashboard"
    case InstituteRole => "/institute/dashboard"
    case GovernmentRole => "/government/dashboard"
  }

  /** Distinct roles have distinct dashboards, none of them the home page. */
  lemma DashboardInjective(a: Role, b: Role)
    ensures Dashboard(a) == Dashboard(b) <==> a == b
    ensures Dashboard(a) != "/"
  {
    assert Dashboard(a)[1] == Dashboard(b)[1] ==> a == b;
  }

  /** True when a role list is given and a user is present whose role it does
      not list. An empty list is still a given list. */
  predicate RoleRefused(user: Option<User>, allowedRoles: Option<seq<Role>>) {
    allowedRoles.Some? && user.Some? && user.value.role !in allowedRoles.value
  }

  /** The guard's decision. */
  function Decide(isLoading: bool, isAuthenticated: bool, user: Option<User>,
                  allowedRoles: Option<seq<Role>>): (o: Outcome)
    ensures o.Spinner? <==> isLoading
    ensures o.Children? <==> !isLoading && isAuthenticated && !RoleRefused(user, allowedRoles)
    ensures o.Redirect? ==> o.to == "/" || (user.Some? && o.to == Dashboard(user.value.role))
  {
    if isLoading then Spinner
    else if !isAuthenticated then Redirect("/")
    else if RoleRefused(user, allowedRoles) then Redirect(Dashboard(user.value.role))
    else Children
  }

  /** While loading, the spinner shows whatever the rest of the state is. */
  lemma LoadingShowsSpinner(isAuthenticated: bool, user: Option<User>, allowedRoles: Option<seq<Role>>)
    ensures Decide(true, isAuthenticated, user, allowedRoles) == Spinner
  {
  }

  /** Once loaded, an unauthenticated visitor is sent to the home page, and
      only an unauthenticated one is. */
  lemma UnauthenticatedGoesHome(isAuthenticated: bool, user: Option<User>, allowedRoles: Option<seq<Role>>)
    ensures Decide(false, isAuthenticated, user, allowedRoles) == Redirect("/") <==> !isAuthenticated
  {
    if isAuthenticated && user.Some? {
      DashboardInjective(user.value.role, user.value.role);
    }
  }

  /** A signed-in user whose role the route does not allow goes to their own
      dashboard. */
  lemma RefusedGoesToOwnDashboard(user: User, allowedRoles: seq<Role>)
    requires user.role !in allowedRoles
    ensures Decide(false, true, Some(user), Some(allowedRoles)) == Redirect(Dashboard(user.role))
  {
  }

  /** A route with no role list, a listed role, or an authenticated session with
      no user renders the page. */
  lemma AllowedRendersChildren(user: Option<User>, allowedRoles: Option<seq<Role>>)
    ensures allowedRoles.None? ==> Decide(false, true, user, allowedRoles) == Children
    ensures user.None? ==> Decide(false, true, user, allowedRoles) == Children
    ensures user.Some? && allowedRoles.Some? && user.value.role in allowedRoles.value ==>
      Decide(false, true, user, allowedRoles) == Children
  {
  }

  /** A refused user is never bounced twice: their own dashboard, guarded for
      their role, renders. */
  lemma RedirectSettles(user: User, allowedRoles: seq<Role>)
    requires user.role !in allowedRoles
    ensures var o := Decide(false, true, Some(user), Some(allowedRoles));
      o.Redirect? && Decide(false, true, Some(user), Some([user.role])) == Children
  {
  }
}
