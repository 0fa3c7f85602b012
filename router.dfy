/**
 * The route table of `src/router/index.js` and its `beforeEach` navigation
 * guard: which routes need a signed-in user, and where a navigation is sent
 * given whether the user is signed in and has completed onboarding.
 */
module Router {
  import opened Wrappers

  /** The named routes of the application. */
  datatype RouteName = Login | Onboarding | Dashboard | Worlds | WorldDetail | Sims | SimDetail | FamilyTree

  /** A route record: its path pattern, its name and its `meta.requiresAuth`. */
  datatype Route = Route(path: string, name: RouteName, requiresAuth: bool)

  /** The `routes` array, in declaration order. */
  const Routes: seq<Route> := [
    Route("/login", Login, false),
    Route("/onboarding", Onboarding, true),
    Route("/", Dashboard, true),
    Route("/worlds", Worlds, true),
    Route("/worlds/:worldId", WorldDetail, true),
    Route("/sims", Sims, true),
    Route("/sims/:simId", SimDetail, true),
    Route("/family-tree", FamilyTree, true)
  ]

  /** The three paths the guard redirects to. */
  const LOGIN_PATH: string := "/login"
  const HOME_PATH: string := "/"
  const ONBOARDING_PATH: string := "/onboarding"

  /** Only the login page is open to a visitor who is not signed in. */
  lemma OnlyLoginIsPublic()
    ensures forall r :: r in Routes ==> (r.requiresAuth <==> r.name != Login)
  {
  }

  /** No two routes share a name or a path. */
  lemma RoutesDistinct()
    ensures forall i, j :: 0 <= i < j < |Routes| ==> Routes[i].name != Routes[j].name && Routes[i].path != Routes[j].path
  {
  }

  /**
   * What the guard reads of a navigation target: the name of the matched
   * route and its `meta.requiresAuth`; a location no route matches has no
   * name and `requiresAuth` undefined, which counts as false.
   */
  datatype Target = Target(name: Option<RouteName>, requiresAuth: bool)

  /** The target a matched route (or no route) gives. */
  function TargetOf(route: Option<Route>): Target
  {
    match route
    case Some(r) => Target(Some(r.name), r.requiresAuth)
    case None => Target(None, false)
  }

  /** The first route of the table whose path is exactly `path`. */
  function RouteByPath(routes: seq<Route>, path: string): (r: Option<nat>)
    ensures r.Some? ==> r.value < |routes| && routes[r.value].path == path
    ensures r.Some? ==> forall j :: 0 <= j < r.value ==> routes[j].path != path
    ensures r.None? ==> forall j :: 0 <= j < |routes| ==> routes[j].path != path
    decreases |routes|
  {
    if routes == [] then None
    else if routes[0].path == path then Some(0)
    else match RouteByPath(routes[1..], path)
      case Some(k) => Some(k + 1)
      case None => None
  }

  /** The target reached by navigating to a static path of the table. */
  function Resolve(path: string): Target
  {
    match RouteByPath(Routes, path)
    case Some(k) => TargetOf(Some(Routes[k]))
    case None => TargetOf(None)
  }

  /** Every route's own path resolves to that route. */
  lemma ResolveOwnPath(i: nat)
    requires i < |Routes|
    ensures Resolve(Routes[i].path) == Target(Some(Routes[i].name), Routes[i].requiresAuth)
  {
    RoutesDistinct();
    assert RouteByPath(Routes, Routes[i].path) == Some(i);
  }

  /** The redirect paths resolve to the login, dashboard and onboarding routes. */
  lemma ResolveRedirectPaths()
    ensures Resolve(LOGIN_PATH) == Target(Some(Login), false)
    ensures Resolve(HOME_PATH) == Target(Some(Dashboard), true)
    ensures Resolve(ONBOARDING_PATH) == Target(Some(Onboarding), true)
  {
    ResolveOwnPath(0);
    ResolveOwnPath(1);
    ResolveOwnPath(2);
  }

  /** What the auth store tells the guard. */
  datatype Session = Session(isAuthenticated: bool, hasCompletedOnboarding: bool)

  /** The guard's decision: `next()` or `next(path)`. */
  datatype Navigation = Proceed | Redirect(path: string)

  /** The `beforeEach` guard: the first of its three redirect rules that applies, else proceed. */
  function Guard(to: Target, session: Session): (r: Navigation)
    ensures r.Redirect? ==> r.path in {LOGIN_PATH, HOME_PATH, ONBOARDING_PATH}
  {
    if to.requiresAuth && !session.isAuthenticated then Redirect(LOGIN_PATH)
    else if session.isAuthenticated && to.name == Some(Login) then Redirect(HOME_PATH)
    else if session.isAuthenticated && !session.hasCompletedOnboarding && to.name != Some(Onboarding) then
      Redirect(ONBOARDING_PATH)
    else Proceed
  }

  /**
   * Each redirect happens exactly when its rule applies and no earlier one
   * does: a visitor is sent to the login page from a protected route; a
   * signed-in user is sent from the login page to the dashboard, even before
   * onboarding; a signed-in user who has not completed onboarding is sent to
   * it from every other page; everything else proceeds.
   */
  lemma GuardRules(to: Target, session: Session)
    ensures Guard(to, session) == Redirect(LOGIN_PATH) <==> to.requiresAuth && !session.isAuthenticated
    ensures Guard(to, session) == Redirect(HOME_PATH) <==> session.isAuthenticated && to.name == Some(Login)
    ensures Guard(to, session) == Redirect(ONBOARDING_PATH) <==>
      session.isAuthenticated && !session.hasCompletedOnboarding && to.name != Some(Login) && to.name != Some(Onboarding)
    ensures Guard(to, session) == Proceed <==>
      if session.isAuthenticated then to.name != Some(Login) && (session.hasCompletedOnboarding || to.name == Some(Onboarding))
      else !to.requiresAuth
  {
    assert LOGIN_PATH != HOME_PATH && LOGIN_PATH != ONBOARDING_PATH && HOME_PATH != ONBOARDING_PATH;
  }

  /**
   * The pages redirected to are let through: the login page for a visitor,
   * the onboarding page for a user who has not completed it, the dashboard
   * for a user who has.
   */
  lemma RedirectTargetsPass(session: Session)
    ensures !session.isAuthenticated ==> Guard(Resolve(LOGIN_PATH), session) == Proceed
    ensures session.isAuthenticated && !session.hasCompletedOnboarding ==> Guard(Resolve(ONBOARDING_PATH), session) == Proceed
    ensures session.isAuthenticated && session.hasCompletedOnboarding ==> Guard(Resolve(HOME_PATH), session) == Proceed
  {
    ResolveRedirectPaths();
  }

  /** Navigation with the guard re-run on every redirect, following at most `hops` redirects. */
  function Follow(to: Target, session: Session, hops: nat): Option<Target>
    decreases hops
  {
    match Guard(to, session)
    case Proceed => Some(to)
    case Redirect(path) => if hops == 0 then None else Follow(Resolve(path), session, hops - 1)
  }

  /**
   * Where a navigation ends: a visitor on the target if it is public and on
   * the login page otherwise; a user who has not completed onboarding on
   * the onboarding page; any other user on the target, or on the dashboard
   * instead of the login page.
   */
  function Settled(to: Target, session: Session): Target
  {
    if !session.isAuthenticated then
      if to.requiresAuth then Resolve(LOGIN_PATH) else to
    else if !session.hasCompletedOnboarding then
      if to.name == Some(Onboarding) then to else Resolve(ONBOARDING_PATH)
    else if to.name == Some(Login) then Resolve(HOME_PATH)
    else to
  }

  /**
   * Every navigation settles after at most two redirects, where `Settled`
   * says, and the guard lets the settled target through.
   */
  lemma RedirectsSettle(to: Target, session: Session)
    ensures Follow(to, session, 2) == Some(Settled(to, session))
    ensures Guard(Settled(to, session), session) == Proceed
  {
    ResolveRedirectPaths();
  }

  /**
   * One redirect is enough except for a signed-in user who has not completed
   * onboarding opening the login page: the dashboard it is sent to sends it
   * on to onboarding.
   */
  lemma OneRedirectMostly(to: Target, session: Session)
    ensures Follow(to, session, 1).None? <==>
      session.isAuthenticated && !session.hasCompletedOnboarding && to.name == Some(Login)
  {
    ResolveRedirectPaths();
  }
}
