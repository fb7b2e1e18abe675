/**
  How the three middlewares compose: every route is guarded by one of them,
  and following redirects from any route ends on a page that lets the request
  through, after at most two redirects.
 */
module Routing {
  import opened Wrappers
  import opened Access
  import AdminMiddleware
  import SiswaMiddleware
  import GuestMiddleware

  /** The middleware that guards each route. */
  function Guard(r: Route, u: Option<User>): (d: Response)
    ensures d.Forward? <==> (r == Login && u.None?) || (u.Some? && u.value.status && r == Home(u.value.role))
    ensures d.Redirect? && !d.logout ==> d.target != r
  {
    match r
    case Login => GuestMiddleware.Handle(u)
    case AdminDashboard => AdminMiddleware.Handle(u)
    case SiswaDashboard => SiswaMiddleware.Handle(u)
  }

  /** The page a browser ends on, and who is signed in there. */
  datatype Landing = Landing(route: Route, user: Option<User>)

  /**
    Follows redirects from `r` for at most `fuel` requests; `None` when the
    fuel runs out before some guard forwards.
   */
  function Navigate(r: Route, u: Option<User>, fuel: nat): (res: Option<Landing>)
    ensures res.Some? ==> Guard(res.value.route, res.value.user).Forward?
    ensures res.Some? ==> res.value.user == u || res.value.user.None?
    decreases fuel
  {
    if fuel == 0 then None
    else
      var d := Guard(r, u);
      match d
      case Forward => Some(Landing(r, u))
      case Redirect(target, _, _) => Navigate(target, SessionAfter(u, d), fuel - 1)
  }

  /** No user is let through by both the admin and the siswa guards. */
  lemma AdminAndSiswaDisjoint(u: Option<User>)
    ensures !(AdminMiddleware.Handle(u).Forward? && SiswaMiddleware.Handle(u).Forward?)
  {
  }

  /** An active user is let through by exactly one of the admin and siswa guards: the one of their role. */
  lemma ActiveUserHasOneArea(user: User)
    requires user.status
    ensures AdminMiddleware.Handle(Some(user)).Forward? != SiswaMiddleware.Handle(Some(user)).Forward?
    ensures Guard(Home(user.role), Some(user)).Forward?
  {
  }

  /** The only responses that log out come from the admin or siswa guard, for an inactive user of that guard's role. */
  lemma LogoutOnlyForInactive(r: Route, u: Option<User>)
    ensures Guard(r, u).Redirect? && Guard(r, u).logout
            <==> r != Login && u.Some? && !u.value.status && r == Home(u.value.role)
  {
  }

  /** The guest guard's redirect leads to a dashboard whose guard accepts the user's role: it forwards or logs out, never bounces. */
  lemma GuestRedirectPassesRoleCheck(user: User)
    ensures GuestMiddleware.Handle(Some(user)).Redirect?
    ensures
      var target := GuestMiddleware.Handle(Some(user)).target;
      var d := Guard(target, Some(user));
      d.Forward? || (d.Redirect? && d.logout && d.target == Login)
  {
  }

  /**
    No redirect loop: from any route, three requests (two redirects) suffice. An active user
    ends on the dashboard of their role, still signed in; anyone else ends on
    the login page, signed out.
   */
  lemma NoRedirectLoop(r: Route, u: Option<User>)
    ensures Navigate(r, u, 3).Some?
    ensures u.Some? && u.value.status ==> Navigate(r, u, 3) == Some(Landing(Home(u.value.role), u))
    ensures !(u.Some? && u.value.status) ==> Navigate(r, u, 3) == Some(Landing(Login, None))
  {
  }

  /** Two redirects can be needed: an inactive siswa who opens the admin dashboard is not through after two requests. */
  lemma TwoRedirectsNeeded()
    ensures Navigate(AdminDashboard, Some(User(Siswa, false)), 2).None?
    ensures Navigate(AdminDashboard, Some(User(Siswa, false)), 3) == Some(Landing(Login, None))
  {
  }
}
