/** The guard in front of the login page: only visitors who are not signed in get through. */
module GuestMiddleware {
  import opened Wrappers
  import opened Access

  /**
    A signed-in user is sent to the dashboard of their role; the active flag
    is not read and nobody is logged out here.
   */
  function Handle(u: Option<User>): (d: Response)
    ensures d.Forward? <==> u.None?
    ensures u.Some? ==> d == Redirect(Home(u.value.role), None, false)
  {
    match u
    case None => Forward
    case Some(user) =>
      if user.role == Admin then Redirect(AdminDashboard, None, false)
      else Redirect(SiswaDashboard, None, false)
  }
}
