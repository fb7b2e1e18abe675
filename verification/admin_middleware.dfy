/** The guard in front of the admin pages. */
module AdminMiddleware {
  import opened Wrappers
  import opened Access

  /**
    Checks, in order: signed in, role admin, account active. The role check
    comes before the status check, so an inactive siswa is sent to the siswa
    dashboard and stays signed in.
   */
  function Handle(u: Option<User>): (d: Response)
    ensures d.Forward? <==> u.Some? && u.value.role == Admin && u.value.status
    ensures u.None? ==> d == Redirect(Login, Some(MsgLoginFirst), false)
    ensures u.Some? && u.value.role != Admin ==> d == Redirect(SiswaDashboard, Some(MsgNotAdmin), false)
    ensures d.Redirect? && d.logout <==> u.Some? && u.value.role == Admin && !u.value.status
    ensures d.Redirect? && d.logout ==> d.target == Login && d.flash == Some(MsgInactive)
  {
    match u
    case None => Redirect(Login, Some(MsgLoginFirst), false)
    case Some(user) =>
      if user.role != Admin then Redirect(SiswaDashboard, Some(MsgNotAdmin), false)
      else if !user.status then Redirect(Login, Some(MsgInactive), true)
      else Forward
  }
}
