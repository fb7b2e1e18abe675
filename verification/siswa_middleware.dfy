/** The guard in front of the siswa (student) pages. */
module SiswaMiddleware {
  import opened Wrappers
  import opened Access

  /**
    Checks, in order: signed in, role siswa, account active. The role check
    comes before the status check, so an inactive admin is sent to the admin
    dashboard and stays signed in.
   */
  function Handle(u: Option<User>): (d: Response)
    ensures d.Forward? <==> u.Some? && u.value.role == Siswa && u.value.status
    ensures u.None? ==> d == Redirect(Login, Some(MsgLoginFirst), false)
    ensures u.Some? && u.value.role != Siswa ==> d == Redirect(AdminDashboard, Some(MsgNotSiswa), false)
    ensures d.Redirect? && d.logout <==> u.Some? && u.value.role == Siswa && !u.value.status
    ensures d.Redirect? && d.logout ==> d.target == Login && d.flash == Some(MsgInactive)
  {
    match u
    case None => Redirect(Login, Some(MsgLoginFirst), false)
    case Some(user) =>
      if user.role != Siswa then Redirect(AdminDashboard, Some(MsgNotSiswa), false)
      else if !user.status then Redirect(Login, Some(MsgInactive), true)
      else Forward
  }
}
