/**
  Shared vocabulary of the three access middlewares: the signed-in user, the
  routes a middleware redirects to, and the response it produces.
 */
module Access {
  import opened Wrappers

  /** The two roles a user row can hold. */
  datatype Role = Admin | Siswa

  /** The parts of a signed-in user the middlewares read: role and active flag. */
  datatype User = User(role: Role, status: bool)

  /** Redirect targets, as abstract labels rather than route names. */
  datatype Route = Login | AdminDashboard | SiswaDashboard

  /**
    What a middleware does with a request: pass it on, or redirect, possibly
    with a flash error and possibly after logging the user out.
   */
  datatype Response =
    | Forward
    | Redirect(target: Route, flash: Option<string>, logout: bool)

  const MsgLoginFirst: string := "Silakan login terlebih dahulu."
  const MsgNotAdmin: string := "Anda tidak memiliki akses ke halaman admin."
  const MsgNotSiswa: string := "Admin tidak dapat mengakses halaman siswa."
  const MsgInactive: string := "Akun Anda dinonaktifkan. Silahkan hubungi administrator."

  /** The dashboard that belongs to a role. */
  function Home(r: Role): Route
  {
    match r
    case Admin => AdminDashboard
    case Siswa => SiswaDashboard
  }

  /** The signed-in user after a response: a logout clears it, anything else keeps it. */
  function SessionAfter(u: Option<User>, d: Response): (u': Option<User>)
    ensures u' == u || u'.None?
    ensures !(d.Redirect? && d.logout) ==> u' == u
    ensures d.Redirect? && d.logout ==> u'.None?
  {
    if d.Redirect? && d.logout then None else u
  }
}
