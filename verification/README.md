# Extracurricular voting portal: quota rule and access guards

This project models, in Dafny, the two pieces of logic in the school
extracurricular voting portal (a Laravel application) that make decisions.

- **The quota rule of an activity** (`Ekstrakurikuler`). An activity has a
  quota (`kuota`). Its voter count (`jumlah_pemilih`) is the number of votes
  that reference it. From these the model derives:
  - the fill percentage;
  - the status label `kosong`, `tersedia`, `hampir_penuh` or `penuh`;
  - whether one more voter is accepted (`bisaDipilih`);
  - the seats left (`sisaKuota`);
  - the row predicate of the status filter, which runs as SQL.

  The percentage `round(count / kuota * 100, 1)` is an exact integer number of
  tenths, `(2000*count + kuota) div (2*kuota)`. This rounds halves up, which is
  what PHP's half-away-from-zero rounding does on non-negative values. The
  status contract gives each label as an exact inequality on count and quota.
  This shows where rounding moves the thresholds: 99.95 % already reads as
  `penuh`. The model proves that the `penuh` label and "no seat left"
  (`!bisaDipilih`) disagree exactly when the quota is 0 or
  `1999*kuota <= 2000*count < 2000*kuota`. With quota 0 no voter is accepted,
  yet the label is never `penuh`. The second case is `penuh` with a seat still
  left, which needs a quota of 2000 or more (quota 10000 with 9999 votes is one
  case).
  The filter contract states, for each status, exactly which rows the SQL
  filter selects, in terms of the capacity check and the labels. From that the
  model proves, for all inputs, where the `hampir_penuh` and `tersedia`
  filters, which compare raw counts, part from the labels of the same name.
  The `kosong` filter agrees with its label everywhere. The `penuh` filter
  selects exactly the rows with no seat left, so it parts from the `penuh`
  label exactly where the capacity check does. The activity form in the admin pages only accepts quotas
  from 1 to 200. Within that range neither rounding disagreement can happen:
  `penuh` means "no seat left", and the `hampir_penuh` filter selects exactly
  the rows labelled `hampir_penuh`. The disagreements need larger quotas, as
  stored data could hold.

- **The three access middlewares** (`AdminMiddleware`, `SiswaMiddleware`,
  `GuestMiddleware`). Each is a total function from the signed-in user to a
  response. The user is an optional role and active flag, with the closed role
  type `{Admin, Siswa}` taken from the `users.role` enum. The response is
  either "forward" or a redirect, which may carry a flash message and may log
  the user out. `Routing` puts one guard in front of each page and follows the
  redirects. It proves there is no redirect loop: from any page, at most two
  redirects lead to a page that lets the request through, and two can be
  needed. An active user lands
  on their own dashboard. Anyone else lands on the login page, signed out.

Files: `wrappers.dfy` (Option), `ekstrakurikuler.dfy`, `access.dfy` (shared
types), `admin_middleware.dfy`, `siswa_middleware.dfy`,
`guest_middleware.dfy`, `routing.dfy`.

## Model

| member | source | states |
|---|---|---|
| Ekstrakurikuler.JumlahPemilih | app/Models/Ekstrakurikuler.php:17-20 | the count never exceeds the ledger length; it is 0 exactly when no vote references the activity, and equals the ledger length exactly when every vote does |
| Ekstrakurikuler.JumlahPemilihAppend | app/Models/Ekstrakurikuler.php:17-20 | counting over two batches of votes is the sum of the two counts |
| Ekstrakurikuler.JumlahPemilihAfterVote | app/Models/Vote.php:9 | one more vote inserted at any position of the ledger raises the count of its own activity by exactly one and leaves every other activity's count unchanged |
| Ekstrakurikuler.PersentaseKuota | app/Models/Ekstrakurikuler.php:23-30 | quota 0 gives 0; otherwise the result t is 1000*count/kuota rounded half-up to whole tenths, i.e. 2*kuota*t <= 2000*count + kuota < 2*kuota*(t+1) |
| Ekstrakurikuler.PersentaseKuotaUnique | app/Models/Ekstrakurikuler.php:29 | only one integer meets those rounding bounds, so they fully determine the percentage |
| Ekstrakurikuler.PersentaseAtLeast | app/Models/Ekstrakurikuler.php:29 | comparing the rounded percentage with a threshold m is the same as the integer comparison 2000*count + kuota >= 2*kuota*m |
| Ekstrakurikuler.PersentaseThresholds | app/Models/Ekstrakurikuler.php:37-41 | the status accessor's 100 % and 80 % thresholds hold exactly when kuota > 0 and 2000*count >= 1999*kuota or >= 1599*kuota |
| Ekstrakurikuler.PersentaseKuotaBounds | app/Models/Ekstrakurikuler.php:25-29 | no votes gives 0.0 %; a count at or above a positive quota gives at least 100.0 % |
| Ekstrakurikuler.PersentaseKuotaMonotone | app/Models/Ekstrakurikuler.php:29 | a larger count never gives a smaller percentage |
| Ekstrakurikuler.StatusKuota | app/Models/Ekstrakurikuler.php:33-46 | penuh iff kuota > 0 and 2000*count >= 1999*kuota; hampir_penuh iff kuota > 0 and 1599*kuota <= 2000*count < 1999*kuota; tersedia iff count > 0 and (kuota = 0 or 2000*count < 1599*kuota); kosong iff count = 0 |
| Ekstrakurikuler.StatusOf | app/Models/Ekstrakurikuler.php:17-46 | an activity is kosong exactly when no vote in the ledger references it |
| Ekstrakurikuler.StatusZeroKuota | app/Models/Ekstrakurikuler.php:25-27 | with quota 0 the percentage is 0, and the status is tersedia if there are votes and kosong otherwise |
| Ekstrakurikuler.StatusMonotone | app/Models/Ekstrakurikuler.php:29-45 | more votes never move the status down the order kosong < tersedia < hampir_penuh < penuh |
| Ekstrakurikuler.FullQuotaIsPenuh | app/Models/Ekstrakurikuler.php:29-38 | a positive quota that has been reached or exceeded reads as penuh |
| Ekstrakurikuler.BisaDipilih | app/Models/Ekstrakurikuler.php:49-52 | a voter is accepted iff seats are left; never with quota 0; when no voter is accepted and the quota is positive, the status is penuh |
| Ekstrakurikuler.SisaKuota | app/Models/Ekstrakurikuler.php:55-58 | the seats left never exceed the quota; they are kuota - count when count <= kuota, and 0 once the quota is reached |
| Ekstrakurikuler.SisaKuotaCountsSeats | app/Models/Ekstrakurikuler.php:49-58 | j further votes still leave room iff j is below the seats left: the seats left is exactly how many more voters are accepted |
| Ekstrakurikuler.PenuhWhileSelectable | app/Models/Ekstrakurikuler.php:25-51 | penuh and still accepting voters happen together exactly when 1999*kuota <= 2000*count < kuota*2000, which needs a quota of at least 2000; the penuh label and "no seat left" disagree exactly when the quota is 0 or that inequality holds |
| Ekstrakurikuler.PenuhWhileSelectableWitness | app/Models/Ekstrakurikuler.php:29-58 | for every quota of at least 2000, one vote short of the quota reads as penuh with one seat left |
| Ekstrakurikuler.RoundingExample | app/Models/Ekstrakurikuler.php:29-58 | quota 10000 with 9999 votes gives 100.0 %, penuh, still accepting voters, one seat left |
| Ekstrakurikuler.QuotaThirtyScenarios | app/Models/Ekstrakurikuler.php:29-45 | quota 30: 24 votes give 80.0 % and hampir_penuh, 30 give 100.0 % and penuh, 0 give 0 and kosong |
| Ekstrakurikuler.Label | app/Models/Ekstrakurikuler.php:38-44 | the accessor returns one of the four strings kosong, tersedia, hampir_penuh, penuh |
| Ekstrakurikuler.LabelInjective | app/Models/Ekstrakurikuler.php:38-44 | different statuses are returned as different strings |
| Ekstrakurikuler.ParseLabel | app/Models/Ekstrakurikuler.php:64-74 | a filter argument is recognised exactly when it is one of the four labels, and then as the status with that label |
| Ekstrakurikuler.ParseLabelRoundTrip | app/Models/Ekstrakurikuler.php:38-44 | reading back a status label gives that status |
| Ekstrakurikuler.FilterByStatus | app/Models/Ekstrakurikuler.php:61-76 | an unrecognised status selects every row; penuh selects exactly the rows with no seat left, and with a positive quota those are labelled penuh; hampir_penuh selects exactly the rows that still have a seat and have count >= 80 % of the quota, all labelled hampir_penuh or penuh; tersedia selects exactly the rows that still have a seat and are not labelled kosong; kosong selects exactly the rows labelled kosong |
| Ekstrakurikuler.FilterHampirPenuhWithinTersedia | app/Models/Ekstrakurikuler.php:66-71 | every row the hampir_penuh filter selects is also selected by the tersedia filter, so the two filters overlap although the labels do not |
| Ekstrakurikuler.TersediaSelectedByFilter | app/Models/Ekstrakurikuler.php:41-42 | with a positive quota, a row labelled tersedia is selected by the tersedia filter |
| Ekstrakurikuler.ZeroKuotaFilterMismatch | app/Models/Ekstrakurikuler.php:64-71 | with quota 0 the penuh filter selects the row although the label is never penuh, and a row with votes is labelled tersedia but the tersedia filter skips it |
| Ekstrakurikuler.HampirPenuhFilterMismatch | app/Models/Ekstrakurikuler.php:66-68 | quota 10000 with 7996 votes is labelled hampir_penuh but the filter skips it; 9999 votes are labelled penuh but the filter selects them as hampir_penuh |
| Ekstrakurikuler.HampirPenuhFilterDisagreement | app/Models/Ekstrakurikuler.php:37-68 | the hampir_penuh filter and the hampir_penuh label disagree exactly when the quota is positive and either 1599*kuota <= 2000*count < 1600*kuota (rounds up to 80.0 %) or 1999*kuota <= 2000*count < 2000*kuota (rounds up to 100.0 % with a seat left) |
| Ekstrakurikuler.TersediaFilterDisagreement | app/Models/Ekstrakurikuler.php:37-71 | the tersedia filter and the tersedia label disagree exactly when there are votes and either the quota is 0 or 1599*kuota <= 2000*count with count still below the quota |
| Ekstrakurikuler.FormQuotaAgreement | app/Models/Ekstrakurikuler.php:29-68 | for quotas from 1 to 200 (the range the admin activity form validates), penuh holds exactly when no seat is left, and the hampir_penuh filter selects exactly the rows labelled hampir_penuh |
| Ekstrakurikuler.FilterActivities | app/Models/Ekstrakurikuler.php:61-76 | the result keeps exactly the activities that pass the status filter, each as many times as in the input, in their original order; an unrecognised status returns the input unchanged |
| Access.SessionAfter | app/Http/Middleware/AdminMiddleware.php:34-38 | the signed-in user is cleared by a logout response and kept unchanged by every other response |
| AdminMiddleware.Handle | app/Http/Middleware/AdminMiddleware.php:17-41 | forwards iff the user is signed in, an admin and active; no user gives a login redirect with "Silakan login terlebih dahulu."; a siswa goes to the siswa dashboard without logout, even when inactive; logout happens iff the user is an inactive admin, followed by a login redirect |
| SiswaMiddleware.Handle | app/Http/Middleware/SiswaMiddleware.php:17-40 | forwards iff the user is signed in, a siswa and active; no user gives a login redirect; an admin goes to the admin dashboard without logout, even when inactive; logout happens iff the user is an inactive siswa, followed by a login redirect |
| GuestMiddleware.Handle | app/Http/Middleware/GuestMiddleware.php:17-32 | forwards iff nobody is signed in; a signed-in user is sent to the dashboard of their role whatever their active flag, with no flash message and no logout |
| Routing.Guard | routes/web.php:6-24 | a page lets a request through exactly when it is the login page and nobody is signed in, or it is the dashboard of an active user's own role; a redirect without logout never points back at the same page |
| Routing.Navigate | app/Http/Middleware/GuestMiddleware.php:24-27 | following redirects ends, when it ends, on a page whose guard forwards, with the same user or with nobody signed in |
| Routing.AdminAndSiswaDisjoint | app/Http/Middleware/AdminMiddleware.php:27 | no user is forwarded by both the admin and the siswa middleware |
| Routing.ActiveUserHasOneArea | app/Http/Middleware/SiswaMiddleware.php:27 | an active user is forwarded by exactly one of the admin and siswa middlewares, the one guarding their own dashboard |
| Routing.LogoutOnlyForInactive | app/Http/Middleware/AdminMiddleware.php:34-38 | a guard logs out iff it guards a dashboard and the user is an inactive owner of that dashboard |
| Routing.GuestRedirectPassesRoleCheck | app/Http/Middleware/GuestMiddleware.php:24-27 | the guest middleware always redirects a signed-in user, and that dashboard's guard then either forwards or logs out to the login page, never bouncing on role |
| Routing.NoRedirectLoop | app/Http/Middleware/SiswaMiddleware.php:20-39 | from any page, three requests (two redirects) suffice: an active user ends on their own dashboard still signed in, anyone else on the login page signed out |
| Routing.TwoRedirectsNeeded | app/Http/Middleware/AdminMiddleware.php:27-38 | an inactive siswa opening the admin dashboard is not through after two requests, and ends on the login page, signed out, after three |

## Left out

- Eloquent, SQL evaluation and the `Auth` facade are not modelled. The voter
  count is a function over a sequence of votes. The signed-in user is an
  `Option<User>` argument. Logging out is the `logout` flag of a response.
  Flash messages are plain strings.
- Floating point is not modelled. PHP's `round` on a float quotient and the SQL
  `kuota * 0.8` are exact integer arithmetic in the model: tenths of a percent,
  and `5*count >= 4*kuota`. A quotient whose float value lands on the other
  side of a rounding tie is not covered.
- The quota is a natural number. The activity table's schema is not part of
  this model, so a negative quota is not considered.
- Route names are abstract labels. The middlewares redirect to the route names
  `login` and `siswa.dashboard`. `routes/web.php` registers `auth.login` and
  `siswa.dashboardd` instead. The model assumes each redirect reaches the page
  it means.
- The framework `auth` middleware that `routes/web.php` puts in front of the
  admin and siswa groups is not modelled. It also sends a visitor who is not signed in
  to the login page, so navigation ends in the same place. Only the flash
  message differs.
- The `/` route is not a separate page in the model. `routes/web.php` puts it in
  the same guest group as the login page, so `GuestMiddleware.Handle` guards it
  exactly as it guards the login page. Its action only redirects to the login
  page. The logout route is not modelled either: no role middleware guards it.
- Vote casting, the `has_voted` flag, deletion guards and the uniqueness or
  transaction design of votes are not modelled. None of them appear in the
  modelled code.
- Blade views, layouts, the exception renderer in `bootstrap/app.php` and the
  database seeder are not modelled. They are presentation and fixture data.
- Routing.Navigate: the redirect chain is followed for a bounded number of
  requests (`fuel`). The termination claim is the separate lemma
  `Routing.NoRedirectLoop`, with three requests.
